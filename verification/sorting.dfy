/** The ordering step of both leaderboards: `Array.prototype.sort` with the comparator
    `(a, b) => b.total - a.total`, which is a stable sort into non-increasing order of
    the total. Written as an insertion sort on sequences; any stable sort by the same
    comparator gives the same sequence. */
module Sorting {

  /** Non-increasing by `key` */
  predicate Descending<T>(s: seq<T>, key: T -> real) {
    forall i, j :: 0 <= i < j < |s| ==> key(s[i]) >= key(s[j])
  }

  /** The elements whose key is `v`, in their order */
  function WithKey<T>(s: seq<T>, key: T -> real, v: real): (r: seq<T>)
    ensures |r| <= |s|
    ensures forall i :: 0 <= i < |r| ==> key(r[i]) == v
  {
    if s == [] then []
    else (if key(s[0]) == v then [s[0]] else []) + WithKey(s[1..], key, v)
  }

  /** The sum of the keys */
  function Total<T>(s: seq<T>, key: T -> real): real {
    if s == [] then 0.0 else key(s[0]) + Total(s[1..], key)
  }

  /** Appending an element adds its key to the total */
  lemma {:induction false} TotalAppend<T>(s: seq<T>, x: T, key: T -> real)
    ensures Total(s + [x], key) == Total(s, key) + key(x)
  {
    if s != [] {
      TotalAppend(s[1..], x, key);
      assert (s + [x])[1..] == s[1..] + [x];
    }
  }

  /** `x` placed in front of the first element whose key is not above its own */
  function Insert<T>(x: T, s: seq<T>, key: T -> real): (r: seq<T>)
    ensures |r| == |s| + 1
  {
    if s == [] || key(x) >= key(s[0]) then [x] + s else [s[0]] + Insert(x, s[1..], key)
  }

  /** The elements of `s` in non-increasing order of `key`, equal keys in their order */
  function SortDescending<T>(s: seq<T>, key: T -> real): (r: seq<T>)
    ensures |r| == |s|
  {
    if s == [] then [] else Insert(s[0], SortDescending(s[1..], key), key)
  }

  /** Inserting into a non-increasing sequence keeps it non-increasing */
  lemma {:induction false} InsertDescending<T>(x: T, s: seq<T>, key: T -> real)
    requires Descending(s, key)
    ensures Descending(Insert(x, s, key), key)
  {
    if s != [] && key(x) < key(s[0]) {
      var t := Insert(x, s[1..], key);
      InsertDescending(x, s[1..], key);
      InsertFirst(x, s[1..], key);
      assert Insert(x, s, key) == [s[0]] + t;
    }
  }

  /** The first element after an insertion is `x` or the old first element */
  lemma InsertFirst<T>(x: T, s: seq<T>, key: T -> real)
    ensures Insert(x, s, key)[0] == x || (s != [] && Insert(x, s, key)[0] == s[0])
  {
  }

  /** The sort's result is non-increasing */
  lemma {:induction false} SortIsDescending<T>(s: seq<T>, key: T -> real)
    ensures Descending(SortDescending(s, key), key)
  {
    if s != [] {
      SortIsDescending(s[1..], key);
      InsertDescending(s[0], SortDescending(s[1..], key), key);
    }
  }

  /** Insertion adds exactly `x` */
  lemma {:induction false} InsertPermutes<T>(x: T, s: seq<T>, key: T -> real)
    ensures multiset(Insert(x, s, key)) == multiset(s) + multiset{x}
  {
    if s != [] && key(x) < key(s[0]) {
      InsertPermutes(x, s[1..], key);
      assert s == [s[0]] + s[1..];
    }
  }

  /** The sort's result is a rearrangement of its input */
  lemma {:induction false} SortPermutes<T>(s: seq<T>, key: T -> real)
    ensures multiset(SortDescending(s, key)) == multiset(s)
  {
    if s != [] {
      SortPermutes(s[1..], key);
      InsertPermutes(s[0], SortDescending(s[1..], key), key);
      assert s == [s[0]] + s[1..];
    }
  }

  /** Insertion puts `x` first among the elements with its key, and moves no other */
  lemma {:induction false} InsertWithKey<T>(x: T, s: seq<T>, key: T -> real, v: real)
    ensures WithKey(Insert(x, s, key), key, v)
            == (if key(x) == v then [x] else []) + WithKey(s, key, v)
  {
    if s == [] || key(x) >= key(s[0]) {
      assert Insert(x, s, key)[1..] == s;
    } else {
      InsertWithKey(x, s[1..], key, v);
      assert Insert(x, s, key)[1..] == Insert(x, s[1..], key);
    }
  }

  /** Stability: elements with equal keys keep their relative order */
  lemma {:induction false} SortIsStable<T>(s: seq<T>, key: T -> real, v: real)
    ensures WithKey(SortDescending(s, key), key, v) == WithKey(s, key, v)
  {
    if s != [] {
      SortIsStable(s[1..], key, v);
      InsertWithKey(s[0], SortDescending(s[1..], key), key, v);
    }
  }

  /** Insertion adds the key of `x` to the total */
  lemma {:induction false} InsertTotal<T>(x: T, s: seq<T>, key: T -> real)
    ensures Total(Insert(x, s, key), key) == key(x) + Total(s, key)
  {
    if s == [] || key(x) >= key(s[0]) {
      assert Insert(x, s, key)[1..] == s;
    } else {
      InsertTotal(x, s[1..], key);
      assert Insert(x, s, key)[1..] == Insert(x, s[1..], key);
    }
  }

  /** Sorting keeps the total */
  lemma {:induction false} SortKeepsTotal<T>(s: seq<T>, key: T -> real)
    ensures Total(SortDescending(s, key), key) == Total(s, key)
  {
    if s != [] {
      SortKeepsTotal(s[1..], key);
      InsertTotal(s[0], SortDescending(s[1..], key), key);
    }
  }

  /** `f` applied to every element, in order */
  function Image<T, U>(s: seq<T>, f: T -> U): (r: seq<U>)
    ensures |r| == |s|
    ensures forall i :: 0 <= i < |s| ==> r[i] == f(s[i])
  {
    if s == [] then [] else [f(s[0])] + Image(s[1..], f)
  }

  /** Insertion adds exactly the image of `x` to the image */
  lemma {:induction false} InsertImage<T, U>(x: T, s: seq<T>, key: T -> real, f: T -> U)
    ensures multiset(Image(Insert(x, s, key), f)) == multiset(Image(s, f)) + multiset{f(x)}
  {
    if s != [] && key(x) < key(s[0]) {
      InsertImage(x, s[1..], key, f);
      assert Image(Insert(x, s, key), f) == [f(s[0])] + Image(Insert(x, s[1..], key), f);
      assert Image(s, f) == [f(s[0])] + Image(s[1..], f);
    } else {
      assert Image(Insert(x, s, key), f) == [f(x)] + Image(s, f);
    }
  }

  /** Sorting rearranges the image of the elements as it rearranges the elements */
  lemma {:induction false} SortImage<T, U>(s: seq<T>, key: T -> real, f: T -> U)
    ensures multiset(Image(SortDescending(s, key), f)) == multiset(Image(s, f))
  {
    if s != [] {
      SortImage(s[1..], key, f);
      InsertImage(s[0], SortDescending(s[1..], key), key, f);
      assert Image(s, f) == [f(s[0])] + Image(s[1..], f);
    }
  }

  /** Mapping every element to one with the same key keeps the total */
  lemma {:induction false} TotalImage<T, U>(s: seq<T>, f: T -> U, key: T -> real, key': U -> real)
    requires forall x :: key'(f(x)) == key(x)
    ensures Total(Image(s, f), key') == Total(s, key)
  {
    if s != [] {
      TotalImage(s[1..], f, key, key');
      assert Image(s, f)[1..] == Image(s[1..], f);
    }
  }

  /** Elements with equal keys stand in increasing order of `rank` */
  predicate TiesRanked<T>(s: seq<T>, key: T -> real, rank: T -> int) {
    forall i, j :: 0 <= i < j < |s| && key(s[i]) == key(s[j]) ==> rank(s[i]) < rank(s[j])
  }

  /** Every element after an insertion is `x` or was there before */
  lemma InsertElements<T>(x: T, s: seq<T>, key: T -> real)
    ensures forall y :: y in Insert(x, s, key) ==> y == x || y in s
  {
    InsertPermutes(x, s, key);
    forall y | y in Insert(x, s, key)
      ensures y == x || y in s
    {
      assert y in multiset(Insert(x, s, key));
    }
  }

  /** Inserting an element ranked below every element with its key keeps ties ranked */
  lemma {:induction false} InsertTiesRanked<T>(x: T, s: seq<T>, key: T -> real, rank: T -> int)
    requires TiesRanked(s, key, rank)
    requires forall y :: y in s && key(y) == key(x) ==> rank(x) < rank(y)
    ensures TiesRanked(Insert(x, s, key), key, rank)
  {
    if s != [] && key(x) < key(s[0]) {
      var t := Insert(x, s[1..], key);
      InsertTiesRanked(x, s[1..], key, rank);
      InsertElements(x, s[1..], key);
      assert Insert(x, s, key) == [s[0]] + t;
      forall j | 0 <= j < |t| && key(s[0]) == key(t[j])
        ensures rank(s[0]) < rank(t[j])
      {
        assert t[j] in t;
        if t[j] != x {
          assert t[j] in s[1..];
          var k :| 0 <= k < |s[1..]| && s[1..][k] == t[j];
          assert s[k + 1] == t[j];
        }
      }
    }
  }

  /** Sorting keeps ties in rank order when the input has them so */
  lemma {:induction false} SortTiesRanked<T>(s: seq<T>, key: T -> real, rank: T -> int)
    requires TiesRanked(s, key, rank)
    ensures TiesRanked(SortDescending(s, key), key, rank)
  {
    if s != [] {
      var t := SortDescending(s[1..], key);
      assert TiesRanked(s[1..], key, rank) by {
        forall i, j | 0 <= i < j < |s[1..]| && key(s[1..][i]) == key(s[1..][j])
          ensures rank(s[1..][i]) < rank(s[1..][j])
        {
          assert s[1..][i] == s[i + 1] && s[1..][j] == s[j + 1];
        }
      }
      SortTiesRanked(s[1..], key, rank);
      SortPermutes(s[1..], key);
      forall y | y in t && key(y) == key(s[0])
        ensures rank(s[0]) < rank(y)
      {
        assert y in multiset(t);
        assert y in s[1..];
        var k :| 0 <= k < |s[1..]| && s[1..][k] == y;
        assert s[k + 1] == y;
      }
      InsertTiesRanked(s[0], t, key, rank);
    }
  }
}

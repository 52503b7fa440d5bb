/** The aggregation loop shared by both leaderboards: the rows are read in order into a
    `Map` keyed by a string; the first row of a key creates its entry (descriptive
    fields from that row, total = its distance, races = 1), every later row adds its
    distance to the total and 1 to the race count. `Array.from(map.values())` lists
    the entries in insertion order, and the list is then sorted by total, largest
    first. */
module Grouping {
  import opened Sorting

  /** One race as the aggregation sees it: the grouping key, the descriptive fields
      the entry takes from its first row, and the scored distance */
  datatype Row<I> = Row(key: string, info: I, distance: real)

  /** One leaderboard entry */
  datatype Tally<I> = Tally(key: string, info: I, total: real, races: nat)

  /** The `Map` as it is being filled: its keys in insertion order, and its entries */
  datatype Groups<I> = Groups(order: seq<string>, table: map<string, Tally<I>>)

  function TotalOf<I>(t: Tally<I>): real { t.total }
  function KeyOf<I>(t: Tally<I>): string { t.key }
  function DistanceOf<I>(r: Row<I>): real { r.distance }

  /** No element occurs twice */
  predicate Distinct<T(==)>(s: seq<T>) {
    forall i, j :: 0 <= i < j < |s| ==> s[i] != s[j]
  }

  // ------------------------------------------------ reference definitions

  /** The position of the first row with key `k`, or `|rows|` when there is none */
  function FirstIndex<I>(rows: seq<Row<I>>, k: string): (i: nat)
    ensures i <= |rows|
    ensures i < |rows| ==> rows[i].key == k
    ensures forall j :: 0 <= j < i ==> rows[j].key != k
  {
    if rows == [] then 0 else if rows[0].key == k then 0 else 1 + FirstIndex(rows[1..], k)
  }

  /** Some row has key `k` */
  predicate Occurs<I>(rows: seq<Row<I>>, k: string) {
    FirstIndex(rows, k) < |rows|
  }

  /** The rows with key `k`, in their order */
  function RowsFor<I>(rows: seq<Row<I>>, k: string): (r: seq<Row<I>>)
    ensures |r| <= |rows|
  {
    if rows == [] then []
    else (if rows[0].key == k then [rows[0]] else []) + RowsFor(rows[1..], k)
  }

  /** The entry the rows call for under key `k`: the first row's descriptive fields,
      the sum of the distances and the number of the rows with that key */
  ghost predicate Summarises<I>(t: Tally<I>, rows: seq<Row<I>>, k: string) {
    && Occurs(rows, k)
    && t == Tally(k, rows[FirstIndex(rows, k)].info, Total(RowsFor(rows, k), DistanceOf), |RowsFor(rows, k)|)
  }

  // ---------------------------------------------------------------- the fold

  /** The order lists exactly the keys of the table, once each, and every entry
      carries its own key */
  ghost predicate Consistent<I>(g: Groups<I>) {
    && Distinct(g.order)
    && (forall k :: k in g.order <==> k in g.table)
    && (forall k :: k in g.table ==> g.table[k].key == k)
  }

  /** One iteration of the loop over the rows */
  function Step<I>(g: Groups<I>, r: Row<I>): (h: Groups<I>)
    requires Consistent(g)
    ensures Consistent(h)
  {
    if r.key in g.table then
      var t := g.table[r.key];
      Groups(g.order, g.table[r.key := t.(total := t.total + r.distance, races := t.races + 1)])
    else
      Groups(g.order + [r.key], g.table[r.key := Tally(r.key, r.info, r.distance, 1)])
  }

  /** The map after the loop has read all the rows, in order */
  function Fold<I>(rows: seq<Row<I>>): (g: Groups<I>)
    ensures Consistent(g)
  {
    if rows == [] then Groups([], map[]) else Step(Fold(rows[..|rows| - 1]), rows[|rows| - 1])
  }

  /** `Array.from(map.values())`: the entries in insertion order */
  function Entries<I>(order: seq<string>, table: map<string, Tally<I>>): (e: seq<Tally<I>>)
    requires forall k :: k in order ==> k in table
    ensures |e| == |order|
    ensures forall i :: 0 <= i < |order| ==> e[i] == table[order[i]]
  {
    if order == [] then [] else [table[order[0]]] + Entries(order[1..], table)
  }

  /** The sorted leaderboard */
  function Board<I>(rows: seq<Row<I>>): seq<Tally<I>> {
    var g := Fold(rows);
    SortDescending(Entries(g.order, g.table), TotalOf)
  }

  // ------------------------------------------------- facts about appending

  lemma FirstIndexAppend<I>(a: seq<Row<I>>, r: Row<I>, k: string)
    ensures FirstIndex(a + [r], k)
            == if Occurs(a, k) then FirstIndex(a, k) else if r.key == k then |a| else |a| + 1
  {
    assert forall m :: 0 <= m < |a| ==> (a + [r])[m] == a[m];
    assert (a + [r])[|a|] == r;
  }

  lemma {:induction false} RowsForAppend<I>(a: seq<Row<I>>, r: Row<I>, k: string)
    ensures RowsFor(a + [r], k) == RowsFor(a, k) + (if r.key == k then [r] else [])
  {
    if a != [] {
      RowsForAppend(a[1..], r, k);
      assert (a + [r])[1..] == a[1..] + [r];
    }
  }

  /** The rows of a key that does not occur are none */
  lemma {:induction false} RowsForAbsent<I>(a: seq<Row<I>>, k: string)
    requires !Occurs(a, k)
    ensures RowsFor(a, k) == []
  {
    if a != [] {
      RowsForAbsent(a[1..], k);
    }
  }

  /** A row of another key leaves the entry of `k` alone */
  lemma StepOtherKey<I>(a: seq<Row<I>>, r: Row<I>, g: Groups<I>, k: string)
    requires Consistent(g) && r.key != k
    requires k in g.table <==> Occurs(a, k)
    requires k in g.table ==> Summarises(g.table[k], a, k)
    ensures k in Step(g, r).table <==> Occurs(a + [r], k)
    ensures k in Step(g, r).table ==> Summarises(Step(g, r).table[k], a + [r], k)
  {
    FirstIndexAppend(a, r, k);
    RowsForAppend(a, r, k);
    assert RowsFor(a + [r], k) == RowsFor(a, k);
    if Occurs(a, k) {
      assert Step(g, r).table[k] == g.table[k];
      assert (a + [r])[FirstIndex(a, k)] == a[FirstIndex(a, k)];
    }
  }

  /** A row of a key already seen adds to its entry */
  lemma StepSeenKey<I>(a: seq<Row<I>>, r: Row<I>, g: Groups<I>)
    requires Consistent(g) && r.key in g.table && Occurs(a, r.key)
    requires Summarises(g.table[r.key], a, r.key)
    ensures Summarises(Step(g, r).table[r.key], a + [r], r.key)
  {
    var k := r.key;
    FirstIndexAppend(a, r, k);
    RowsForAppend(a, r, k);
    TotalAppend(RowsFor(a, k), r, DistanceOf);
    assert (a + [r])[FirstIndex(a, k)] == a[FirstIndex(a, k)];
  }

  /** The first row of a key creates its entry */
  lemma StepNewKey<I>(a: seq<Row<I>>, r: Row<I>, g: Groups<I>)
    requires Consistent(g) && r.key !in g.table && !Occurs(a, r.key)
    ensures Summarises(Step(g, r).table[r.key], a + [r], r.key)
  {
    var k := r.key;
    FirstIndexAppend(a, r, k);
    RowsForAppend(a, r, k);
    RowsForAbsent(a, k);
    assert RowsFor(a + [r], k) == [r];
    assert (a + [r])[|a|] == r;
  }

  // ------------------------------------------- the fold meets the reference

  /** Every key of the rows has exactly its summary in the map, and no other key is
      there */
  lemma {:induction false} FoldSummarises<I>(rows: seq<Row<I>>)
    ensures forall k :: k in Fold(rows).table <==> Occurs(rows, k)
    ensures forall k :: k in Fold(rows).table ==> Summarises(Fold(rows).table[k], rows, k)
  {
    if rows != [] {
      var a, r := rows[..|rows| - 1], rows[|rows| - 1];
      assert rows == a + [r];
      FoldSummarises(a);
      forall k
        ensures k in Fold(rows).table <==> Occurs(rows, k)
        ensures k in Fold(rows).table ==> Summarises(Fold(rows).table[k], rows, k)
      {
        if k != r.key {
          StepOtherKey(a, r, Fold(a), k);
        } else if k in Fold(a).table {
          StepSeenKey(a, r, Fold(a));
        } else {
          StepNewKey(a, r, Fold(a));
          FirstIndexAppend(a, r, k);
        }
      }
    }
  }

  /** Every listed key occurs among the rows, and the keys are listed in the order of
      their first rows */
  ghost predicate OrderedByFirst<I>(order: seq<string>, rows: seq<Row<I>>) {
    && (forall k :: k in order ==> Occurs(rows, k))
    && (forall i, j :: 0 <= i < j < |order| ==> FirstIndex(rows, order[i]) < FirstIndex(rows, order[j]))
  }

  /** Keys seen before keep their first rows when a row is appended */
  lemma FirstIndexKept<I>(a: seq<Row<I>>, r: Row<I>)
    ensures forall k :: Occurs(a, k) ==> FirstIndex(a + [r], k) == FirstIndex(a, k) < |a|
  {
    forall k | Occurs(a, k)
      ensures FirstIndex(a + [r], k) == FirstIndex(a, k) < |a|
    {
      FirstIndexAppend(a, r, k);
    }
  }

  /** A row of a listed key keeps the order */
  lemma OrderSeenKey<I>(order: seq<string>, a: seq<Row<I>>, r: Row<I>)
    requires OrderedByFirst(order, a)
    ensures OrderedByFirst(order, a + [r])
  {
    FirstIndexKept(a, r);
  }

  /** The first row of a key lists that key last */
  lemma OrderNewKey<I>(order: seq<string>, a: seq<Row<I>>, r: Row<I>)
    requires OrderedByFirst(order, a) && !Occurs(a, r.key)
    ensures OrderedByFirst(order + [r.key], a + [r])
  {
    var o := order + [r.key];
    FirstIndexKept(a, r);
    FirstIndexAppend(a, r, r.key);
    forall i, j | 0 <= i < j < |o|
      ensures FirstIndex(a + [r], o[i]) < FirstIndex(a + [r], o[j])
    {
      assert o[i] in order;
    }
  }

  /** The map lists its keys in the order of their first rows */
  lemma {:induction false} FoldOrder<I>(rows: seq<Row<I>>)
    ensures OrderedByFirst(Fold(rows).order, rows)
  {
    if rows != [] {
      var a, r := rows[..|rows| - 1], rows[|rows| - 1];
      assert rows == a + [r];
      FoldOrder(a);
      FoldSummarises(a);
      if r.key in Fold(a).table {
        OrderSeenKey(Fold(a).order, a, r);
      } else {
        OrderNewKey(Fold(a).order, a, r);
      }
    }
  }

  // ---------------------------------------------------------- conservation

  /** Changing the entry of one listed key changes the total of the entries by the
      change of that entry's total */
  lemma {:induction false} EntriesUpdate<I>(order: seq<string>, table: map<string, Tally<I>>, k: string, t: Tally<I>)
    requires forall x :: x in order ==> x in table
    requires Distinct(order) && k in order
    ensures Total(Entries(order, table[k := t]), TotalOf)
            == Total(Entries(order, table), TotalOf) - table[k].total + t.total
  {
    if order[0] == k {
      assert k !in order[1..];
      EntriesFrame(order[1..], table, k, t);
    } else {
      EntriesUpdate(order[1..], table, k, t);
    }
  }

  /** Changing the entry of an unlisted key changes no entry */
  lemma EntriesFrame<I>(order: seq<string>, table: map<string, Tally<I>>, k: string, t: Tally<I>)
    requires forall x :: x in order ==> x in table
    requires k !in order
    ensures Entries(order, table[k := t]) == Entries(order, table)
  {
  }

  /** A row of a key already seen adds its distance to the total of the entries */
  lemma StepSeenConserves<I>(g: Groups<I>, r: Row<I>)
    requires Consistent(g) && r.key in g.table
    ensures Total(Entries(Step(g, r).order, Step(g, r).table), TotalOf)
            == Total(Entries(g.order, g.table), TotalOf) + r.distance
  {
    var t := g.table[r.key];
    var u := t.(total := t.total + r.distance, races := t.races + 1);
    assert Step(g, r) == Groups(g.order, g.table[r.key := u]);
    EntriesUpdate(g.order, g.table, r.key, u);
  }

  /** Listing one more key appends its entry */
  lemma EntriesAppend<I>(order: seq<string>, table: map<string, Tally<I>>, k: string)
    requires forall x :: x in order ==> x in table
    requires k in table
    ensures Entries(order + [k], table) == Entries(order, table) + [table[k]]
  {
  }

  /** The first row of a key adds its distance to the total of the entries */
  lemma StepNewConserves<I>(g: Groups<I>, r: Row<I>)
    requires Consistent(g) && r.key !in g.table
    ensures Total(Entries(Step(g, r).order, Step(g, r).table), TotalOf)
            == Total(Entries(g.order, g.table), TotalOf) + r.distance
  {
    var t := Tally(r.key, r.info, r.distance, 1);
    var table := g.table[r.key := t];
    assert Step(g, r) == Groups(g.order + [r.key], table);
    EntriesFrame(g.order, g.table, r.key, t);
    EntriesAppend(g.order, table, r.key);
    TotalAppend(Entries(g.order, g.table), t, TotalOf);
  }

  /** The entries together hold the distance of every row */
  lemma {:induction false} FoldConserves<I>(rows: seq<Row<I>>)
    ensures Total(Entries(Fold(rows).order, Fold(rows).table), TotalOf) == Total(rows, DistanceOf)
  {
    if rows != [] {
      var a, r := rows[..|rows| - 1], rows[|rows| - 1];
      assert rows == a + [r];
      FoldConserves(a);
      if r.key in Fold(a).table {
        StepSeenConserves(Fold(a), r);
      } else {
        StepNewConserves(Fold(a), r);
      }
      TotalAppend(a, r, DistanceOf);
    }
  }

  // ----------------------------------------------------------- the board

  /** The board is in non-increasing order of the total */
  lemma BoardDescending<I>(rows: seq<Row<I>>)
    ensures Descending(Board(rows), TotalOf)
  {
    var g := Fold(rows);
    SortIsDescending(Entries(g.order, g.table), TotalOf);
  }

  /** The `i`-th entry in insertion order summarises the rows of its key */
  lemma EntrySummarises<I>(rows: seq<Row<I>>, i: nat)
    requires i < |Fold(rows).order|
    ensures var e := Entries(Fold(rows).order, Fold(rows).table);
            Summarises(e[i], rows, e[i].key)
  {
    var g := Fold(rows);
    var k := g.order[i];
    FoldSummarises(rows);
    assert k in g.table;
    assert Entries(g.order, g.table)[i] == g.table[k] && g.table[k].key == k;
  }

  /** Every entry of the map summarises the rows of its key */
  lemma EntriesSummarise<I>(rows: seq<Row<I>>)
    ensures forall t :: t in Entries(Fold(rows).order, Fold(rows).table) ==> Summarises(t, rows, t.key)
  {
    var g := Fold(rows);
    var e := Entries(g.order, g.table);
    forall t | t in e
      ensures Summarises(t, rows, t.key)
    {
      var i :| 0 <= i < |e| && e[i] == t;
      EntrySummarises(rows, i);
    }
  }

  /** Every entry of the board summarises the rows of its key */
  lemma BoardSummarises<I>(rows: seq<Row<I>>)
    ensures forall i :: 0 <= i < |Board(rows)| ==> Summarises(Board(rows)[i], rows, Board(rows)[i].key)
  {
    var g := Fold(rows);
    var e := Entries(g.order, g.table);
    var b := Board(rows);
    SortPermutes(e, TotalOf);
    EntriesSummarise(rows);
    forall i | 0 <= i < |b|
      ensures Summarises(b[i], rows, b[i].key)
    {
      assert b[i] in multiset(b);
      assert b[i] in e;
    }
  }

  /** A list without repetitions holds each of its elements once */
  lemma {:induction false} DistinctOnce<T>(s: seq<T>, x: T)
    requires Distinct(s)
    ensures multiset(s)[x] == if x in s then 1 else 0
  {
    if s != [] {
      assert Distinct(s[1..]);
      DistinctOnce(s[1..], x);
      assert s == [s[0]] + s[1..];
    }
  }

  /** The board has exactly one entry for each key among the rows and none for any
      other key */
  lemma BoardOnePerKey<I>(rows: seq<Row<I>>, k: string)
    ensures multiset(Image(Board(rows), KeyOf))[k] == if Occurs(rows, k) then 1 else 0
  {
    var g := Fold(rows);
    var e := Entries(g.order, g.table);
    SortImage(e, TotalOf, KeyOf);
    EntryKeys(g);
    OrderCount(rows, k);
  }

  /** Listing the entries by their keys gives back the order */
  lemma EntryKeys<I>(g: Groups<I>)
    requires Consistent(g)
    ensures Image(Entries(g.order, g.table), KeyOf) == g.order
  {
    var e := Entries(g.order, g.table);
    forall i | 0 <= i < |g.order|
      ensures Image(e, KeyOf)[i] == g.order[i]
    {
      assert e[i] == g.table[g.order[i]];
    }
  }

  /** The order holds each key of the rows once and no other key */
  lemma OrderCount<I>(rows: seq<Row<I>>, k: string)
    ensures multiset(Fold(rows).order)[k] == if Occurs(rows, k) then 1 else 0
  {
    var g := Fold(rows);
    DistinctOnce(g.order, k);
    FoldSummarises(rows);
    assert k in g.order <==> k in g.table;
  }

  /** The totals of the board add up to the distances of all the rows */
  lemma BoardConserves<I>(rows: seq<Row<I>>)
    ensures Total(Board(rows), TotalOf) == Total(rows, DistanceOf)
  {
    var g := Fold(rows);
    SortKeepsTotal(Entries(g.order, g.table), TotalOf);
    FoldConserves(rows);
  }

  /** The entries are ranked by the first row of their key */
  lemma EntriesRanked<I>(rows: seq<Row<I>>, rank: Tally<I> -> int)
    requires forall t :: rank(t) == FirstIndex(rows, t.key)
    ensures TiesRanked(Entries(Fold(rows).order, Fold(rows).table), TotalOf, rank)
  {
    var g := Fold(rows);
    var e := Entries(g.order, g.table);
    FoldOrder(rows);
    forall i, j | 0 <= i < j < |e| && TotalOf(e[i]) == TotalOf(e[j])
      ensures rank(e[i]) < rank(e[j])
    {
      assert e[i].key == g.order[i] && e[j].key == g.order[j];
    }
  }

  /** Entries with equal totals keep the order in which their keys first appeared */
  lemma BoardTiesKeepFirstAppearance<I>(rows: seq<Row<I>>)
    ensures forall i, j :: 0 <= i < j < |Board(rows)| && Board(rows)[i].total == Board(rows)[j].total ==>
              FirstIndex(rows, Board(rows)[i].key) < FirstIndex(rows, Board(rows)[j].key)
  {
    var g := Fold(rows);
    var e := Entries(g.order, g.table);
    var rank := (t: Tally<I>) => FirstIndex(rows, t.key);
    EntriesRanked(rows, rank);
    SortTiesRanked(e, TotalOf, rank);
  }
}

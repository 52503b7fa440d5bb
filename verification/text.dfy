/** Strings as JavaScript sees them: character classes of its regular
    expressions, `trim`, `split`, `padStart`, `toLowerCase`, `replace`. */
module Text {

  /** `\d`: an ASCII decimal digit */
  predicate IsDigit(c: char) {
    '0' <= c <= '9'
  }

  /** A line terminator: what `.` refuses to match */
  predicate IsLineTerminator(c: char) {
    c == '\n' || c == '\r' || c == '\U{2028}' || c == '\U{2029}'
  }

  /** White space or line terminator: what `\s` matches and what `trim` removes */
  predicate IsSpace(c: char) {
    || c == '\t' || c == '\n' || c == '\U{000B}' || c == '\U{000C}' || c == '\r' || c == ' '
    || c == '\U{00A0}' || c == '\U{1680}' || ('\U{2000}' <= c <= '\U{200A}')
    || c == '\U{2028}' || c == '\U{2029}' || c == '\U{202F}' || c == '\U{205F}'
    || c == '\U{3000}' || c == '\U{FEFF}'
  }

  predicate IsNonSpace(c: char) {
    !IsSpace(c)
  }

  /** `\w`, which also decides where a `\b` boundary lies */
  predicate IsWordChar(c: char) {
    'a' <= c <= 'z' || 'A' <= c <= 'Z' || IsDigit(c) || c == '_'
  }

  predicate AllDigits(s: string) {
    forall i :: 0 <= i < |s| ==> IsDigit(s[i])
  }

  /** Digits are never white space */
  lemma DigitsAreNotSpace(s: string)
    requires AllDigits(s)
    ensures forall i :: 0 <= i < |s| ==> !IsSpace(s[i])
  {
  }

  /** `\b` at position `j` of `s`: a word character on exactly one side */
  predicate Boundary(s: string, j: nat)
    requires j <= |s|
  {
    (j > 0 && IsWordChar(s[j - 1])) != (j < |s| && IsWordChar(s[j]))
  }

  /** Length of the longest run of characters satisfying `p` that starts at `i` */
  function RunAt(s: string, i: nat, p: char -> bool): (n: nat)
    requires i <= |s|
    ensures i + n <= |s|
    ensures forall k :: i <= k < i + n ==> p(s[k])
    ensures i + n == |s| || !p(s[i + n])
    decreases |s| - i
  {
    if i == |s| || !p(s[i]) then 0 else 1 + RunAt(s, i + 1, p)
  }

  /** A run is determined by where it stops */
  lemma RunAtUnique(s: string, i: nat, p: char -> bool, n: nat)
    requires i + n <= |s|
    requires forall k :: i <= k < i + n ==> p(s[k])
    requires i + n == |s| || !p(s[i + n])
    ensures RunAt(s, i, p) == n
  {
  }

  /** Length of the longest run of characters satisfying `p` at the end of `s` */
  function TrailingRun(s: string, p: char -> bool): (n: nat)
    ensures n <= |s|
    ensures forall k :: |s| - n <= k < |s| ==> p(s[k])
    ensures n == |s| || !p(s[|s| - n - 1])
  {
    if s == [] || !p(s[|s| - 1]) then 0 else 1 + TrailingRun(s[..|s| - 1], p)
  }

  lemma TrailingRunUnique(s: string, p: char -> bool, n: nat)
    requires n <= |s|
    requires forall k :: |s| - n <= k < |s| ==> p(s[k])
    requires n == |s| || !p(s[|s| - n - 1])
    ensures TrailingRun(s, p) == n
  {
  }

  /** No white space at either end: what `trim` returns */
  predicate Trimmed(s: string) {
    s == [] || (!IsSpace(s[0]) && !IsSpace(s[|s| - 1]))
  }

  /** `trimStart` */
  function TrimStart(s: string): (r: string)
    ensures |r| <= |s| && r == s[|s| - |r|..]
    ensures forall i :: 0 <= i < |s| - |r| ==> IsSpace(s[i])
    ensures r == [] || !IsSpace(r[0])
  {
    s[RunAt(s, 0, IsSpace)..]
  }

  /** `trimEnd` */
  function TrimEnd(s: string): (r: string)
    ensures |r| <= |s| && r == s[..|r|]
    ensures forall i :: |r| <= i < |s| ==> IsSpace(s[i])
    ensures r == [] || !IsSpace(r[|r| - 1])
  {
    s[..|s| - TrailingRun(s, IsSpace)]
  }

  /** `trim`: `s` without its leading and trailing white space */
  function Trim(s: string): (r: string)
    ensures |r| <= |s|
    ensures Trimmed(r)
    ensures var a := RunAt(s, 0, IsSpace);
              a + |r| <= |s| && r == s[a..a + |r|]
              && forall i :: a + |r| <= i < |s| ==> IsSpace(s[i])
    ensures r == [] <==> forall i :: 0 <= i < |s| ==> IsSpace(s[i])
  {
    TrimEnd(TrimStart(s))
  }

  /** `Trim` keeps exactly the part between all-space margins */
  lemma TrimOf(s: string, a: nat, b: nat)
    requires a <= b <= |s|
    requires forall i :: 0 <= i < a ==> IsSpace(s[i])
    requires forall i :: b <= i < |s| ==> IsSpace(s[i])
    requires a == b || (!IsSpace(s[a]) && !IsSpace(s[b - 1]))
    ensures Trim(s) == s[a..b]
  {
    if a == b {
      assert forall i :: 0 <= i < |s| ==> IsSpace(s[i]) by {
        forall i | 0 <= i < |s| ensures IsSpace(s[i]) {
          if i >= a { assert i >= b; }
        }
      }
    } else {
      RunAtUnique(s, 0, IsSpace, a);
      var t := s[a..];
      assert TrimStart(s) == t;
      TrailingRunUnique(t, IsSpace, |s| - b);
    }
  }

  /** A string without surrounding white space is its own trim */
  lemma TrimFixed(s: string)
    requires Trimmed(s)
    ensures Trim(s) == s
  {
    TrimOf(s, 0, |s|);
  }

  /** `trim` changes exactly the strings with white space at an end */
  lemma TrimmedIsFixed(s: string)
    ensures Trimmed(s) <==> Trim(s) == s
  {
    if Trimmed(s) {
      TrimFixed(s);
    }
  }

  lemma TrimIdempotent(s: string)
    ensures Trim(Trim(s)) == Trim(s)
  {
    TrimFixed(Trim(s));
  }

  /** `str.padStart(width, fill)` with a one-character fill */
  function PadStart(s: string, width: nat, fill: char): (r: string)
    ensures |r| == if |s| >= width then |s| else width
    ensures r[|r| - |s|..] == s
    ensures forall i :: 0 <= i < |r| - |s| ==> r[i] == fill
  {
    if |s| >= width then s else seq(width - |s|, _ => fill) + s
  }

  /** The first `n` characters, `slice(0, n)` */
  function Take(s: string, n: nat): (r: string)
    ensures |r| == if |s| < n then |s| else n
    ensures r <= s
  {
    if |s| < n then s else s[..n]
  }

  /** Position of the first `c` in `s`, or `|s|` when there is none */
  function IndexOf(s: string, c: char): (n: nat)
    ensures n <= |s|
    ensures c !in s[..n]
    ensures n < |s| ==> s[n] == c
    ensures n == |s| <==> c !in s
  {
    var n := RunAt(s, 0, x => x != c);
    assert forall k :: 0 <= k < n ==> s[k] != c;
    n
  }

  /** The first `c` is at `n` when none comes before it and `n` holds one or is the end */
  lemma IndexOfAt(s: string, c: char, n: nat)
    requires n <= |s| && c !in s[..n]
    requires n == |s| || s[n] == c
    ensures IndexOf(s, c) == n
  {
    var m := IndexOf(s, c);
    forall k | 0 <= k < n
      ensures s[k] != c
    {
      assert s[..n][k] == s[k];
    }
    forall k | 0 <= k < m
      ensures s[k] != c
    {
      assert s[..m][k] == s[k];
    }
  }

  /** `str.replace(c, "")` with a one-character string pattern: only the first `c` goes */
  function RemoveFirst(s: string, c: char): (r: string)
    ensures c !in s ==> r == s
    ensures c in s ==> |r| == |s| - 1 && s == r[..IndexOf(s, c)] + [c] + r[IndexOf(s, c)..]
    ensures c in s ==> c !in r[..IndexOf(s, c)]
  {
    var n := IndexOf(s, c);
    if n == |s| then s else s[..n] + s[n + 1..]
  }

  /** Concatenation with `sep` between consecutive parts: `parts.join(sep)` */
  function Join(parts: seq<string>, sep: char): string {
    if |parts| == 0 then ""
    else if |parts| == 1 then parts[0]
    else parts[0] + [sep] + Join(parts[1..], sep)
  }

  lemma Join2(a: string, b: string, sep: char)
    ensures Join([a, b], sep) == a + [sep] + b
  {
    assert [a, b][1..] == [b];
  }

  lemma Join3(a: string, b: string, c: string, sep: char)
    ensures Join([a, b, c], sep) == a + [sep] + b + [sep] + c
  {
    assert [a, b, c][1..] == [b, c];
    Join2(b, c, sep);
  }

  /** `replace(c, d)` with a one-character string pattern: the first `c` becomes `d` */
  function ReplaceFirst(s: string, c: char, d: char): (r: string)
    ensures |r| == |s|
    ensures c !in s ==> r == s
    ensures c in s ==> r == s[..IndexOf(s, c)] + [d] + s[IndexOf(s, c) + 1..]
  {
    var n := IndexOf(s, c);
    if n == |s| then s else s[..n] + [d] + s[n + 1..]
  }

  /** `str.split(sep)` with a one-character string separator */
  function Split(s: string, sep: char): (parts: seq<string>)
    ensures |parts| >= 1
    ensures forall k :: 0 <= k < |parts| ==> sep !in parts[k]
    ensures Join(parts, sep) == s
    decreases |s|
  {
    var n := IndexOf(s, sep);
    if n == |s| then [s]
    else
      var rest := Split(s[n + 1..], sep);
      assert s == s[..n] + [sep] + s[n + 1..];
      assert ([s[..n]] + rest)[1..] == rest;
      [s[..n]] + rest
  }

  /** The first piece is everything before the first separator */
  lemma SplitHead(s: string, sep: char)
    ensures Split(s, sep)[0] == s[..IndexOf(s, sep)]
  {
  }

  /** A piece before the first separator is split off intact */
  lemma SplitCons(a: string, sep: char, b: string)
    requires sep !in a
    ensures Split(a + [sep] + b, sep) == [a] + Split(b, sep)
  {
    var s := a + [sep] + b;
    assert s[..|a|] == a && s[|a| + 1..] == b;
    IndexOfAt(s, sep, |a|);
  }

  lemma SplitNone(a: string, sep: char)
    requires sep !in a
    ensures Split(a, sep) == [a]
  {
  }

  /** Splitting undoes joining when no part holds the separator */
  lemma {:induction false} SplitJoin(parts: seq<string>, sep: char)
    requires |parts| >= 1
    requires forall k :: 0 <= k < |parts| ==> sep !in parts[k]
    ensures Split(Join(parts, sep), sep) == parts
    decreases |parts|
  {
    if |parts| == 1 {
      SplitNone(parts[0], sep);
    } else {
      var tail := parts[1..];
      forall k | 0 <= k < |tail|
        ensures sep !in tail[k]
      {
        assert tail[k] == parts[k + 1];
      }
      SplitJoin(tail, sep);
      SplitCons(parts[0], sep, Join(tail, sep));
      assert parts == [parts[0]] + tail;
    }
  }

  lemma SplitPair(a: string, b: string, sep: char)
    requires sep !in a && sep !in b
    ensures Split(a + [sep] + b, sep) == [a, b]
  {
    Join2(a, b, sep);
    SplitJoin([a, b], sep);
  }

  lemma SplitTriple(a: string, b: string, c: string, sep: char)
    requires sep !in a && sep !in b && sep !in c
    ensures Split(a + [sep] + b + [sep] + c, sep) == [a, b, c]
  {
    Join3(a, b, c, sep);
    SplitJoin([a, b, c], sep);
  }

  /** `str.split(/\s+/)`: the pieces between maximal runs of white space */
  function SplitSpaces(s: string): (parts: seq<string>)
    ensures |parts| >= 1
    ensures forall k, i :: 0 <= k < |parts| && 0 <= i < |parts[k]| ==> !IsSpace(parts[k][i])
    decreases |s|
  {
    var n := RunAt(s, 0, IsNonSpace);
    if n == |s| then [s]
    else
      var m := RunAt(s, n, IsSpace);
      [s[..n]] + SplitSpaces(s[n + m..])
  }

  /** A word followed by white space is split off intact */
  lemma SplitSpacesCons(w: string, gap: string, rest: string)
    requires forall i :: 0 <= i < |w| ==> !IsSpace(w[i])
    requires |gap| >= 1 && forall i :: 0 <= i < |gap| ==> IsSpace(gap[i])
    requires rest == [] || !IsSpace(rest[0])
    ensures SplitSpaces(w + gap + rest) == [w] + SplitSpaces(rest)
  {
    var s := w + gap + rest;
    RunAtUnique(s, 0, IsNonSpace, |w|);
    RunAtUnique(s, |w|, IsSpace, |gap|);
    assert s[..|w|] == w && s[|w| + |gap|..] == rest;
  }

  lemma SplitSpacesWord(w: string)
    requires forall i :: 0 <= i < |w| ==> !IsSpace(w[i])
    ensures SplitSpaces(w) == [w]
  {
    RunAtUnique(w, 0, IsNonSpace, |w|);
  }

  /** The lower-case form of one character as `toLowerCase` produces it: ASCII and
      Latin-1 letters, KELVIN SIGN and LATIN CAPITAL LETTER I WITH DOT ABOVE */
  function LowerChar(c: char): (r: string)
    ensures |r| >= 1
    ensures c < 128 as char ==> |r| == 1
  {
    if 'A' <= c <= 'Z' || ('\U{00C0}' <= c <= '\U{00DE}' && c != '\U{00D7}') then [(c as int + 32) as char]
    else if c == '\U{212A}' then "k"
    else if c == '\U{0130}' then "i\U{0307}"
    else [c]
  }

  /** `toLowerCase` */
  function ToLower(s: string): (r: string)
    ensures |r| >= |s|
  {
    if s == [] then [] else LowerChar(s[0]) + ToLower(s[1..])
  }

  /** ASCII case folding, which is all a `/i` regular expression without the `u` flag
      does for an ASCII letter in its pattern */
  function AsciiLower(c: char): (r: char)
    ensures 'a' <= r <= 'z' <==> ('a' <= c <= 'z' || 'A' <= c <= 'Z')
  {
    if 'A' <= c <= 'Z' then (c as int + 32) as char else c
  }

  /** On ASCII letters `toLowerCase` and ASCII case folding agree */
  lemma LowerAsciiLetter(c: char)
    requires 'A' <= c <= 'Z' || 'a' <= c <= 'z'
    ensures LowerChar(c) == [AsciiLower(c)]
  {
  }

  /** The lower-case ASCII word `w` occurs, ignoring case, at position `i` of `s` */
  predicate CiAt(s: string, i: nat, w: string)
  {
    i + |w| <= |s| && forall k :: 0 <= k < |w| ==> AsciiLower(s[i + k]) == w[k]
  }
}

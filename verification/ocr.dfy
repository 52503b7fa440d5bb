/** Reading a distance, a finishing time and a race name out of the text that
    character recognition found on a result screenshot. Regular expressions are
    written out as "the pattern matches at position i" plus a leftmost search. */
module Ocr {
  import opened Wrappers
  import opened Text
  import opened Numerals
  import Formatting

  // ------------------------------------------------------------ distances

  /** The unit after a number: `\s*km`, or `\s*k` followed by a word boundary */
  datatype Unit = Km | K

  /** The unit, ignoring case, after optional white space at `j` */
  predicate UnitAt(s: string, j: nat, unit: Unit)
    requires j <= |s|
  {
    var u := j + RunAt(s, j, IsSpace);
    match unit
    case Km => CiAt(s, u, "km")
    case K => CiAt(s, u, "k") && Boundary(s, u + 1)
  }

  /** Where `\d+[.,]\d+` (when `decimal`) or `\d+` ends when it starts at `i`.
      Greedy digit runs need no backtracking here: giving a digit back leaves a digit
      where a separator, a space or the unit would have to be. */
  function NumeralEnd(s: string, i: nat, decimal: bool): (e: Option<nat>)
    requires i <= |s|
    ensures e.Some? ==> i < e.value <= |s|
  {
    var a := RunAt(s, i, IsDigit);
    if a == 0 then None
    else if !decimal then Some(i + a)
    else if i + a < |s| && (s[i + a] == '.' || s[i + a] == ',') then
      var b := RunAt(s, i + a + 1, IsDigit);
      if b > 0 then Some(i + a + 1 + b) else None
    else None
  }

  /** The captured number of a number pattern matched at `i` */
  function NumeralAt(s: string, i: nat, decimal: bool, unit: Unit): (g: Option<string>)
    requires i <= |s|
    ensures g.Some? ==> g.value != [] && IsDigit(g.value[0])
  {
    var e := NumeralEnd(s, i, decimal);
    if e.Some? && UnitAt(s, e.value, unit) then Some(s[i..e.value]) else None
  }

  /** `\b(\d+)k\b` at `i` */
  predicate BareKAt(s: string, i: nat)
    requires i <= |s|
  {
    var a := RunAt(s, i, IsDigit);
    Boundary(s, i) && a > 0 && i + a < |s| && s[i + a] == 'k' && Boundary(s, i + a + 1)
  }

  /** `parseFloat` of the captured number after its first comma became a period */
  function NumberValue(g: string): Option<Float> {
    ParseFloat(ReplaceFirst(g, ',', '.'))
  }

  /** `value > 0 && value <= 200`; NaN and the infinities fail it */
  predicate InRange(v: Option<Float>) {
    v.Some? && v.value.Finite? && 0.0 < v.value.value <= 200.0
  }

  /** The four number patterns in the order they are tried */
  const NumberPatterns: seq<Pattern> := [Number(true, Km), Number(false, Km), Number(true, K), Number(false, K)]

  /** The first pattern whose leftmost match reads as a plausible distance gives it;
      a pattern whose leftmost match is out of range is given up, not searched further */
  function FirstNumber(text: string, patterns: seq<Pattern>): (r: Option<real>)
    requires forall k :: 0 <= k < |patterns| ==> patterns[k].Number?
    ensures r.Some? ==> 0.0 < r.value <= 200.0
  {
    if patterns == [] then None
    else
      var p := patterns[0];
      var k := Leftmost(p, text, 0);
      var v := if k < |text| then NumberValue(NumeralAt(text, k, p.decimal, p.unit).value) else None;
      if InRange(v) then Some(v.value.value) else FirstNumber(text, patterns[1..])
  }

  /** The fallback: the leftmost `5k`-style number of the lower-cased text, kept only
      when it lies in (0, 200] */
  function BareKilometres(lower: string): (r: Option<real>)
    ensures r.Some? ==> 0.0 < r.value <= 200.0
  {
    var k := Leftmost(BareK, lower, 0);
    if k < |lower| then
      var v := DigitsValue(lower[k..k + RunAt(lower, k, IsDigit)]);
      if 0 < v <= 200 then Some(v as real) else None
    else None
  }

  /** `parseDistance`: a marathon, a half marathon, else the first plausible number
      before a kilometre unit, else a bare `5k`; every distance it returns lies in
      (0, 200] */
  function ParseDistance(text: string): (r: Option<real>)
    ensures r.Some? ==> 0.0 < r.value <= 200.0
  {
    if Found(MarathonWord, text) && !Found(Half, text) then Some(42.195)
    else if Found(HalfMarathon, text) then Some(21.1)
    else
      var n := FirstNumber(text, NumberPatterns);
      if n.Some? then n else BareKilometres(ToLower(text))
  }

  /** A whole-number capture reads as its digits' value */
  lemma IntegerCaptureValue(g: string)
    requires g != [] && AllDigits(g)
    ensures NumberValue(g) == Some(Finite(DigitsValue(g) as real))
  {
    assert ',' !in g;
    ParseFloatOfDigitString(g);
  }

  /** A decimal capture reads as the decimal numeral, with a comma as well as with a
      period between the parts */
  lemma DecimalCaptureValue(whole: string, sep: char, frac: string)
    requires whole != [] && AllDigits(whole) && frac != [] && AllDigits(frac)
    requires sep == '.' || sep == ','
    ensures NumberValue(whole + [sep] + frac) == Some(Finite(DecimalValue(whole, frac)))
  {
    var g := whole + [sep] + frac;
    assert ',' !in whole;
    if sep == ',' {
      assert g[..|whole|] == whole;
      IndexOfAt(g, ',', |whole|);
      assert ReplaceFirst(g, ',', '.') == whole + "." + frac;
    } else {
      assert ',' !in frac;
      assert ',' !in g;
      assert g == whole + "." + frac;
    }
    ParseFloatOfDecimal(whole, frac);
  }

  /** A word on its own "marathon", without "half" anywhere, is a full marathon */
  lemma MarathonWins(text: string, i: nat)
    requires MatchesAt(MarathonWord, text, i)
    requires forall j :: 0 <= j < |text| ==> !MatchesAt(Half, text, j)
    ensures ParseDistance(text) == Some(42.195)
  {
    assert Leftmost(MarathonWord, text, 0) <= i;
  }

  /** "half", optional white space and "marathon" is a half marathon, whatever
      else the text says */
  lemma HalfMarathonWins(text: string, i: nat)
    requires MatchesAt(HalfMarathon, text, i)
    ensures ParseDistance(text) == Some(21.1)
  {
    assert MatchesAt(Half, text, i);
    assert Leftmost(Half, text, 0) <= i;
    assert Leftmost(HalfMarathon, text, 0) <= i;
  }

  /** A word that needs a letter the text lacks, in either case, is nowhere */
  lemma WordNeedsLetter(s: string, w: string, k: nat, i: nat)
    requires k < |w| && forall j :: 0 <= j < |s| ==> AsciiLower(s[j]) != w[k]
    ensures !CiAt(s, i, w)
  {
    if i + |w| <= |s| {
      assert AsciiLower(s[i + k]) != w[k];
    }
  }

  /** The characters of `N km` */
  lemma KmTextChars(n: nat)
    ensures var d := NatToString(n);
            var text := d + " km";
            && |text| == |d| + 3
            && (forall j :: 0 <= j < |d| ==> text[j] == d[j] && IsDigit(text[j]))
            && text[|d|] == ' ' && text[|d| + 1] == 'k' && text[|d| + 2] == 'm'
  {
  }

  /** `N km` mentions neither a marathon nor a half */
  lemma KmTextNoWords(n: nat)
    ensures !Found(MarathonWord, NatToString(n) + " km")
    ensures !Found(Half, NatToString(n) + " km")
    ensures !Found(HalfMarathon, NatToString(n) + " km")
  {
    var text := NatToString(n) + " km";
    KmTextChars(n);
    assert forall j :: 0 <= j < |text| ==> AsciiLower(text[j]) != 'a' && AsciiLower(text[j]) != 'h';
    forall i | 0 <= i < |text|
      ensures !MatchesAt(MarathonWord, text, i) && !MatchesAt(Half, text, i) && !MatchesAt(HalfMarathon, text, i)
    {
      WordNeedsLetter(text, "marathon", 1, i);
      WordNeedsLetter(text, "half", 0, i);
    }
  }

  /** In `N km` no digit run is followed by a decimal separator */
  lemma KmTextNoDecimal(n: nat)
    ensures Leftmost(Number(true, Km), NatToString(n) + " km", 0) == |NatToString(n) + " km"|
  {
    var text := NatToString(n) + " km";
    forall i | 0 <= i < |text|
      ensures !MatchesAt(Number(true, Km), text, i)
    {
      KmTextNoDecimalAt(n, i);
    }
    NowhereLeftmost(Number(true, Km), text);
  }

  /** The decimal numeral does not start at any one position of `N km` */
  lemma KmTextNoDecimalAt(n: nat, i: nat)
    requires i < |NatToString(n) + " km"|
    ensures NumeralEnd(NatToString(n) + " km", i, true).None?
  {
    var d := NatToString(n);
    var text := d + " km";
    KmTextChars(n);
    if i < |d| {
      RunAtUnique(text, i, IsDigit, |d| - i);
    } else {
      RunAtUnique(text, i, IsDigit, 0);
    }
  }

  /** A pattern that matches nowhere has no leftmost match */
  lemma NowhereLeftmost(p: Pattern, s: string)
    requires forall j :: 0 <= j < |s| ==> !MatchesAt(p, s, j)
    ensures Leftmost(p, s, 0) == |s|
  {
  }

  /** In `N km` the digits of N run up to the space and the unit follows it */
  lemma KmTextUnit(n: nat)
    ensures NumeralEnd(NatToString(n) + " km", 0, false) == Some(|NatToString(n)|)
    ensures UnitAt(NatToString(n) + " km", |NatToString(n)|, Km)
  {
    var d := NatToString(n);
    var text := d + " km";
    KmTextChars(n);
    RunAtUnique(text, 0, IsDigit, |d|);
    RunAtUnique(text, |d|, IsSpace, 1);
    assert CiAt(text, |d| + 1, "km");
  }

  /** In `N km` the whole-number kilometre pattern matches at the start and
      captures `N` */
  lemma KmTextInteger(n: nat)
    ensures Leftmost(Number(false, Km), NatToString(n) + " km", 0) == 0
    ensures NumeralAt(NatToString(n) + " km", 0, false, Km) == Some(NatToString(n))
  {
    var d := NatToString(n);
    var text := d + " km";
    KmTextUnit(n);
    assert text[0..|d|] == d;
    assert MatchesAt(Number(false, Km), text, 0);
  }

  /** The number patterns of `N km`: the decimal one finds nothing, the whole-number
      one reads N */
  lemma KmTextFirstNumber(n: nat)
    requires 0 < n <= 200
    ensures FirstNumber(NatToString(n) + " km", NumberPatterns) == Some(n as real)
  {
    KmTextNoDecimal(n);
    FirstNumberSkips(NatToString(n) + " km", NumberPatterns);
    KmTextWholeNumber(n, NumberPatterns[1..]);
  }

  /** The whole-number kilometre pattern reads N out of `N km` */
  lemma KmTextWholeNumber(n: nat, patterns: seq<Pattern>)
    requires 0 < n <= 200
    requires forall k :: 0 <= k < |patterns| ==> patterns[k].Number?
    requires patterns != [] && patterns[0] == Number(false, Km)
    ensures FirstNumber(NatToString(n) + " km", patterns) == Some(n as real)
  {
    KmTextInteger(n);
    IntegerCaptureValue(NatToString(n));
    NatToStringRoundTrip(n);
    FirstNumberTakes(NatToString(n) + " km", patterns, n as real);
  }

  /** A pattern that finds nothing hands over to the next one */
  lemma FirstNumberSkips(text: string, patterns: seq<Pattern>)
    requires forall k :: 0 <= k < |patterns| ==> patterns[k].Number?
    requires patterns != [] && Leftmost(patterns[0], text, 0) == |text|
    ensures FirstNumber(text, patterns) == FirstNumber(text, patterns[1..])
  {
  }

  /** A pattern whose leftmost match reads as no plausible distance hands over to the
      next one, without looking for a later match of its own */
  lemma FirstNumberPassesOn(text: string, patterns: seq<Pattern>)
    requires forall k :: 0 <= k < |patterns| ==> patterns[k].Number?
    requires patterns != [] && Leftmost(patterns[0], text, 0) < |text|
    requires var p, k := patterns[0], Leftmost(patterns[0], text, 0);
             !InRange(NumberValue(NumeralAt(text, k, p.decimal, p.unit).value))
    ensures FirstNumber(text, patterns) == FirstNumber(text, patterns[1..])
  {
  }

  /** A pattern whose leftmost match reads as a plausible distance gives it */
  lemma FirstNumberTakes(text: string, patterns: seq<Pattern>, v: real)
    requires forall k :: 0 <= k < |patterns| ==> patterns[k].Number?
    requires patterns != [] && Leftmost(patterns[0], text, 0) < |text|
    requires 0.0 < v <= 200.0
    requires var p, k := patterns[0], Leftmost(patterns[0], text, 0);
             NumberValue(NumeralAt(text, k, p.decimal, p.unit).value) == Some(Finite(v))
    ensures FirstNumber(text, patterns) == Some(v)
  {
  }

  /** `N km` reads as N kilometres when N lies in (0, 200] */
  lemma KilometresRead(n: nat)
    requires 0 < n <= 200
    ensures ParseDistance(NatToString(n) + " km") == Some(n as real)
  {
    KmTextNoWords(n);
    KmTextFirstNumber(n);
  }

  // ---------------------------------------------------------------- times

  /** Two ASCII digits at `j` */
  predicate TwoDigitsAt(s: string, j: nat) {
    j + 2 <= |s| && IsDigit(s[j]) && IsDigit(s[j + 1])
  }

  /** How many digits `\d{1,2}` takes at `i` when a `:` must follow: two when two
      digits and a colon are there, else one when one digit and a colon are, else
      0 for no match */
  function HourDigits(s: string, i: nat): (h: nat)
    ensures h <= 2
    ensures h > 0 ==> i + h < |s| && AllDigits(s[i..i + h]) && s[i + h] == ':'
    ensures h == 0 ==> !(i + 1 < |s| && IsDigit(s[i]) && s[i + 1] == ':')
    ensures (i + 2 < |s| && IsDigit(s[i]) && IsDigit(s[i + 1]) && s[i + 2] == ':') ==> h == 2
    ensures h == 1 <==> !(i + 2 < |s| && IsDigit(s[i]) && IsDigit(s[i + 1]) && s[i + 2] == ':')
                        && i + 1 < |s| && IsDigit(s[i]) && s[i + 1] == ':'
  {
    if i + 2 < |s| && IsDigit(s[i]) && IsDigit(s[i + 1]) && s[i + 2] == ':' then 2
    else if i + 1 < |s| && IsDigit(s[i]) && s[i + 1] == ':' then 1
    else 0
  }

  /** `n` hour digits at `i` (one or two), then `:`, two digits, `:` and two digits:
      the text `(\d{1,2}):(\d{2}):(\d{2})` can match at `i` with an `n`-digit hour */
  predicate HmsShapeAt(s: string, i: nat, n: nat) {
    && (n == 1 || n == 2) && i + n + 6 <= |s|
    && IsDigit(s[i]) && IsDigit(s[i + n - 1]) && s[i + n] == ':'
    && IsDigit(s[i + n + 1]) && IsDigit(s[i + n + 2]) && s[i + n + 3] == ':'
    && IsDigit(s[i + n + 4]) && IsDigit(s[i + n + 5])
  }

  /** `n` minute digits at `i` (one or two), then `:`, two digits and a word
      boundary: the text `(\d{1,2}):(\d{2})\b` can match at `i` with `n` minute digits */
  predicate MsShapeAt(s: string, i: nat, n: nat) {
    && (n == 1 || n == 2) && i + n + 3 <= |s|
    && IsDigit(s[i]) && IsDigit(s[i + n - 1]) && s[i + n] == ':'
    && IsDigit(s[i + n + 1]) && IsDigit(s[i + n + 2]) && Boundary(s, i + n + 3)
  }

  /** The three groups of `(\d{1,2}):(\d{2}):(\d{2})` matched at `i` */
  function HmsAt(s: string, i: nat): (m: Option<(string, string, string)>)
    ensures m.Some? ==> 1 <= |m.value.0| <= 2 && AllDigits(m.value.0)
                        && |m.value.1| == 2 && AllDigits(m.value.1)
                        && |m.value.2| == 2 && AllDigits(m.value.2)
    ensures m.Some? ==> i + |m.value.0| + 6 <= |s|
    ensures m.Some? <==> HmsShapeAt(s, i, 1) || HmsShapeAt(s, i, 2)
    ensures m.Some? ==> var n := |m.value.0|;
                        && HmsShapeAt(s, i, n)
                        && m.value.0 == s[i..i + n]
                        && m.value.1 == s[i + n + 1..i + n + 3]
                        && m.value.2 == s[i + n + 4..i + n + 6]
  {
    var h := HourDigits(s, i);
    var j := i + h + 1;
    if h > 0 && TwoDigitsAt(s, j) && j + 2 < |s| && s[j + 2] == ':' && TwoDigitsAt(s, j + 3) then
      Some((s[i..i + h], s[j..j + 2], s[j + 3..j + 5]))
    else None
  }

  /** The two groups of `(\d{1,2}):(\d{2})\b` matched at `i` */
  function MsAt(s: string, i: nat): (m: Option<(string, string)>)
    ensures m.Some? ==> 1 <= |m.value.0| <= 2 && AllDigits(m.value.0)
                        && |m.value.1| == 2 && AllDigits(m.value.1)
    ensures m.Some? <==> MsShapeAt(s, i, 1) || MsShapeAt(s, i, 2)
    ensures m.Some? ==> var n := |m.value.0|;
                        && MsShapeAt(s, i, n)
                        && m.value.0 == s[i..i + n]
                        && m.value.1 == s[i + n + 1..i + n + 3]
  {
    var h := HourDigits(s, i);
    var j := i + h + 1;
    if h > 0 && TwoDigitsAt(s, j) && Boundary(s, j + 2) then Some((s[i..i + h], s[j..j + 2]))
    else None
  }

  /** The regular expressions the parsers try */
  datatype Pattern =
    | MarathonWord            // /\bmarathon\b/i
    | Half                    // /half/i
    | HalfMarathon            // /half\s*marathon/i
    | Number(decimal: bool, unit: Unit)
                              // /(\d+[.,]\d+)\s*km/i, /(\d+)\s*km/i, /(\d+[.,]\d+)\s*k\b/i, /(\d+)\s*k\b/i
    | BareK                   // /\b(\d+)k\b/ on lower-cased text
    | Hms                     // /(\d{1,2}):(\d{2}):(\d{2})/
    | Ms                      // /(\d{1,2}):(\d{2})\b/

  /** `p` matches the text at position `i` */
  predicate MatchesAt(p: Pattern, s: string, i: nat) {
    match p
    case MarathonWord => CiAt(s, i, "marathon") && Boundary(s, i) && Boundary(s, i + 8)
    case Half => CiAt(s, i, "half")
    case HalfMarathon => CiAt(s, i, "half") && CiAt(s, i + 4 + RunAt(s, i + 4, IsSpace), "marathon")
    case Number(decimal, unit) => i <= |s| && NumeralAt(s, i, decimal, unit).Some?
    case BareK => i <= |s| && BareKAt(s, i)
    case Hms => HmsAt(s, i).Some?
    case Ms => MsAt(s, i).Some?
  }

  /** The pattern occurs somewhere in the text */
  predicate Found(p: Pattern, s: string) {
    Leftmost(p, s, 0) < |s|
  }

  /** Where a non-global `match` finds `p`: the leftmost position from `lo` on where
      it matches, or `|s|` when there is none */
  function Leftmost(p: Pattern, s: string, lo: nat): (k: nat)
    requires lo <= |s|
    ensures lo <= k <= |s|
    ensures forall j :: lo <= j < k ==> !MatchesAt(p, s, j)
    ensures k < |s| ==> MatchesAt(p, s, k)
    decreases |s| - lo
  {
    if lo == |s| then lo else if MatchesAt(p, s, lo) then lo else Leftmost(p, s, lo + 1)
  }

  /** `HH:MM:SS` with two digits in every field */
  predicate ClockText(t: string) {
    && |t| == 8 && t[2] == ':' && t[5] == ':'
    && AllDigits(t[..2]) && AllDigits(t[3..5]) && AllDigits(t[6..])
  }

  /** A field of one or two digits padded to two */
  lemma PadTwoDigits(f: string)
    requires 1 <= |f| <= 2 && AllDigits(f)
    ensures |PadStart(f, 2, '0')| == 2 && AllDigits(PadStart(f, 2, '0'))
  {
    var r := PadStart(f, 2, '0');
    assert r[|r| - |f|..] == f;
    forall i | 0 <= i < 2
      ensures IsDigit(r[i])
    {
      if i >= |r| - |f| {
        assert r[i] == f[i - (|r| - |f|)];
      }
    }
  }

  /** Padding with zeros keeps the value */
  lemma PadZeroValue(f: string)
    requires 1 <= |f| <= 2 && AllDigits(f)
    ensures DigitsValue(PadStart(f, 2, '0')) == DigitsValue(f)
  {
    if |f| == 1 {
      var r := PadStart(f, 2, '0');
      assert r == "0" + f;
      assert r[..1] == "0";
    }
  }

  /** `HH:MM:SS` assembled from three two-digit fields */
  lemma ClockTextOf(h: string, m: string, s: string)
    requires |h| == 2 && |m| == 2 && |s| == 2 && AllDigits(h) && AllDigits(m) && AllDigits(s)
    ensures ClockText(h + ":" + m + ":" + s)
  {
    var t := h + ":" + m + ":" + s;
    assert t[..2] == h && t[3..5] == m && t[6..] == s;
  }

  /** The fields of `HH:MM:SS` assembled from three two-character fields */
  lemma HmsFields(h: string, m: string, s: string)
    requires |h| == 2 && |m| == 2 && |s| == 2
    ensures var t := h + ":" + m + ":" + s;
            |t| == 8 && t[..2] == h && t[..3] == h + ":" && t[3..5] == m && t[6..] == s
  {
  }

  /** The reading of an `H:MM:SS` match: the hour padded to two digits */
  function HmsReading(h: string, m: string, sec: string): (t: string)
    requires 1 <= |h| <= 2 && AllDigits(h) && |m| == 2 && AllDigits(m) && |sec| == 2 && AllDigits(sec)
    ensures ClockText(t)
    ensures DigitsValue(t[..2]) == DigitsValue(h) && t[3..5] == m && t[6..] == sec
  {
    PadTwoDigits(h);
    PadZeroValue(h);
    HmsFields(PadStart(h, 2, '0'), m, sec);
    ClockTextOf(PadStart(h, 2, '0'), m, sec);
    PadStart(h, 2, '0') + ":" + m + ":" + sec
  }

  /** The reading of an `M:SS` match: no hours, the minutes padded to two digits */
  function MsReading(m: string, sec: string): (t: string)
    requires 1 <= |m| <= 2 && AllDigits(m) && |sec| == 2 && AllDigits(sec)
    ensures ClockText(t)
    ensures t[..3] == "00:" && DigitsValue(t[3..5]) == DigitsValue(m) && t[6..] == sec
  {
    var mm := PadStart(m, 2, '0');
    PadTwoDigits(m);
    PadZeroValue(m);
    ZeroHourClock(mm, sec);
    "00:" + mm + ":" + sec
  }

  /** `00:MM:SS` assembled from two two-digit fields */
  lemma ZeroHourClock(mm: string, sec: string)
    requires |mm| == 2 && AllDigits(mm) && |sec| == 2 && AllDigits(sec)
    ensures var t := "00:" + mm + ":" + sec;
            ClockText(t) && t[..3] == "00:" && t[3..5] == mm && t[6..] == sec
  {
    var t := "00:" + mm + ":" + sec;
    assert "00:" == "00" + ":";
    assert AllDigits("00");
    ClockTextOf("00", mm, sec);
    HmsFields("00", mm, sec);
  }

  /** `parseTime`: the leftmost `H:MM:SS` with the hour padded, else the leftmost
      `M:SS` read as minutes and seconds when the minutes are below 60 */
  function ParseTime(text: string): (t: Option<string>)
    ensures t.Some? ==> ClockText(t.value)
  {
    var k := Leftmost(Hms, text, 0);
    if k < |text| then
      var g := HmsAt(text, k).value;
      Some(HmsReading(g.0, g.1, g.2))
    else
      var k2 := Leftmost(Ms, text, 0);
      if k2 < |text| then
        var g := MsAt(text, k2).value;
        if DigitsValue(g.0) < 60 then Some(MsReading(g.0, g.1)) else None
      else None
  }

  /** The leftmost `H:MM:SS` wins: its hour is padded, its minutes and seconds kept */
  lemma HmsPreferred(text: string)
    requires Found(Hms, text)
    ensures var g := HmsAt(text, Leftmost(Hms, text, 0)).value;
            ParseTime(text) == Some(HmsReading(g.0, g.1, g.2))
  {
  }

  /** Without any `H:MM:SS` the leftmost `M:SS` is read when its minutes are below 60,
      and the text has no time when they are not */
  lemma MsFallback(text: string)
    requires !Found(Hms, text) && Found(Ms, text)
    ensures var g := MsAt(text, Leftmost(Ms, text, 0)).value;
            ParseTime(text) == if DigitsValue(g.0) < 60 then Some(MsReading(g.0, g.1)) else None
  {
  }

  /** Text with neither pattern has no time */
  lemma NoTimeFound(text: string)
    requires !Found(Hms, text) && !Found(Ms, text)
    ensures ParseTime(text) == None
  {
  }

  /** `H:MM:SS` or `HH:MM:SS` on its own reads with the hour padded to two digits */
  lemma HoursMinutesSecondsRead(h: string, m: string, s: string)
    requires 1 <= |h| <= 2 && AllDigits(h) && |m| == 2 && AllDigits(m) && |s| == 2 && AllDigits(s)
    ensures ParseTime(h + ":" + m + ":" + s) == Some(PadStart(h, 2, '0') + ":" + m + ":" + s)
  {
    var text := h + ":" + m + ":" + s;
    var n := |h|;
    assert text[..n] == h && text[n] == ':';
    assert text[n + 1..n + 3] == m && text[n + 3] == ':' && text[n + 4..n + 6] == s;
    assert HourDigits(text, 0) == n;
    assert HmsAt(text, 0) == Some((h, m, s));
    assert Leftmost(Hms, text, 0) == 0;
  }

  /** A time the parser produced reads back as itself */
  lemma ParseTimeIdempotent(t: string)
    requires ClockText(t)
    ensures ParseTime(t) == Some(t)
  {
    assert t[..2][0] == t[0] && t[..2][1] == t[1];
    assert t[3..5][0] == t[3] && t[3..5][1] == t[4];
    assert t[6..][0] == t[6] && t[6..][1] == t[7];
    assert HourDigits(t, 0) == 2;
    assert TwoDigitsAt(t, 3) && TwoDigitsAt(t, 6);
    assert HmsAt(t, 0) == Some((t[..2], t[3..5], t[6..8]));
    assert t == t[..2] + ":" + t[3..5] + ":" + t[6..8];
  }

  /** Every time the parser produces is accepted by the time-field reader and stands
      for hours, minutes and seconds as written */
  lemma ParsedTimeReadable(text: string)
    requires ParseTime(text).Some?
    ensures var t := ParseTime(text).value;
            Formatting.ParseTimeToSeconds(t)
              == Some(Formatting.Seconds(DigitsValue(t[..2]), DigitsValue(t[3..5]), DigitsValue(t[6..])))
  {
    ClockTextReadable(ParseTime(text).value);
  }

  lemma ClockTextReadable(t: string)
    requires ClockText(t)
    ensures Formatting.ParseTimeToSeconds(t)
              == Some(Formatting.Seconds(DigitsValue(t[..2]), DigitsValue(t[3..5]), DigitsValue(t[6..])))
  {
    assert t == t[..2] + ":" + t[3..5] + ":" + t[6..];
    Formatting.ParseHms(t[..2], t[3..5], t[6..]);
  }

  /** No `H:MM:SS` fits in fewer than seven characters */
  lemma NoHmsInShortText(text: string)
    requires |text| < 7
    ensures Leftmost(Hms, text, 0) == |text|
  {
  }

  /** In `M:SS` or `MM:SS` the minutes-seconds pattern matches at the start */
  lemma MinutesSecondsMatch(m: string, s: string)
    requires 1 <= |m| <= 2 && AllDigits(m) && |s| == 2 && AllDigits(s)
    ensures Leftmost(Hms, m + ":" + s, 0) == |m + ":" + s|
    ensures Leftmost(Ms, m + ":" + s, 0) == 0 && MsAt(m + ":" + s, 0) == Some((m, s))
  {
    var text := m + ":" + s;
    NoHmsInShortText(text);
    MsTextAt(m, s);
    assert MatchesAt(Ms, text, 0);
  }

  /** The groups of `(\d{1,2}):(\d{2})\b` in `M:SS` or `MM:SS` */
  lemma MsTextAt(m: string, s: string)
    requires 1 <= |m| <= 2 && AllDigits(m) && |s| == 2 && AllDigits(s)
    ensures MsAt(m + ":" + s, 0) == Some((m, s))
  {
    var text := m + ":" + s;
    var n := |m|;
    assert |text| == n + 3;
    assert text[..n] == m && text[n] == ':';
    assert text[n + 1] == s[0] && text[n + 2] == s[1] && text[n + 1..n + 3] == s;
    if n == 2 {
      assert text[0] == m[0] && text[1] == m[1];
      assert HourDigits(text, 0) == 2;
    } else {
      assert text[0] == m[0];
      assert HourDigits(text, 0) == 1;
    }
    assert TwoDigitsAt(text, n + 1) && Boundary(text, n + 3);
  }

  /** `M:SS` or `MM:SS` on its own reads as minutes and seconds, the minutes padded to
      two digits, when the minutes are below 60 */
  lemma MinutesSecondsRead(m: string, s: string)
    requires 1 <= |m| <= 2 && AllDigits(m) && |s| == 2 && AllDigits(s)
    requires DigitsValue(m) < 60
    ensures ParseTime(m + ":" + s) == Some("00:" + PadStart(m, 2, '0') + ":" + s)
  {
    MinutesSecondsMatch(m, s);
  }

  /** `MM:SS` with two-digit minutes keeps them as they are */
  lemma TwoDigitMinutesRead(m: string, s: string)
    requires |m| == 2 && AllDigits(m) && |s| == 2 && AllDigits(s)
    requires DigitsValue(m) < 60
    ensures ParseTime(m + ":" + s) == Some("00:" + m + ":" + s)
  {
    MinutesSecondsRead(m, s);
    assert PadStart(m, 2, '0') == m;
  }

  /** `MM:SS` whose minutes are 60 or more is not a time */
  lemma LongMinutesRejected(m: string, s: string)
    requires |m| == 2 && AllDigits(m) && |s| == 2 && AllDigits(s)
    requires DigitsValue(m) >= 60
    ensures ParseTime(m + ":" + s) == None
  {
    MinutesSecondsMatch(m, s);
  }

  // ----------------------------------------------------------- race names

  /** A line worth looking at has more than three characters once trimmed */
  predicate IsCandidate(line: string) {
    |Trim(line)| > 3
  }

  /** The lines kept by the filter, in their order */
  function Candidates(lines: seq<string>): (c: seq<string>)
    ensures |c| <= |lines|
    ensures forall k :: 0 <= k < |c| ==> IsCandidate(c[k])
    ensures forall x :: x in c <==> x in lines && IsCandidate(x)
  {
    if lines == [] then []
    else (if IsCandidate(lines[0]) then [lines[0]] else []) + Candidates(lines[1..])
  }

  /** The filter keeps the order of the lines: it works line by line */
  lemma {:induction false} CandidatesAppend(a: seq<string>, b: seq<string>)
    ensures Candidates(a + b) == Candidates(a) + Candidates(b)
  {
    if a == [] {
      assert a + b == b;
    } else {
      TailOfAppend(a, b);
      CandidatesAppend(a[1..], b);
      CandidatesStep(a);
      CandidatesStep(a + b);
      var head := if IsCandidate(a[0]) then [a[0]] else [];
      AppendAssoc(head, Candidates(a[1..]), Candidates(b));
    }
  }

  /** The filter decides about the first line, then goes on with the rest */
  lemma CandidatesStep(lines: seq<string>)
    requires lines != []
    ensures Candidates(lines) == (if IsCandidate(lines[0]) then [lines[0]] else []) + Candidates(lines[1..])
  {
  }

  lemma AppendAssoc<T>(x: seq<T>, y: seq<T>, z: seq<T>)
    ensures x + (y + z) == (x + y) + z
  {
  }

  /** Dropping the first element of a join drops it from the first part */
  lemma TailOfAppend<T>(a: seq<T>, b: seq<T>)
    requires a != []
    ensures (a + b)[0] == a[0] && (a + b)[1..] == a[1..] + b
  {
  }

  /** One line is kept exactly when it is a candidate */
  lemma CandidatesSingle(x: string)
    ensures Candidates([x]) == if IsCandidate(x) then [x] else []
  {
    assert [x][1..] == [];
  }

  /** `^\d+[:/.-]`: the text starts with digits and then one of `:/.-` */
  predicate DateLike(t: string) {
    var d := RunAt(t, 0, IsDigit);
    d > 0 && d < |t| && t[d] in ":/.-"
  }

  /** A candidate that can be a name: not date-like and at most 80 characters */
  predicate Accepted(line: string) {
    var t := Trim(line);
    !DateLike(t) && |t| <= 80
  }

  /** Which candidates can be a name, one flag per candidate */
  function AcceptedFlags(c: seq<string>): (f: seq<bool>)
    ensures |f| == |c|
    ensures forall j :: 0 <= j < |c| ==> f[j] == Accepted(c[j])
  {
    if c == [] then [] else [Accepted(c[0])] + AcceptedFlags(c[1..])
  }

  /** The first raised flag from `lo` on, or `|f|` */
  function FirstRaised(f: seq<bool>, lo: nat): (k: nat)
    requires lo <= |f|
    ensures lo <= k <= |f|
    ensures forall j :: lo <= j < k ==> !f[j]
    ensures k < |f| ==> f[k]
    decreases |f| - lo
  {
    if lo == |f| || f[lo] then lo else FirstRaised(f, lo + 1)
  }

  /** The first acceptable candidate from `lo` on, or `|c|` */
  function FirstAccepted(c: seq<string>, lo: nat): (k: nat)
    requires lo <= |c|
    ensures lo <= k <= |c|
    ensures forall j :: lo <= j < k ==> !Accepted(c[j])
    ensures k < |c| ==> Accepted(c[k])
  {
    FirstRaised(AcceptedFlags(c), lo)
  }

  /** The candidate lines of the recognised text */
  function NameCandidates(text: string): seq<string> {
    Candidates(Split(text, '\n'))
  }

  /** `parseRaceName` */
  function ParseRaceName(text: string): (name: Option<string>)
    ensures name.None? <==> NameCandidates(text) == []
    ensures name.Some? ==> 3 < |name.value| <= 80
  {
    var c := NameCandidates(text);
    if c == [] then None
    else
      var k := FirstAccepted(c, 0);
      if k < |c| then Some(Trim(c[k])) else Some(Take(Trim(c[0]), 80))
  }

  /** The name is the first acceptable candidate, trimmed */
  lemma NameIsFirstAccepted(text: string, k: nat)
    requires k < |NameCandidates(text)| && Accepted(NameCandidates(text)[k])
    requires forall j :: 0 <= j < k ==> !Accepted(NameCandidates(text)[j])
    ensures ParseRaceName(text) == Some(Trim(NameCandidates(text)[k]))
  {
    var c := NameCandidates(text);
    assert FirstAccepted(c, 0) == k;
  }

  /** Without an acceptable candidate the first one is cut to 80 characters */
  lemma NameFallsBackToFirst(text: string)
    requires NameCandidates(text) != []
    requires forall j :: 0 <= j < |NameCandidates(text)| ==> !Accepted(NameCandidates(text)[j])
    ensures ParseRaceName(text) == Some(Take(Trim(NameCandidates(text)[0]), 80))
  {
  }

  /** A single line that is a plausible name is read back unchanged */
  lemma SingleLineName(name: string)
    requires '\n' !in name && Trimmed(name)
    requires 3 < |name| <= 80 && !DateLike(name)
    ensures ParseRaceName(name) == Some(name)
  {
    SplitNone(name, '\n');
    TrimFixed(name);
    assert Candidates([name]) == [name] by {
      assert [name][1..] == [];
    }
    NameIsFirstAccepted(name, 0);
  }
}

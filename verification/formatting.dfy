/** Race durations: `formatTime` renders whole seconds as `H:MM:SS` or `M:SS`,
    `parseTimeToSeconds` reads such a text back. */
module Formatting {
  import opened Wrappers
  import opened Text
  import opened Numerals

  /** The hour, minute and second fields of a duration */
  datatype Clock = Clock(hours: nat, minutes: nat, seconds: nat)

  /** The fields `formatTime` derives with `Math.floor` and `%` */
  function ClockOf(totalSeconds: nat): (c: Clock)
    ensures c.minutes < 60 && c.seconds < 60
    ensures Seconds(c.hours, c.minutes, c.seconds) == totalSeconds
    ensures c.hours > 0 <==> totalSeconds >= 3600
  {
    Clock(totalSeconds / 3600, (totalSeconds % 3600) / 60, totalSeconds % 60)
  }

  /** `String(n).padStart(2, '0')` */
  function Pad2(n: nat): (r: string)
    ensures AllDigits(r)
    ensures n < 100 ==> |r| == 2 && DigitsValue(r) == n
  {
    var d := NatToString(n);
    var r := PadStart(d, 2, '0');
    assert r == seq(|r| - |d|, _ => '0') + d;
    DigitsValueZeros(|r| - |d|, d);
    NatToStringRoundTrip(n);
    r
  }

  /** The text `formatTime` writes for the given fields: split at its colons it gives
      the unpadded hours and the two-digit minutes and seconds, or below one hour the
      unpadded minutes and the two-digit seconds */
  function FormatClock(c: Clock): (r: string)
    ensures ':' in r
    ensures c.hours > 0 ==> Split(r, ':') == [NatToString(c.hours), Pad2(c.minutes), Pad2(c.seconds)]
    ensures c.hours == 0 ==> Split(r, ':') == [NatToString(c.minutes), Pad2(c.seconds)]
  {
    var m, s := Pad2(c.minutes), Pad2(c.seconds);
    assert ':' !in m && ':' !in s;
    if c.hours > 0 then
      var h := NatToString(c.hours);
      assert ':' !in h;
      SplitTriple(h, m, s, ':');
      assert (h + ":" + m + ":" + s)[|h|] == ':';
      h + ":" + m + ":" + s
    else
      var mm := NatToString(c.minutes);
      assert ':' !in mm;
      SplitPair(mm, s, ':');
      assert (mm + ":" + s)[|mm|] == ':';
      mm + ":" + s
  }

  /** `formatTime` for a whole, non-negative number of seconds: the fields of the
      clock reading, the hours left out below one hour */
  function FormatTime(totalSeconds: nat): (r: string)
    ensures ':' in r
    ensures var c := ClockOf(totalSeconds);
            Split(r, ':') == if totalSeconds >= 3600 then [NatToString(c.hours), Pad2(c.minutes), Pad2(c.seconds)]
                             else [NatToString(c.minutes), Pad2(c.seconds)]
  {
    FormatClock(ClockOf(totalSeconds))
  }

  /** `Number(part)` for the parts this model covers: a digit string, the empty one
      reading as 0; any other text reads as NaN (`None`) */
  function NumberOf(part: string): (r: Option<nat>)
    ensures r.Some? <==> AllDigits(part)
    ensures part == [] ==> r == Some(0)
  {
    if AllDigits(part) then Some(DigitsValue(part)) else None
  }

  /** The length in seconds of `hours:minutes:seconds`, whatever the ranges of the fields */
  function Seconds(hours: nat, minutes: nat, seconds: nat): nat {
    hours * 3600 + minutes * 60 + seconds
  }

  /** No field reads as NaN: `!parts.some(isNaN)` */
  predicate AllNumbers(parts: seq<string>) {
    forall k :: 0 <= k < |parts| ==> NumberOf(parts[k]).Some?
  }

  /** `parseTimeToSeconds`: `H:M:S` or `M:S` to seconds, `None` for anything else */
  function ParseTimeToSeconds(timeStr: string): (r: Option<nat>)
    ensures r.Some? ==> |Split(timeStr, ':')| in {2, 3}
    ensures r.Some? ==> forall k :: 0 <= k < |Split(timeStr, ':')| ==> AllDigits(Split(timeStr, ':')[k])
  {
    var parts := Split(timeStr, ':');
    if !AllNumbers(parts) then None
    else if |parts| == 3 then Some(Seconds(DigitsValue(parts[0]), DigitsValue(parts[1]), DigitsValue(parts[2])))
    else if |parts| == 2 then Some(Seconds(0, DigitsValue(parts[0]), DigitsValue(parts[1])))
    else None
  }

  lemma FieldsHms(timeStr: string, h: string, m: string, s: string)
    requires AllDigits(h) && AllDigits(m) && AllDigits(s)
    requires Split(timeStr, ':') == [h, m, s]
    ensures ParseTimeToSeconds(timeStr) == Some(Seconds(DigitsValue(h), DigitsValue(m), DigitsValue(s)))
  {
    assert AllNumbers(Split(timeStr, ':'));
  }

  lemma FieldsMs(timeStr: string, m: string, s: string)
    requires AllDigits(m) && AllDigits(s)
    requires Split(timeStr, ':') == [m, s]
    ensures ParseTimeToSeconds(timeStr) == Some(Seconds(0, DigitsValue(m), DigitsValue(s)))
  {
    assert AllNumbers(Split(timeStr, ':'));
  }

  /** Three digit fields give hours, minutes and seconds, with no range check */
  lemma ParseHms(h: string, m: string, s: string)
    requires AllDigits(h) && AllDigits(m) && AllDigits(s)
    ensures ParseTimeToSeconds(h + ":" + m + ":" + s)
         == Some(Seconds(DigitsValue(h), DigitsValue(m), DigitsValue(s)))
  {
    assert ':' !in h && ':' !in m && ':' !in s;
    SplitTriple(h, m, s, ':');
    FieldsHms(h + ":" + m + ":" + s, h, m, s);
  }

  /** Two digit fields give minutes and seconds */
  lemma ParseMs(m: string, s: string)
    requires AllDigits(m) && AllDigits(s)
    ensures ParseTimeToSeconds(m + ":" + s) == Some(Seconds(0, DigitsValue(m), DigitsValue(s)))
  {
    assert ':' !in m && ':' !in s;
    SplitPair(m, s, ':');
    FieldsMs(m + ":" + s, m, s);
  }

  /** A text with no colon, or with three or more, is not a time */
  lemma ParseWrongFieldCount(timeStr: string)
    requires var n := |Split(timeStr, ':')|; n == 1 || n >= 4
    ensures ParseTimeToSeconds(timeStr) == None
  {
  }

  /** A field that is not a digit string makes the whole text not a time */
  lemma ParseNonNumericField(timeStr: string, k: nat)
    requires k < |Split(timeStr, ':')| && !AllDigits(Split(timeStr, ':')[k])
    ensures ParseTimeToSeconds(timeStr) == None
  {
  }

  lemma ClockRoundTripHours(c: Clock)
    requires c.minutes < 60 && c.seconds < 60 && c.hours > 0
    ensures ParseTimeToSeconds(FormatClock(c)) == Some(Seconds(c.hours, c.minutes, c.seconds))
  {
    var h, m, s := NatToString(c.hours), Pad2(c.minutes), Pad2(c.seconds);
    NatToStringRoundTrip(c.hours);
    assert FormatClock(c) == h + ":" + m + ":" + s;
    ParseHms(h, m, s);
  }

  lemma ClockRoundTripMinutes(c: Clock)
    requires c.minutes < 60 && c.seconds < 60 && c.hours == 0
    ensures ParseTimeToSeconds(FormatClock(c)) == Some(Seconds(c.hours, c.minutes, c.seconds))
  {
    var m, s := NatToString(c.minutes), Pad2(c.seconds);
    NatToStringRoundTrip(c.minutes);
    assert FormatClock(c) == m + ":" + s;
    ParseMs(m, s);
  }

  /** Reading back what `formatTime` wrote gives the fields it wrote */
  lemma ClockRoundTrip(c: Clock)
    requires c.minutes < 60 && c.seconds < 60
    ensures ParseTimeToSeconds(FormatClock(c)) == Some(Seconds(c.hours, c.minutes, c.seconds))
  {
    if c.hours > 0 {
      ClockRoundTripHours(c);
    } else {
      ClockRoundTripMinutes(c);
    }
  }

  /** Reading back what `formatTime` wrote gives the original number of seconds */
  lemma FormatParseRoundTrip(totalSeconds: nat)
    ensures ParseTimeToSeconds(FormatTime(totalSeconds)) == Some(totalSeconds)
  {
    ClockRoundTrip(ClockOf(totalSeconds));
  }
}

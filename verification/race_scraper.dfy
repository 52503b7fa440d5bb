/** The external race calendar: which page URL is fetched, and how each calendar
    anchor of the fetched page becomes an `ExternalRace`. The DOM is abstracted to one
    record per matching anchor holding the texts the parser reads from it. */
module RaceScraper {
  import opened Wrappers
  import opened Text
  import opened Numerals

  const BaseUrl: string := "https://www.runnersworld.de"
  const CalendarPath: string := BaseUrl + "/laufkalender/"
  const CalendarUrl: string := CalendarPath + "?speakingUrl=laufevents&q="

  /** A string is a prefix of itself followed by anything */
  lemma PrefixOfConcat(x: string, y: string)
    ensures x <= x + y
  {
    assert (x + y)[..|x|] == x;
  }

  /** The calendar URL fetched for a page number */
  function PageUrl(page: int): (url: string)
    ensures CalendarPath <= url
    ensures page == 1 <==> url == CalendarUrl
    ensures page != 1 ==> url == CalendarPath + "seite/" + IntToString(page) + "/?q="
  {
    PrefixOfConcat(CalendarPath, "?speakingUrl=laufevents&q=");
    if page == 1 then CalendarUrl
    else
      var tail := "seite/" + IntToString(page) + "/?q=";
      var url := CalendarPath + tail;
      PrefixOfConcat(CalendarPath, tail);
      assert url[|CalendarPath|] == 's' && CalendarUrl[|CalendarPath|] == '?';
      url
  }

  /** The page number can be read back out of the URL of any page but the first */
  lemma PageDigits(page: int)
    requires page != 1
    ensures var url := PageUrl(page);
            && |CalendarPath| + 6 <= |url| - 4
            && url[|CalendarPath|..|CalendarPath| + 6] == "seite/"
            && url[|CalendarPath| + 6..|url| - 4] == IntToString(page)
            && url[|url| - 4..] == "/?q="
  {
    var pre := CalendarPath + "seite/";
    var a := IntToString(page);
    assert |pre| == |CalendarPath| + 6;
    assert PageUrl(page) == pre + a + "/?q=";
    Middle(pre, a, "/?q=");
    assert (pre + a + "/?q=")[|CalendarPath|..|CalendarPath| + 6] == "seite/";
    assert (pre + a + "/?q=")[|pre + a|..] == "/?q=";
  }

  /** The middle of three joined strings is found between the other two */
  lemma Middle(x: string, y: string, z: string)
    ensures (x + y + z)[|x|..|x + y + z| - |z|] == y
  {
  }

  /** Different pages are fetched from different URLs */
  lemma PageUrlInjective(p1: int, p2: int)
    requires PageUrl(p1) == PageUrl(p2)
    ensures p1 == p2
  {
    if p1 != 1 && p2 != 1 {
      var url := PageUrl(p1);
      PageDigits(p1);
      PageDigits(p2);
      assert IntToString(p1) == url[|CalendarPath| + 6..|url| - 4] == IntToString(p2);
      IntToStringInjective(p1, p2);
    }
  }

  /** One calendar anchor, as far as the parser reads it. `Unreadable` stands for an
      anchor whose extraction throws. In a `Card`, `dateSpans` holds the texts of the
      spans in the anchor's first `div` (none when there is no `div`); the other
      fields hold the text of the headline span, of the subline, of the distance
      paragraph, and the `href` attribute, or `None` when that element is missing. */
  datatype Anchor =
    | Unreadable
    | Card(dateSpans: seq<string>, headline: Option<string>, subline: Option<string>,
           distanceText: Option<string>, href: Option<string>)

  datatype ExternalRace = ExternalRace(
    name: string, date: string, location: string, postalCode: string, distances: string, url: string)

  /** The trimmed text of an element, or `""` when it is missing */
  function TextOf(e: Option<string>): (t: string)
    ensures e.None? ==> t == []
    ensures Trimmed(t)
  {
    Trim(e.OrElse([]))
  }

  /** The trimmed text of the `k`-th date span, or `""` */
  function SpanText(spans: seq<string>, k: nat): (t: string)
    ensures k >= |spans| ==> t == []
    ensures Trimmed(t)
  {
    TextOf(if k < |spans| then Some(spans[k]) else None)
  }

  /** `s.replace(/\.$/, '')`: one period at the very end goes */
  function DropFinalPeriod(s: string): (r: string)
    ensures s != [] && s[|s| - 1] == '.' ==> s == r + "."
    ensures s == [] || s[|s| - 1] != '.' ==> r == s
  {
    if s != [] && s[|s| - 1] == '.' then s[..|s| - 1] else s
  }

  /** The date text: day and month-year joined by a space, one final period removed,
      the whole trimmed */
  function DateText(day: string, monthYear: string): (date: string)
    ensures Trimmed(date)
    ensures (&& day != [] && !IsSpace(day[0])
             && monthYear != [] && !IsSpace(monthYear[|monthYear| - 1]) && monthYear[|monthYear| - 1] != '.')
            ==> date == day + " " + monthYear
  {
    var joined := day + " " + monthYear;
    TrimmedIsFixed(joined);
    Trim(DropFinalPeriod(joined))
  }

  /** Only the last of several final periods is removed: interior periods stay */
  lemma DateKeepsInteriorPeriods(day: string, month: string, year: string)
    requires day != [] && !IsSpace(day[0])
    requires year != [] && !IsSpace(year[|year| - 1]) && year[|year| - 1] != '.'
    ensures DateText(day, month + ". " + year) == day + " " + month + ". " + year
  {
    assert day + " " + (month + ". " + year) == day + " " + month + ". " + year;
  }

  /** A final period after the month-year is dropped */
  lemma DateDropsFinalPeriod(day: string, monthYear: string)
    requires day != [] && !IsSpace(day[0])
    requires monthYear != [] && !IsSpace(monthYear[|monthYear| - 1])
    ensures DateText(day, monthYear + ".") == day + " " + monthYear
  {
    var joined := day + " " + (monthYear + ".");
    assert DropFinalPeriod(joined) == day + " " + monthYear;
    TrimFixed(day + " " + monthYear);
  }

  predicate NoLineBreak(s: string) {
    forall i :: 0 <= i < |s| ==> !IsLineTerminator(s[i])
  }

  datatype Place = Place(postalCode: string, city: string)

  /** `/^(\d+)\s*(.*)$/` applied to the location text. `\d+` and `\s*` are greedy and
      a shorter run cannot rescue a failed match, so the pattern matches exactly when
      the text after the leading digits and the white space following them holds no
      line terminator; it then captures the whole digit run and that remainder. */
  function SplitPostal(text: string): (p: Place)
    ensures AllDigits(p.postalCode)
    ensures |p.postalCode| + |p.city| <= |text|
    ensures text[..|p.postalCode|] == p.postalCode && text[|text| - |p.city|..] == p.city
    ensures forall i :: |p.postalCode| <= i < |text| - |p.city| ==> IsSpace(text[i])
    ensures p.postalCode != [] ==> |p.postalCode| == |text| || !IsDigit(text[|p.postalCode|])
    ensures p.postalCode != [] ==> p.city == [] || !IsSpace(p.city[0])
    ensures p.postalCode == [] ==> p.city == text
    ensures text != [] && IsDigit(text[0]) && NoLineBreak(text) ==> p.postalCode != []
  {
    var d := RunAt(text, 0, IsDigit);
    var w := RunAt(text, d, IsSpace);
    var rest := text[d + w..];
    if d > 0 && NoLineBreak(rest) then Place(text[..d], rest) else Place("", text)
  }

  /** An `href` starting with `http` is kept; any other one is taken relative to the
      site's origin */
  function ResolveHref(href: string): (url: string)
    ensures "http" <= url
    ensures |href| <= |url| && url[|url| - |href|..] == href
    ensures "http" <= href ==> url == href
    ensures !("http" <= href) ==> BaseUrl <= url && url == BaseUrl + href
  {
    if "http" <= href then href else BaseUrl + href
  }

  /** Resolving a resolved URL changes nothing */
  lemma ResolveHrefIdempotent(href: string)
    ensures ResolveHref(ResolveHref(href)) == ResolveHref(href)
  {
  }

  /** The record a readable card yields before the name filter */
  function CardRace(a: Anchor): (r: ExternalRace)
    requires a.Card?
    ensures r.name == TextOf(a.headline)
    ensures a.dateSpans == [] ==> r.date == []
    ensures a.subline.None? ==> r.location == [] && r.postalCode == []
    ensures a.distanceText.None? ==> r.distances == []
    ensures a.href.None? ==> r.url == BaseUrl
    ensures Trimmed(r.name) && Trimmed(r.date) && "http" <= r.url
    ensures r.date == DateText(SpanText(a.dateSpans, 0), SpanText(a.dateSpans, 1))
    ensures Place(r.postalCode, r.location) == SplitPostal(TextOf(a.subline))
    ensures r.distances == TextOf(a.distanceText)
    ensures r.url == ResolveHref(a.href.OrElse([]))
  {
    var date := DateText(SpanText(a.dateSpans, 0), SpanText(a.dateSpans, 1));
    var place := SplitPostal(TextOf(a.subline));
    ExternalRace(TextOf(a.headline), date, place.city, place.postalCode,
                 TextOf(a.distanceText), ResolveHref(a.href.OrElse([])))
  }

  /** The anchor yields a record: it is readable and its headline has text */
  predicate Yields(a: Anchor) {
    a.Card? && TextOf(a.headline) != []
  }

  /** The records one anchor contributes: none or one */
  function Emitted(a: Anchor): (rs: seq<ExternalRace>)
    ensures |rs| == if Yields(a) then 1 else 0
  {
    if Yields(a) then [CardRace(a)] else []
  }

  function CountYielding(anchors: seq<Anchor>): nat {
    if anchors == [] then 0
    else CountYielding(anchors[..|anchors| - 1]) + (if Yields(anchors[|anchors| - 1]) then 1 else 0)
  }

  predicate WellFormedRace(r: ExternalRace) {
    r.name != [] && Trimmed(r.name) && Trimmed(r.date) && "http" <= r.url
  }

  /** `parseRacesFromHtml` over the anchors the selector returns, in document order */
  function ParseRaces(anchors: seq<Anchor>): (races: seq<ExternalRace>)
    ensures |races| == CountYielding(anchors) <= |anchors|
  {
    if anchors == [] then []
    else ParseRaces(anchors[..|anchors| - 1]) + Emitted(anchors[|anchors| - 1])
  }

  /** The record of an anchor with headline text is well formed */
  lemma CardRaceWellFormed(a: Anchor)
    requires Yields(a)
    ensures WellFormedRace(CardRace(a))
  {
    var r := CardRace(a);
    assert r.name == TextOf(a.headline);
  }

  /** The record an anchor yields is well formed */
  lemma EmittedWellFormed(a: Anchor)
    ensures forall k :: 0 <= k < |Emitted(a)| ==> WellFormedRace(Emitted(a)[k])
  {
    var e := Emitted(a);
    if Yields(a) {
      CardRaceWellFormed(a);
      assert e == [CardRace(a)];
      forall k | 0 <= k < |e|
        ensures WellFormedRace(e[k])
      {
        assert k == 0;
      }
    }
  }

  /** Well-formed records joined stay well formed */
  lemma WellFormedConcat(p: seq<ExternalRace>, e: seq<ExternalRace>)
    requires forall k :: 0 <= k < |p| ==> WellFormedRace(p[k])
    requires forall k :: 0 <= k < |e| ==> WellFormedRace(e[k])
    ensures forall k :: 0 <= k < |p + e| ==> WellFormedRace((p + e)[k])
  {
    forall k | 0 <= k < |p + e|
      ensures WellFormedRace((p + e)[k])
    {
      if k < |p| {
        assert (p + e)[k] == p[k];
      } else {
        assert (p + e)[k] == e[k - |p|];
      }
    }
  }

  /** Every record has a non-empty trimmed name, a trimmed date and an absolute URL */
  lemma {:induction false} ParseRacesWellFormed(anchors: seq<Anchor>)
    ensures forall k :: 0 <= k < |ParseRaces(anchors)| ==> WellFormedRace(ParseRaces(anchors)[k])
  {
    if anchors != [] {
      var init, last := anchors[..|anchors| - 1], anchors[|anchors| - 1];
      ParseRacesWellFormed(init);
      EmittedWellFormed(last);
      WellFormedConcat(ParseRaces(init), Emitted(last));
    }
  }

  /** Anchors are handled one at a time: the records of a concatenation are the
      concatenation of the records, in order */
  lemma {:induction false} ParseRacesAppend(a: seq<Anchor>, b: seq<Anchor>)
    ensures ParseRaces(a + b) == ParseRaces(a) + ParseRaces(b)
    decreases |b|
  {
    if b == [] {
      assert a + b == a;
    } else {
      var b', x := b[..|b| - 1], b[|b| - 1];
      assert (a + b)[..|a + b| - 1] == a + b';
      assert (a + b)[|a + b| - 1] == x;
      calc {
        ParseRaces(a + b);
        ParseRaces(a + b') + Emitted(x);
        { ParseRacesAppend(a, b'); }
        (ParseRaces(a) + ParseRaces(b')) + Emitted(x);
        { ConcatAssoc(ParseRaces(a), ParseRaces(b'), Emitted(x)); }
        ParseRaces(a) + (ParseRaces(b') + Emitted(x));
        ParseRaces(a) + ParseRaces(b);
      }
    }
  }

  lemma ConcatAssoc<T>(x: seq<T>, y: seq<T>, z: seq<T>)
    ensures (x + y) + z == x + (y + z)
  {
  }

  /** The record list of a single anchor */
  lemma ParseOne(a: Anchor)
    ensures ParseRaces([a]) == Emitted(a)
  {
    assert [a][..0] == [];
  }

  /** An anchor that throws, or that has no headline text, leaves the records of all
      other anchors as they were */
  lemma SkipsNonYielding(before: seq<Anchor>, a: Anchor, after: seq<Anchor>)
    requires !Yields(a)
    ensures ParseRaces(before + [a] + after) == ParseRaces(before + after)
  {
    ParseRacesAppend(before + [a], after);
    ParseRacesAppend(before, [a]);
    ParseOne(a);
    ParseRacesAppend(before, after);
  }

  /** Every anchor with headline text yields exactly one record */
  lemma {:induction false} AllYielding(anchors: seq<Anchor>)
    requires forall k :: 0 <= k < |anchors| ==> Yields(anchors[k])
    ensures |ParseRaces(anchors)| == |anchors|
  {
    if anchors != [] {
      AllYielding(anchors[..|anchors| - 1]);
    }
  }
}

/** Turning a scraped race into a team event: the display date becomes
    `YYYY-MM-DD`, the location is rebuilt from postal code and city, and the first
    listed distance becomes a number. */
module EventImport {
  import opened Wrappers
  import opened Text
  import opened Numerals
  import opened RaceScraper

  /** The month table keyed by three lower-case letters. The March key is kept
      exactly as the source file has it: four characters, so no three-character
      key can ever select it. */
  const MonthTable: map<string, string> := map[
    "jan" := "01", "feb" := "02", "m\U{221A}\U{00A7}r" := "03", "mar" := "03", "apr" := "04",
    "mai" := "05", "may" := "05", "jun" := "06", "jul" := "07", "aug" := "08",
    "sep" := "09", "okt" := "10", "oct" := "10", "nov" := "11", "dez" := "12", "dec" := "12"]

  const MonthCodes: set<string> :=
    {"01", "02", "03", "04", "05", "06", "07", "08", "09", "10", "11", "12"}

  /** The month field for a month token: its first three lower-case characters looked
      up in the table, `"01"` when absent */
  function MonthOf(token: string): (code: string)
    ensures code in MonthCodes
    ensures Take(ToLower(token), 3) !in MonthTable ==> code == "01"
  {
    var key := Take(ToLower(token), 3);
    if key in MonthTable then MonthTable[key] else "01"
  }

  /** The text after removing its first period and trimming */
  function Cleaned(dateStr: string): string {
    Trim(RemoveFirst(dateStr, '.'))
  }

  /** The white-space separated tokens of the cleaned text */
  function Tokens(dateStr: string): (t: seq<string>)
    ensures |t| >= 1
  {
    SplitSpaces(Cleaned(dateStr))
  }

  /** `iso` reads `year-month-day` */
  predicate IsoLayout(iso: string, year: string, month: string, day: string) {
    && |iso| == |year| + |month| + |day| + 2
    && iso[..|year|] == year && iso[|year|] == '-'
    && iso[|year| + 1..|year| + 1 + |month|] == month
    && iso[|year| + 1 + |month|] == '-'
    && iso[|year| + 2 + |month|..] == day
  }

  /** The ISO date built from the tokens: the third token as year, the month field
      of the second and the first padded to two digits as day; `today` when there
      are fewer than three tokens */
  function IsoOf(parts: seq<string>, today: string): (iso: string)
    ensures |parts| < 3 ==> iso == today
    ensures |parts| >= 3 ==> IsoLayout(iso, parts[2], MonthOf(parts[1]), PadStart(parts[0], 2, '0'))
  {
    if |parts| < 3 then today
    else
      var day := PadStart(parts[0], 2, '0');
      var month := MonthOf(parts[1]);
      var year := parts[2];
      IsoJoined(year, month, day);
      year + "-" + month + "-" + day
  }

  /** Joining the three fields with hyphens lays them out as `year-month-day` */
  lemma IsoJoined(year: string, month: string, day: string)
    ensures IsoLayout(year + "-" + month + "-" + day, year, month, day)
  {
    var iso := year + "-" + month + "-" + day;
    assert iso[..|year|] == year;
    assert iso[|year| + 1..|year| + 1 + |month|] == month;
    assert iso[|year| + 2 + |month|..] == day;
  }

  /** `parseGermanDate`; `today` is the current date in `YYYY-MM-DD` form, the value
      the clock would give */
  function ParseGermanDate(dateStr: string, today: string): (iso: string)
    ensures |Tokens(dateStr)| < 3 ==> iso == today
    ensures var p := Tokens(dateStr);
            |p| >= 3 ==> IsoLayout(iso, p[2], MonthOf(p[1]), PadStart(p[0], 2, '0'))
  {
    IsoOf(Tokens(dateStr), today)
  }

  /** English month abbreviations as a display date writes them */
  const EnglishMonths: seq<string> :=
    ["Jan", "Feb", "Mar", "Apr", "May", "Jun", "Jul", "Aug", "Sep", "Oct", "Nov", "Dec"]

  /** `"01"` .. `"12"` */
  function MonthCode(m: nat): (code: string)
    requires 1 <= m <= 12
    ensures code in MonthCodes
  {
    ["01", "02", "03", "04", "05", "06", "07", "08", "09", "10", "11", "12"][m - 1]
  }

  predicate IsAsciiLetter(c: char) {
    'A' <= c <= 'Z' || 'a' <= c <= 'z'
  }

  /** The month key of a three-letter token is the token in lower case */
  lemma MonthKeyOfLetters(w: string)
    requires |w| == 3 && IsAsciiLetter(w[0]) && IsAsciiLetter(w[1]) && IsAsciiLetter(w[2])
    ensures Take(ToLower(w), 3) == [AsciiLower(w[0]), AsciiLower(w[1]), AsciiLower(w[2])]
  {
    LowerAsciiLetter(w[0]);
    LowerAsciiLetter(w[1]);
    LowerAsciiLetter(w[2]);
    var t := w[1..][1..];
    assert t == [w[2]] && t[1..] == [];
    assert ToLower(t) == [AsciiLower(w[2])];
    assert ToLower(w[1..]) == [AsciiLower(w[1]), AsciiLower(w[2])];
  }

  /** A three-letter token whose lower-case form is a table key selects that key's month */
  lemma MonthOfLetters(w: string, key: string, code: string)
    requires |w| == 3 && IsAsciiLetter(w[0]) && IsAsciiLetter(w[1]) && IsAsciiLetter(w[2])
    requires key == [AsciiLower(w[0]), AsciiLower(w[1]), AsciiLower(w[2])]
    requires key in MonthTable && MonthTable[key] == code
    ensures MonthOf(w) == code
  {
    MonthKeyOfLetters(w);
  }

  /* One lemma per English abbreviation, each selecting its month in the table */
  lemma JanKey(m: nat)
    requires m == 1
    ensures MonthOf(EnglishMonths[m - 1]) == MonthCode(m)
  {
    MonthOfLetters("Jan", "jan", "01");
  }

  lemma FebKey(m: nat)
    requires m == 2
    ensures MonthOf(EnglishMonths[m - 1]) == MonthCode(m)
  {
    MonthOfLetters("Feb", "feb", "02");
  }

  lemma MarKey(m: nat)
    requires m == 3
    ensures MonthOf(EnglishMonths[m - 1]) == MonthCode(m)
  {
    MonthOfLetters("Mar", "mar", "03");
  }

  lemma AprKey(m: nat)
    requires m == 4
    ensures MonthOf(EnglishMonths[m - 1]) == MonthCode(m)
  {
    MonthOfLetters("Apr", "apr", "04");
  }

  lemma MayKey(m: nat)
    requires m == 5
    ensures MonthOf(EnglishMonths[m - 1]) == MonthCode(m)
  {
    MonthOfLetters("May", "may", "05");
  }

  lemma JunKey(m: nat)
    requires m == 6
    ensures MonthOf(EnglishMonths[m - 1]) == MonthCode(m)
  {
    MonthOfLetters("Jun", "jun", "06");
  }

  lemma JulKey(m: nat)
    requires m == 7
    ensures MonthOf(EnglishMonths[m - 1]) == MonthCode(m)
  {
    MonthOfLetters("Jul", "jul", "07");
  }

  lemma AugKey(m: nat)
    requires m == 8
    ensures MonthOf(EnglishMonths[m - 1]) == MonthCode(m)
  {
    MonthOfLetters("Aug", "aug", "08");
  }

  lemma SepKey(m: nat)
    requires m == 9
    ensures MonthOf(EnglishMonths[m - 1]) == MonthCode(m)
  {
    MonthOfLetters("Sep", "sep", "09");
  }

  lemma OctKey(m: nat)
    requires m == 10
    ensures MonthOf(EnglishMonths[m - 1]) == MonthCode(m)
  {
    MonthOfLetters("Oct", "oct", "10");
  }

  lemma NovKey(m: nat)
    requires m == 11
    ensures MonthOf(EnglishMonths[m - 1]) == MonthCode(m)
  {
    MonthOfLetters("Nov", "nov", "11");
  }

  lemma DecKey(m: nat)
    requires m == 12
    ensures MonthOf(EnglishMonths[m - 1]) == MonthCode(m)
  {
    MonthOfLetters("Dec", "dec", "12");
  }

  /** Every English abbreviation selects its own month */
  lemma EnglishMonthKey(m: nat)
    requires 1 <= m <= 12
    ensures MonthOf(EnglishMonths[m - 1]) == MonthCode(m)
  {
    if m == 1 { JanKey(m); }
    else if m == 2 { FebKey(m); }
    else if m == 3 { MarKey(m); }
    else if m == 4 { AprKey(m); }
    else if m == 5 { MayKey(m); }
    else if m == 6 { JunKey(m); }
    else if m == 7 { JulKey(m); }
    else if m == 8 { AugKey(m); }
    else if m == 9 { SepKey(m); }
    else if m == 10 { OctKey(m); }
    else if m == 11 { NovKey(m); }
    else { DecKey(m); }
  }

  /** Tokens separated by single spaces come out as they went in */
  lemma ThreeTokens(a: string, b: string, c: string)
    requires a != [] && b != [] && c != []
    requires forall i :: 0 <= i < |a| ==> !IsSpace(a[i])
    requires forall i :: 0 <= i < |b| ==> !IsSpace(b[i])
    requires forall i :: 0 <= i < |c| ==> !IsSpace(c[i])
    ensures SplitSpaces(a + " " + b + " " + c) == [a, b, c]
  {
    SplitSpacesWord(c);
    SplitSpacesCons(b, " ", c);
    assert a + " " + b + " " + c == a + " " + (b + " " + c);
    SplitSpacesCons(a, " ", b + " " + c);
  }

  /** Removing the first period leaves a date without one as it is */
  lemma NoPeriodToRemove(day: string, abbr: string, year: string)
    requires AllDigits(day) && AllDigits(year) && '.' !in abbr
    ensures RemoveFirst(day + " " + abbr + " " + year, '.') == day + " " + abbr + " " + year
  {
    assert '.' !in day && '.' !in year;
    assert '.' !in day + " " + abbr + " " + year;
  }

  /** Removing the first period takes the one after the month abbreviation */
  lemma AbbreviationPeriodRemoved(day: string, abbr: string, year: string)
    requires AllDigits(day) && '.' !in abbr
    ensures RemoveFirst(day + " " + abbr + "." + " " + year, '.') == day + " " + abbr + " " + year
  {
    var s := day + " " + abbr + "." + " " + year;
    assert '.' !in day;
    assert s[|day| + 1 + |abbr|] == '.';
    assert s[..|day| + 1 + |abbr|] == day + " " + abbr;
    IndexOfAt(s, '.', |day| + 1 + |abbr|);
  }

  /** A date starting and ending with digits has nothing to trim */
  lemma DisplayDateTrimmed(day: string, abbr: string, year: string)
    requires day != [] && AllDigits(day)
    requires year != [] && AllDigits(year)
    ensures Trim(day + " " + abbr + " " + year) == day + " " + abbr + " " + year
  {
    var plain := day + " " + abbr + " " + year;
    assert !IsSpace(plain[0]) && !IsSpace(plain[|plain| - 1]);
    TrimFixed(plain);
  }

  /** Removing the first period and trimming leaves `D Mon YYYY` as it is and turns
      `D Mon. YYYY` into it */
  lemma CleanedDisplayDate(day: string, abbr: string, dotted: bool, year: string)
    requires day != [] && AllDigits(day)
    requires year != [] && AllDigits(year)
    requires '.' !in abbr
    ensures Cleaned(day + " " + abbr + (if dotted then "." else "") + " " + year)
              == day + " " + abbr + " " + year
  {
    if dotted {
      AbbreviationPeriodRemoved(day, abbr, year);
    } else {
      NoPeriodToRemove(day, abbr, year);
      assert day + " " + abbr + "" + " " + year == day + " " + abbr + " " + year;
    }
    DisplayDateTrimmed(day, abbr, year);
  }

  /** The tokens of `D Mon YYYY` and `D Mon. YYYY` are day, month and year */
  lemma DisplayDateTokens(day: string, abbr: string, dotted: bool, year: string)
    requires day != [] && AllDigits(day)
    requires year != [] && AllDigits(year)
    requires |abbr| == 3 && IsAsciiLetter(abbr[0]) && IsAsciiLetter(abbr[1]) && IsAsciiLetter(abbr[2])
    ensures Tokens(day + " " + abbr + (if dotted then "." else "") + " " + year) == [day, abbr, year]
  {
    assert '.' !in abbr && forall i :: 0 <= i < |abbr| ==> !IsSpace(abbr[i]);
    DigitsAreNotSpace(day);
    DigitsAreNotSpace(year);
    CleanedDisplayDate(day, abbr, dotted, year);
    ThreeTokens(day, abbr, year);
  }

  /** A display date `D Mon YYYY` or `D Mon. YYYY` with a three-letter month
      token becomes year, month field and the day padded to two digits */
  lemma DisplayDateToIso(day: string, abbr: string, dotted: bool, year: string, today: string)
    requires day != [] && AllDigits(day)
    requires year != [] && AllDigits(year)
    requires |abbr| == 3 && IsAsciiLetter(abbr[0]) && IsAsciiLetter(abbr[1]) && IsAsciiLetter(abbr[2])
    ensures ParseGermanDate(day + " " + abbr + (if dotted then "." else "") + " " + year, today)
              == year + "-" + MonthOf(abbr) + "-" + PadStart(day, 2, '0')
  {
    DisplayDateTokens(day, abbr, dotted, year);
  }

  /** With an English month abbreviation the month field is that month's number */
  lemma EnglishDateToIso(day: string, m: nat, dotted: bool, year: string, today: string)
    requires day != [] && AllDigits(day)
    requires year != [] && AllDigits(year)
    requires 1 <= m <= 12
    ensures ParseGermanDate(day + " " + EnglishMonths[m - 1] + (if dotted then "." else "") + " " + year, today)
              == year + "-" + MonthCode(m) + "-" + PadStart(day, 2, '0')
  {
    DisplayDateToIso(day, EnglishMonths[m - 1], dotted, year, today);
    EnglishMonthKey(m);
  }

  /** The calendar parser writes the day span and a month-year span `Mon. YYYY` as
      `D Mon. YYYY` */
  lemma ScrapedDateText(day: string, m: nat, year: string)
    requires day != [] && AllDigits(day)
    requires year != [] && AllDigits(year)
    requires 1 <= m <= 12
    ensures DateText(day, EnglishMonths[m - 1] + ". " + year) == day + " " + EnglishMonths[m - 1] + ". " + year
  {
    DigitsAreNotSpace(day);
    assert IsDigit(year[|year| - 1]);
    DigitsAreNotSpace(year);
    DateKeepsInteriorPeriods(day, EnglishMonths[m - 1], year);
  }

  lemma DottedAbbreviation(day: string, abbr: string, year: string)
    ensures day + " " + abbr + ". " + year == day + " " + abbr + (if true then "." else "") + " " + year
  {
  }

  lemma DottedDateToIso(day: string, m: nat, year: string, today: string)
    requires day != [] && AllDigits(day)
    requires year != [] && AllDigits(year)
    requires 1 <= m <= 12
    ensures ParseGermanDate(day + " " + EnglishMonths[m - 1] + ". " + year, today)
              == year + "-" + MonthCode(m) + "-" + PadStart(day, 2, '0')
  {
    EnglishDateToIso(day, m, true, year, today);
    DottedAbbreviation(day, EnglishMonths[m - 1], year);
  }

  /** The scraped date `D Mon. YYYY`, as the calendar parser writes it from the day
      span and the month-year span, imports as `YYYY-MM-DD` */
  lemma ScrapedDateToIso(day: string, m: nat, year: string, today: string)
    requires day != [] && AllDigits(day)
    requires year != [] && AllDigits(year)
    requires 1 <= m <= 12
    ensures ParseGermanDate(DateText(day, EnglishMonths[m - 1] + ". " + year), today)
              == year + "-" + MonthCode(m) + "-" + PadStart(day, 2, '0')
  {
    ScrapedDateText(day, m, year);
    DottedDateToIso(day, m, year, today);
  }

  /** The event fields the import hands to event creation */
  datatype EventInsert = EventInsert(
    name: string, date: string, location: Option<string>, distanceKm: Option<Float>,
    websiteUrl: string, officeId: Option<string>)

  /** The first comma-separated distance label, trimmed */
  function FirstDistance(distances: string): (token: string)
    ensures ',' !in token && Trimmed(token)
    ensures token == Trim(distances[..IndexOf(distances, ',')])
  {
    SplitHead(distances, ',');
    Trim(Split(distances, ',')[0])
  }

  /** The number read from the first distance label; `None` when it is NaN */
  function ImportDistance(distances: string): (d: Option<Float>)
    ensures d == ParseFloat(FirstDistance(distances))
  {
    ParseFloat(ReplaceFirst(FirstDistance(distances), ',', '.'))
  }

  /** The location written back as `postal city`, or nothing when the city is empty */
  function ImportLocation(race: ExternalRace): (loc: Option<string>)
    ensures loc.None? <==> race.location == []
    ensures loc.Some? ==> Trimmed(loc.value)
  {
    if race.location == [] then None else Some(Trim(race.postalCode + " " + race.location))
  }

  /** `handleAddExternal`: the event created for a scraped race while the office
      filter is `selectedOffice`, on the day `today` */
  function ToEventInsert(race: ExternalRace, selectedOffice: Option<string>, today: string): (e: EventInsert)
    ensures e.name == race.name && e.websiteUrl == race.url && e.officeId == selectedOffice
    ensures e.location.None? <==> race.location == []
    ensures race.location != [] ==> e.location == Some(Trim(race.postalCode + " " + race.location))
    ensures e.date == ParseGermanDate(race.date, today)
    ensures e.distanceKm == ParseFloat(FirstDistance(race.distances))
  {
    EventInsert(race.name, ParseGermanDate(race.date, today), ImportLocation(race),
                ImportDistance(race.distances), race.url, selectedOffice)
  }

  /** Trimming drops the one space in front of trimmed text */
  lemma TrimAfterSpace(t: string)
    requires Trimmed(t) && t != []
    ensures Trim(" " + t) == t
  {
    var joined := " " + t;
    TrimOf(joined, 1, |joined|);
    assert joined[1..] == t;
  }

  /** Nothing to trim around `postal city` when the code starts with a digit and
      the city ends in a non-space */
  lemma TrimPostalCity(postal: string, city: string)
    requires postal != [] && IsDigit(postal[0])
    requires city != [] && !IsSpace(city[|city| - 1])
    ensures Trim(postal + " " + city) == postal + " " + city
  {
    var joined := postal + " " + city;
    assert joined[0] == postal[0] && joined[|joined| - 1] == city[|city| - 1];
    TrimFixed(joined);
  }

  /** The location of an imported race: a city without postal code comes back as
      the scraped text; with a postal code, the white space between code and city
      becomes a single space */
  lemma ImportedLocation(race: ExternalRace, text: string)
    requires Trimmed(text)
    requires SplitPostal(text) == Place(race.postalCode, race.location)
    ensures race.location == [] ==> ImportLocation(race).None?
    ensures race.location != [] && race.postalCode == [] ==> ImportLocation(race) == Some(text)
    ensures race.location != [] && race.postalCode != [] ==>
              ImportLocation(race) == Some(text[..|race.postalCode|] + " " + text[|text| - |race.location|..])
  {
    var p := SplitPostal(text);
    if race.location != [] && race.postalCode != [] {
      ImportPostalCity(race, text);
    } else if race.location != [] {
      ImportCityAlone(race);
    }
  }

  /** Without a postal code the location is the trimmed city */
  lemma ImportCityAlone(race: ExternalRace)
    requires Trimmed(race.location) && race.location != [] && race.postalCode == []
    ensures ImportLocation(race) == Some(race.location)
  {
    TrimAfterSpace(race.location);
    assert race.postalCode + " " + race.location == " " + race.location;
  }

  /** With both parts present the location is code, one space and city */
  lemma ImportPostalCity(race: ExternalRace, text: string)
    requires Trimmed(text) && race.location != [] && AllDigits(race.postalCode) && race.postalCode != []
    requires |race.location| <= |text| && text[|text| - |race.location|..] == race.location
    ensures ImportLocation(race) == Some(race.postalCode + " " + race.location)
  {
    var postal, city := race.postalCode, race.location;
    assert city[|city| - 1] == text[|text| - 1];
    assert IsDigit(postal[0]);
    TrimPostalCity(postal, city);
  }

  /** The first distance of `first` followed by nothing or by more comma-separated
      labels is `first` itself, when it is trimmed and has no comma */
  lemma FirstDistanceOf(first: string, tail: string)
    requires ',' !in first && Trimmed(first)
    requires tail == [] || tail[0] == ','
    ensures FirstDistance(first + tail) == first
  {
    var s := first + tail;
    assert s[..|first|] == first;
    IndexOfAt(s, ',', |first|);
    TrimFixed(first);
  }

  /** A first distance `N km` imports as the number `N` */
  lemma ImportWholeKilometres(n: nat, tail: string)
    requires tail == [] || tail[0] == ','
    ensures ImportDistance(NatToString(n) + " km" + tail) == Some(Finite(n as real))
  {
    var first := NatToString(n) + " km";
    assert ',' !in NatToString(n);
    assert IsDigit(first[0]);
    FirstDistanceOf(first, tail);
    ParseFloatOfNat(n, " km");
  }

  /** A number read from the digits of `n` alone is `n` */
  lemma ParseFloatOfDigits(n: nat)
    ensures ParseFloat(NatToString(n)) == Some(Finite(n as real))
  {
    ParseFloatOfNat(n, []);
    assert NatToString(n) + [] == NatToString(n);
  }

  /** The list is split at commas before the comma-to-period replacement, so a
      decimal comma never reaches the number reader: `N,F` imports as `N` */
  lemma DecimalCommaKeepsWholePart(n: nat, fraction: string)
    ensures ImportDistance(NatToString(n) + ("," + fraction)) == Some(Finite(n as real))
  {
    var first := NatToString(n);
    assert ',' !in first;
    assert IsDigit(first[0]) && IsDigit(first[|first| - 1]);
    FirstDistanceOf(first, "," + fraction);
    ParseFloatOfDigits(n);
  }
}

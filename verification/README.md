# builttorun core in Dafny

This is a model of the pure logic in the team running app. The rest of the app is React screens and Supabase calls. The model covers six pieces:

- **Calendar parser.** It reads the external race calendar of runnersworld.de. It picks the page URL to fetch and turns every calendar anchor into an `ExternalRace`: a trimmed date text, the postal code split off the location, and an absolute URL.
- **Race import.** It turns a scraped race into a team event. The display date `16 Feb. 2026` becomes `2026-02-16`, the location is rebuilt from postal code and city, and the first listed distance becomes a number.
- **Screenshot readers.** These read a distance, a finishing time and a race name out of the text that character recognition found on a result screenshot.
- **Durations.** `formatTime` writes whole seconds as `H:MM:SS` or `M:SS`, and `parseTimeToSeconds` reads such text back.
- **Leaderboards.** The individual board and the office board group race rows by runner or by office. Each entry sums the scored distances and counts the races, and the board is sorted by total, largest first.
- **Participation toggle.** One status per (event, runner) pair. Choosing the status the pair already has removes it; choosing any other status sets it.

Modules, one per file:

- `Wrappers`: `Option`, `Result`.
- `Text`: JavaScript white space, `trim`, `split`, `padStart`, `toLowerCase` and ASCII case folding.
- `Numerals`: digit strings, `String(n)` and `parseFloat`.
- `RaceScraper`, `EventImport`, `Ocr`, `Formatting`, `Participation`: the pieces above.
- `Sorting`: the stable descending sort.
- `Grouping`: the generic group-by fold behind both boards, with its reference definitions.
- `Leaderboard`: the two boards.

Regular expressions are modelled as a predicate "the pattern matches at position i", plus a leftmost search (`Ocr.Leftmost`). A non-global `match` or `test` returns exactly that leftmost position.

Abstracted inputs:

- The DOM becomes one record per matching anchor. An anchor whose extraction throws is `Unreadable`.
- The clock becomes a `today` parameter.
- The database query result becomes a sequence of joined rows.
- The signed-in user becomes an optional id.

## Model

| member | source | states |
|---|---|---|
| RaceScraper.PageUrl | src/lib/race-scraper.ts:19-21 | Every page URL lies under `/laufkalender/`. The URL is the fixed calendar URL exactly when the page is 1; any other page gives `/laufkalender/seite/<page>/?q=`. |
| RaceScraper.PageUrlInjective | src/lib/race-scraper.ts:19-21 | Two page numbers with the same URL are the same page. |
| RaceScraper.PageDigits | src/lib/race-scraper.ts:21 | For any page but the first, the URL's path reads `seite/`, then the page number, then `/?q=`, so the number can be read back from between the two. |
| RaceScraper.TextOf | src/lib/race-scraper.ts:59 | The text of an element is trimmed, and a missing element gives `""`. |
| RaceScraper.DateText | src/lib/race-scraper.ts:50-55 | The date text is trimmed. Day and month-year are joined by one space when neither has stray white space at the join ends and no final period. |
| RaceScraper.DateKeepsInteriorPeriods | src/lib/race-scraper.ts:55 | `D` and `Mon. YYYY` give `D Mon. YYYY`: a period inside the text stays. |
| RaceScraper.DateDropsFinalPeriod | src/lib/race-scraper.ts:55 | One period at the very end of the joined date is removed. |
| RaceScraper.SplitPostal | src/lib/race-scraper.ts:61-67 | The postal code is the whole leading digit run, the city is the rest after the white space that follows it, and the white space between them is all that is dropped. Without a match the code is `""` and the city is the whole text. A text starting with a digit and holding no line break always matches. |
| RaceScraper.ResolveHref | src/lib/race-scraper.ts:75-76 | An href starting with `http` is kept unchanged. Any other href, the empty one included, is appended to the site origin. The result always starts with `http` and ends with the href; a relative href gives exactly origin followed by href. |
| RaceScraper.CardRace | src/lib/race-scraper.ts:50-79 | A readable anchor's record: name from the headline, date as `DateText` of the first two spans, postal code and city as `SplitPostal` of the subline, distances as the trimmed paragraph text, URL as the resolved href. A missing date div, subline or distance paragraph gives `""`; a missing href gives the origin. |
| RaceScraper.ParseRaces | src/lib/race-scraper.ts:38-87 | The parser emits one record per yielding anchor, so at most one per anchor. |
| RaceScraper.ParseRacesWellFormed | src/lib/race-scraper.ts:78-80 | Every emitted record has a non-empty trimmed name, a trimmed date and an absolute URL. |
| RaceScraper.ParseRacesAppend | src/lib/race-scraper.ts:46-86 | Anchors are handled one at a time: the records of a concatenation are the concatenated records, in anchor order. |
| RaceScraper.SkipsNonYielding | src/lib/race-scraper.ts:48-84 | An anchor that throws or has no headline text leaves the records of all other anchors as they were. |
| RaceScraper.AllYielding | src/lib/race-scraper.ts:78-80 | When every anchor has headline text, there are as many records as anchors. |
| EventImport.MonthOf | src/pages/events.tsx:247-258 | The month field is always one of `01`..`12`. It is `01` when the first three lower-case characters of the token are not a table key. |
| EventImport.ParseGermanDate | src/pages/events.tsx:243-262 | Fewer than three tokens of the cleaned text give the current date; otherwise the result is laid out as `year-month-day` from the third token, the month field of the second and the first padded to two characters. |
| EventImport.IsoOf | src/pages/events.tsx:253-261 | Fewer than three tokens give the current date. Otherwise the result is `year-month-day`: the third token verbatim, the month field of the second, and the first padded with `0` to two characters. Later tokens are ignored. |
| EventImport.EnglishMonthKey | src/pages/events.tsx:247-251 | Each English abbreviation `Jan`..`Dec` selects its own month number. |
| EventImport.CleanedDisplayDate | src/pages/events.tsx:252 | Removing the first period and trimming turns `D Mon. YYYY` into `D Mon YYYY` and leaves `D Mon YYYY` as it is. |
| EventImport.DisplayDateToIso | src/pages/events.tsx:246-262 | `D Mon YYYY` and `D Mon. YYYY`, for any three-letter month token, both give `YYYY-` + the month field + `-` + the padded day. |
| EventImport.EnglishDateToIso | src/pages/events.tsx:243-262 | `16 Feb 2026` and `16 Feb. 2026` both give `2026-02-16`, and likewise for every English month and any digit day and year. |
| EventImport.ScrapedDateToIso | src/pages/events.tsx:243-262 | The date text the calendar parser builds from a day span and a `Mon. YYYY` span imports as `YYYY-MM-DD`. |
| EventImport.FirstDistance | src/pages/events.tsx:37 | The first distance label is the trimmed text before the first comma. It holds no comma. |
| EventImport.ImportDistance | src/pages/events.tsx:37-38 | The imported distance is `parseFloat` of the first label, NaN included: the comma-to-period replacement never changes a label already cut at its first comma. |
| EventImport.ImportLocation | src/pages/events.tsx:46 | The location is absent exactly when the city is empty. Otherwise it is trimmed. |
| EventImport.ImportedLocation | src/pages/events.tsx:46 | A city without postal code comes back as the scraped location text. With a postal code, the white space between code and city becomes one space. |
| EventImport.ToEventInsert | src/pages/events.tsx:35-50 | Name and website come from the race, and the office is the selected filter. The location is absent exactly when the city is empty, and otherwise is postal code, a space and city, trimmed. The date is the normalised date, and the distance is the number read from the first label (absent when NaN). |
| EventImport.ImportWholeKilometres | src/pages/events.tsx:37-47 | A list starting `N km` imports the distance N. |
| EventImport.DecimalCommaKeepsWholePart | src/pages/events.tsx:37-38 | The list is split at commas before the comma-to-period replacement, so `N,F` imports as N. |
| Ocr.ParseDistance | src/hooks/use-ocr.ts:11-43 | Every distance the reader returns lies in (0, 200]. |
| Ocr.MarathonWins | src/hooks/use-ocr.ts:24 | The whole word `marathon` in any case, with no `half` anywhere, gives 42.195 before any number is read. |
| Ocr.HalfMarathonWins | src/hooks/use-ocr.ts:25 | `half`, optional white space and `marathon` give 21.1, whatever else the text holds. |
| Ocr.FirstNumber | src/hooks/use-ocr.ts:27-33 | Any value returned lies in (0, 200]. |
| Ocr.FirstNumberPassesOn | src/hooks/use-ocr.ts:27-33 | A pattern whose leftmost match reads as NaN or a value outside (0, 200] hands over to the next pattern; no later match of the same pattern is tried. |
| Ocr.FirstNumberTakes | src/hooks/use-ocr.ts:27-31 | A pattern whose leftmost match reads as a value in (0, 200] gives that value. |
| Ocr.BareKilometres | src/hooks/use-ocr.ts:36-40 | The `5k` fallback returns only values in (0, 200]. |
| Ocr.IntegerCaptureValue | src/hooks/use-ocr.ts:30 | A whole-number capture reads as the value of its digits. |
| Ocr.DecimalCaptureValue | src/hooks/use-ocr.ts:30 | A decimal capture reads as the same number whether its separator is a comma or a period. |
| Ocr.KilometresRead | src/hooks/use-ocr.ts:11-43 | `N km` reads as N for every whole N in (0, 200]. |
| Ocr.Leftmost | src/hooks/use-ocr.ts:28 | The search returns the first position where the pattern matches, or the text length when there is none. |
| Ocr.HourDigits | src/hooks/use-ocr.ts:48-49 | `\d{1,2}` followed by `:` takes two digits whenever two digits and a colon follow, one exactly when only one digit and a colon do, and none when neither is there. |
| Ocr.HmsAt | src/hooks/use-ocr.ts:48 | A match exists exactly when one or two hour digits, `:`, two digits, `:` and two digits stand at the position. The three groups are those pieces of the text, and the hour has one or two digits, minutes and seconds two each. |
| Ocr.MsAt | src/hooks/use-ocr.ts:49 | A match exists exactly when one or two minute digits, `:`, two digits and a word boundary stand at the position. The two groups are those pieces of the text: minutes of one or two digits, seconds of two. |
| Ocr.HmsReading | src/hooks/use-ocr.ts:57 | The reading of an `H:MM:SS` match has the shape `dd:dd:dd`, its hour field has the value of the matched hour, and the minutes and seconds are the matched ones. |
| Ocr.MsReading | src/hooks/use-ocr.ts:62 | The reading of an `M:SS` match has the shape `dd:dd:dd`, starts `00:`, its minute field has the value of the matched minutes, and the seconds are the matched ones. |
| Ocr.ParseTime | src/hooks/use-ocr.ts:45-68 | Every time the reader returns is eight characters shaped `dd:dd:dd`. |
| Ocr.HmsPreferred | src/hooks/use-ocr.ts:47-57 | When an `H:MM:SS` occurs, the leftmost one is read, whatever `M:SS` matches the text also holds. |
| Ocr.MsFallback | src/hooks/use-ocr.ts:49-64 | Without `H:MM:SS`, the leftmost `M:SS` is read when its minutes are below 60, and the result is null when they are not. |
| Ocr.NoTimeFound | src/hooks/use-ocr.ts:66-67 | Text matching neither pattern has no time. |
| Ocr.HoursMinutesSecondsRead | src/hooks/use-ocr.ts:48-57 | `H:MM:SS` or `HH:MM:SS` on its own reads with the hour padded to two digits and minutes and seconds unchanged. |
| Ocr.ParseTimeIdempotent | src/hooks/use-ocr.ts:45-68 | A time the reader returned reads back as itself. |
| Ocr.ParsedTimeReadable | src/hooks/use-ocr.ts:57-62 | Every time the reader returns is accepted by `parseTimeToSeconds`, as the hours, minutes and seconds it shows. |
| Ocr.MinutesSecondsRead | src/hooks/use-ocr.ts:60-63 | `M:SS` or `MM:SS` with minutes below 60 reads as `00:`, the minutes padded to two digits, `:` and the seconds. |
| Ocr.TwoDigitMinutesRead | src/hooks/use-ocr.ts:60-63 | `MM:SS` with minutes below 60 reads as `00:MM:SS`. |
| Ocr.LongMinutesRejected | src/hooks/use-ocr.ts:60-67 | `MM:SS` with minutes of 60 or more is no time. |
| Ocr.Candidates | src/hooks/use-ocr.ts:71 | The kept lines are exactly the lines longer than three characters once trimmed. |
| Ocr.CandidatesAppend | src/hooks/use-ocr.ts:71 | The filter works line by line and keeps the order: filtering joined lines joins the filtered parts. |
| Ocr.CandidatesSingle | src/hooks/use-ocr.ts:71 | A single line is kept exactly when it is longer than three characters once trimmed. |
| Ocr.FirstAccepted | src/hooks/use-ocr.ts:74-79 | The search returns the first candidate that is neither date-like nor over 80 characters, or the count when there is none. |
| Ocr.ParseRaceName | src/hooks/use-ocr.ts:70-83 | There is no name exactly when no line is longer than three characters once trimmed. Any name is more than 3 and at most 80 characters. |
| Ocr.NameIsFirstAccepted | src/hooks/use-ocr.ts:74-79 | The name is the first acceptable candidate, trimmed. |
| Ocr.NameFallsBackToFirst | src/hooks/use-ocr.ts:80 | Without an acceptable candidate, the name is the first candidate trimmed and cut to 80 characters. |
| Ocr.SingleLineName | src/hooks/use-ocr.ts:70-83 | A single trimmed line of 4 to 80 characters that does not start like a date is read back unchanged. |
| Formatting.ClockOf | src/lib/formatting.ts:2-4 | Minutes and seconds are below 60. The fields add up to the total. Hours are positive exactly from 3600 seconds on. |
| Formatting.Pad2 | src/lib/formatting.ts:7 | A padded field is digits only. Below 100 it is two digits with the same value. |
| Formatting.FormatClock | src/lib/formatting.ts:6-10 | The text holds a colon. Split at its colons it gives the unpadded hours and the two-digit minutes and seconds when there are hours, else the unpadded minutes and two-digit seconds. |
| Formatting.FormatTime | src/lib/formatting.ts:1-10 | From one hour on, the output splits at colons into unpadded hours and two-digit minutes and seconds of the clock reading. Below one hour it splits into unpadded minutes and two-digit seconds. |
| Formatting.NumberOf | src/lib/formatting.ts:13 | A field is a number exactly when it is digits only. The empty field reads as 0. |
| Formatting.ParseTimeToSeconds | src/lib/formatting.ts:12-23 | A result exists only for two or three colon-separated fields, all of them digits. |
| Formatting.ParseHms | src/lib/formatting.ts:16-18 | `h:m:s` reads as `h*3600 + m*60 + s`, with no range check on the fields. |
| Formatting.ParseMs | src/lib/formatting.ts:19-21 | `m:s` reads as `m*60 + s`. |
| Formatting.ParseWrongFieldCount | src/lib/formatting.ts:22 | One field, or four or more, give no result. |
| Formatting.ParseNonNumericField | src/lib/formatting.ts:13-14 | A field that is not a number gives no result. |
| Formatting.ClockRoundTrip | src/lib/formatting.ts:1-23 | Reading back the text written for fields with minutes and seconds below 60 gives the seconds those fields stand for. |
| Formatting.FormatParseRoundTrip | src/lib/formatting.ts:1-23 | `parseTimeToSeconds(formatTime(n)) == n` for every whole n >= 0. |
| Sorting.SortIsDescending | src/hooks/use-leaderboard.ts:85-86 | The sorted board is in non-increasing order of the key. |
| Sorting.SortPermutes | src/hooks/use-leaderboard.ts:85-86 | The sorted board is a rearrangement of its input. |
| Sorting.SortIsStable | src/hooks/use-leaderboard.ts:85-86 | Elements with equal keys keep their relative order. |
| Sorting.SortKeepsTotal | src/hooks/use-leaderboard.ts:85-86 | Sorting keeps the sum of the keys. |
| Sorting.SortTiesRanked | src/hooks/use-leaderboard.ts:85-86 | Ties that were in rank order before the sort are in rank order after it. |
| Grouping.Fold | src/hooks/use-leaderboard.ts:67-83 | The map and its insertion order agree: one distinct key per entry, each keying its own tally. |
| Grouping.FoldSummarises | src/hooks/use-leaderboard.ts:67-83 | After the loop a key is in the map exactly when a row has it. Its tally then sums the rows of the key, counts them, and keeps the fields of the key's first row. |
| Grouping.FoldOrder | src/hooks/use-leaderboard.ts:85 | The map's insertion order is the order of the keys' first rows. |
| Grouping.FoldConserves | src/hooks/use-leaderboard.ts:67-85 | The map's totals add up to the distances of all rows. |
| Grouping.BoardDescending | src/hooks/use-leaderboard.ts:85-86 | The board is in non-increasing order of total. |
| Grouping.BoardSummarises | src/hooks/use-leaderboard.ts:67-86 | Every board entry sums and counts the rows of its key and takes its fields from the key's first row. |
| Grouping.BoardOnePerKey | src/hooks/use-leaderboard.ts:57-86 | The board holds exactly one entry for each key among the rows, and none for any other key. |
| Grouping.BoardConserves | src/hooks/use-leaderboard.ts:67-86 | The board's totals add up to the distances of all rows. |
| Grouping.BoardTiesKeepFirstAppearance | src/hooks/use-leaderboard.ts:85-86 | Entries with equal totals stand in the order of their keys' first rows. |
| Leaderboard.OccursIffRaced | src/hooks/use-leaderboard.ts:67-73 | A runner is grouped exactly when the runner has a race. |
| Leaderboard.IndividualDescending | src/hooks/use-leaderboard.ts:85-86 | The individual board is in non-increasing order of total scored distance. |
| Leaderboard.IndividualOnePerRunner | src/hooks/use-leaderboard.ts:57-85 | The individual board has exactly one entry per runner with a race, and none for anybody else. |
| Leaderboard.IndividualEntries | src/hooks/use-leaderboard.ts:67-81 | Each runner's entry counts the runner's races and sums their scored distances. Name, avatar and office come from the runner's first race. |
| Leaderboard.UnknownRunner | src/hooks/use-leaderboard.ts:72-81 | A runner whose first race has no profile is listed as `Unknown`, with no avatar and no office. |
| Leaderboard.IndividualConserves | src/hooks/use-leaderboard.ts:67-86 | The individual totals add up to the scored distance of all races. |
| Leaderboard.IndividualTies | src/hooks/use-leaderboard.ts:85-86 | Runners with equal totals are listed in the order of their first races. |
| Leaderboard.MemberFoldMeets | src/hooks/use-leaderboard.ts:142-147 | The member map has a set exactly for each office with a counted race. That set is the office's distinct truthy `profiles.office_id` values. |
| Leaderboard.WithMembers | src/hooks/use-leaderboard.ts:150-155 | Each entry's member count is the size of its office's set, or 0 without one. All other fields are unchanged. |
| Leaderboard.OfficeEntries | src/hooks/use-leaderboard.ts:122-155 | Each office entry counts the office's races and sums their scored distances. It takes id, name, location and colour from the office's first counted race, and counts its distinct truthy `profiles.office_id` values. |
| Leaderboard.OfficeDescending | src/hooks/use-leaderboard.ts:157-158 | The office board is in non-increasing order of total scored distance. |
| Leaderboard.OfficeOnePerOffice | src/hooks/use-leaderboard.ts:122-141 | The office board has exactly one entry per office with a counted race, and none for any other id. |
| Leaderboard.OfficeConserves | src/hooks/use-leaderboard.ts:122-141 | The office totals add up to the scored distance of the races whose runner has an office. |
| Leaderboard.OfficeTies | src/hooks/use-leaderboard.ts:157-158 | Offices with equal totals are listed in the order of their first counted races. |
| Leaderboard.NoOfficeSkipped | src/hooks/use-leaderboard.ts:123-124 | A race whose runner has no office leaves the office board as it was. |
| Leaderboard.JoinedMembers | src/hooks/use-leaderboard.ts:145-146 | When the join gives each race the office its profile points to, the only id an office can collect is its own. |
| Leaderboard.MemberCountAtMostOne | src/hooks/use-leaderboard.ts:145-146 | As written, with such a join every office reports at most one member. |
| Participation.Toggle | src/hooks/use-events.ts:79-109 | It fails exactly when nobody is signed in. Toggling the pair's current status removes the row and resolves with no row. Any other toggle, or none before, leaves the row with the requested status and resolves with it. No other pair changes. |
| Participation.ToggleTwiceRestores | src/hooks/use-events.ts:89-105 | Toggling the same status twice, starting without a row, gives the table back. |
| Participation.SwitchKeepsOneRow | src/hooks/use-events.ts:99-105 | Switching from one status to another keeps the same pairs, with the new status on the switched pair. |
| Text.Trim | src/lib/race-scraper.ts:59 | `trim` returns the text between the leading and trailing white-space runs. It is empty exactly when the text is all white space. |
| Text.TrimmedIsFixed | src/lib/race-scraper.ts:55 | `trim` leaves a text unchanged exactly when it has no white space at either end. |
| Text.Split | src/lib/formatting.ts:13 | The pieces hold no separator and join back into the text. |
| Text.SplitJoin | src/lib/formatting.ts:13 | Splitting undoes joining when no part holds the separator. |
| Text.PadStart | src/pages/events.tsx:256 | Padding keeps the text at the end, fills in front with the fill character, and reaches the width unless the text is longer. |
| Numerals.NatToStringRoundTrip | src/lib/formatting.ts:7 | The decimal digits of n read back as n. |
| Numerals.IntToStringInjective | src/lib/race-scraper.ts:21 | Different integers are written differently. |
| Numerals.ParseFloatOfDecimal | src/hooks/use-ocr.ts:30 | `parseFloat` of `whole.frac` is the value of the decimal numeral. |
| Numerals.ParseFloatNoNumber | src/pages/events.tsx:38-47 | Text starting with no digit, point, sign or `I` after white space reads as NaN. |

## Left out

- Fetching through the CORS proxy, the `res.ok` check and `encodeURIComponent` (`fetchExternalRaces`) are network and browser APIs. Only the page URL is modelled.
- `DOMParser` and `querySelector` are browser APIs. Their results are the fields of an `Anchor` record, and an extraction that throws is `Unreadable`.
- Character recognition itself and the hook's React state (`useOcr`) are a foreign engine and UI state.
- Supabase queries, their error results, the `maybeSingle` read and the query invalidation are database I/O. The toggle is modelled over a map from (event, runner) to status, and the boards over the rows the query returned.
- The period filter (`getStartDate`, the `gte('date', …)` clause) depends on the clock and the database. The board functions take the rows it selected.
- When `parseGermanDate` has fewer than three tokens, it gives the current date. The model takes that date as the parameter `today`.
- Floating point is left out. Distances, totals and parsed numbers are reals, so rounding in sums and in `parseFloat` is not modelled. `Number(scored_distance_km)` is taken as the distance itself, so a NaN distance is not modelled.
- The March key of the month table is kept as the source file holds it: four characters, which no three-character key can match. No property is stated about German March dates.
- Formatting.NumberOf: `Number` is modelled only for fields of digits or empty fields. Fields such as ` 5`, `1e3` or `0x1` read as NaN in the model but as numbers in JavaScript.
- Formatting.FormatTime: negative and fractional seconds are not modelled; the input is a natural number.
- Strings are sequences of code points, while JavaScript counts UTF-16 code units. Lengths (`length > 3`, `<= 80`, `slice(0, 80)`) differ for characters outside the Basic Multilingual Plane.
- Text.ToLower: only ASCII, Latin-1, KELVIN SIGN and LATIN CAPITAL LETTER I WITH DOT ABOVE are lowered. No other mapping can produce an ASCII character, so no regular expression or month key in this model is affected.
- Ocr.ParseDistance: the returned value is a real. The (0, 200] bound and the pattern order are modelled, but not the exact float `parseFloat` would give.
- The member count adds the office's own id at line 146, not the runner's. The model keeps that, and `Leaderboard.MemberCountAtMostOne` states its effect.
- Toggling a different status twice does not restore the table: the first toggle overwrites the old status. `Participation.ToggleTwiceRestores` therefore starts without a row.

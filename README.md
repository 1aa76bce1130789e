# retain, modelled in Dafny

`retain` reads snapshot names with timestamps on standard input and a
retention specification such as `y5 m24 w8 d21 h72`. That one keeps the
newest snapshot of each of the five most recent years that hold a snapshot,
and likewise of 24 months, eight ISO weeks, 21 days and 72 hours. A year,
month, week, day or hour that holds no snapshot uses up no place. It prints, in ascending order, the names of the snapshots that no
retention keeps, so that a caller can delete them.

This project models that decision in Dafny:

- `Periods` and `Civil`: the period a timestamp falls in, `Retention.Align`.
  Hourly and daily periods round down to the duration, with Go's
  `Time.Truncate`, which counts from the zero time 0001-01-01. Monthly and
  yearly retentions have no duration, so the period is decided by the
  month or year of the key alone. Weekly periods are ISO 8601 weeks (section
  4.1.4 of ISO 8601:2004): weeks start on Monday, and the week-year can
  differ from the calendar year. A key is a datatype (hour, day, ISO week,
  month, year) standing for the text Go's layouts would print. The calendar
  (days to civil date, ISO week) is written out in integer arithmetic.
- `Retentions`: the `Retention` class. Its fixed policy is alias, duration
  and keep count, and `snaps` is the map from period key to the snapshot
  kept for it. `Align` includes the weekly walk back to the Monday. `Claim`
  offers one snapshot. `ClaimAll` is the functional specification of
  offering a whole sequence of snapshots to one retention, and the lemmas
  about it state the capacity bound, first-snapshot-wins, the
  first-distinct-periods property, and that a retention offered snapshots
  newest first keeps the most recent periods.
- `Text` and `SpecParser`: `getRetentionsFromSpec`. This covers Go's
  `strings.Fields`, `len` as UTF-8 bytes, and `strconv.Atoi` and `Itoa` with
  the 64-bit `int` range. The parser refuses a field under two bytes or one
  with an invalid count, and silently drops other letters. One lemma parses
  back any specification the model formats.
- `Snapshots`: `snapSorter` and `sort.Sort(sort.Reverse(...))`. The sort is
  an in-place insertion sort on the shared array and is proved newest-first
  and a permutation.
- `StringOrder`: Go's byte-wise string order and `sortedKeys`.
- `Engine`: the run after parsing. It reads the snapshots, sorts them,
  claims periods through the retention objects, and releases the
  unclaimed names. The keep and kill maps are proved to partition the
  names.

Times are Unix seconds in UTC. A day number is the floor of seconds divided
by 86400.

## Model

| member | source | states |
|---|---|---|
| `Periods.DurationOf` | main.go:104-118 | definition of the duration the parser gives each alias: an hour, a day, seven days, and none for monthly and yearly; stated by `DefaultSpec` and `ParseField` (a parsed retention is `WellFormed`) |
| `Periods.IsoWeekAt` | main.go:59-66 | definition of `Time.ISOWeek` on a timestamp: the ISO week of its UTC day; stated by `WeeklyStartIsMonday`, `SameWeekStartIff` and the `Civil` week lemmas |
| `Periods.Truncate` | main.go:71 | definition of Go's `Time.Truncate` on whole seconds: no change for d <= 0, else t minus its remainder modulo d counted from the zero time; stated by `TruncateRoundsDown` |
| `Periods.FormatKey` | main.go:72 | definition of `Format` with the hourly, daily, monthly and yearly layouts: the fields of the civil date (and hour) those layouts print; stated by `HourlyPeriod`, `DailyKey`, `MonthlyPeriod` and `YearlyPeriod` |
| `Periods.PeriodStart` | main.go:54-73 | definition of `Align`'s first result: the week's Monday midnight for weekly, else `Truncate` by the duration; stated by the `*Period` lemmas and `WeeklyStartIsMonday` |
| `Periods.PeriodKeyOf` | main.go:54-73 | definition of `Align`'s second result: the ISO (year, week) for weekly, else `FormatKey` of the truncated time; stated by the `*Period`/`*Key` lemmas |
| `Periods.TruncateRoundsDown` | main.go:71 | `Truncate(t, d)` is the greatest multiple of d, counted from Go's zero time, that is not after t: start <= t < start + d |
| `Periods.HourlyPeriod` | main.go:71-72 | hourly: start is t rounded down to the hour; two times get the same key exactly when they fall in the same hour |
| `Periods.DailyPeriod` | main.go:71-72 | daily: start is t rounded down to midnight, start <= t < start + day; same key exactly when the same day |
| `Periods.DailyKey` | main.go:71-72 | daily: the key is the civil date of t's day |
| `Periods.MonthlyPeriod` | main.go:71-72 | monthly (no duration): start == t, and the key is (y, m) exactly when t's day lies inside month m of year y |
| `Periods.YearlyPeriod` | main.go:71-72 | yearly (no duration): start == t, and the key is year y exactly when t's day lies inside year y |
| `Periods.WeeklyStartIsMonday` | main.go:57-65 | weekly: the start is midnight of a Monday, at most six days before t, in t's ISO week; the day before it is in another ISO week |
| `Periods.WeeklyKeyIff` | main.go:59-67 | weekly: two times share a key exactly when their weeks start on the same Monday |
| `Periods.SameWeekStartIff` | main.go:59-67 | two times are in the same ISO week exactly when their week starts coincide |
| `Periods.WeeklyKeyAcrossNewYear` | main.go:59-67 | 2024-12-30 and 2025-01-02 are both week 1 of 2025; 2024-12-29 is week 52 of 2024 |
| `Periods.WeekOneOf2025` | main.go:59-60 | the ISO weeks of the day numbers of 2024-12-29, 2024-12-30 and 2025-01-02 |
| `Civil.YearOf` | main.go:72 | the year holding day z: YearStart(y) <= z < YearStart(y + 1) |
| `Civil.YearOfUnique` | main.go:72 | that year is the only one with this property |
| `Civil.MonthOf` | main.go:72 | the month holding a day of the year: its first day <= yday < next month's first day |
| `Civil.CivilFromDays` | main.go:72 | the civil date of day z is a valid date whose day number is z |
| `Civil.CivilFromDaysOfDate` | main.go:72 | every valid date round-trips through its day number |
| `Civil.CivilFromDaysInjective` | main.go:72 | two days have the same date exactly when they are the same day |
| `Civil.InMonthIff` | main.go:72 | day z is in month m of year y exactly when it lies between that month's first day and the next |
| `Civil.InYearIff` | main.go:72 | day z is in year y exactly when YearStart(y) <= z < YearStart(y + 1) |
| `Civil.IsoWeekday` | main.go:59-60 | the ISO weekday is between 1 (Monday) and 7 |
| `Civil.IsoWeekOf` | main.go:59-60 | the ISO week number is between 1 and 53 |
| `Civil.IsoWeekFromThursday` | main.go:59-60 | a day's ISO week is the week, within its Thursday's year, that holds that Thursday |
| `Civil.JanuaryFourthInWeekOne` | main.go:59-60 | January 4th is always in week 1 of its own year |
| `Civil.PreviousDaySameWeek` | main.go:59-60 | the day before z is in z's ISO week exactly when z is not a Monday |
| `Civil.SameIsoWeekIff` | main.go:59-60 | two days share an ISO week exactly when they share the week's Thursday |
| `Civil.MondayOf` | main.go:57-65 | the Monday at most six days before z, in z's week |
| `Civil.MondayStartsIsoWeek` | main.go:57-65 | that Monday is in z's ISO week, and the day before it is not |
| `Civil.SameIsoWeekIffSameMonday` | main.go:59-67 | two days share an ISO week exactly when they share the Monday |
| `Civil.WeekCodeIff` | main.go:61 | for weeks 1..53, `year*100 + week` codes are equal exactly when the (year, week) pairs are |
| `Civil.WalkBackDay` | main.go:58-64 | between t's Monday and t's day, a day is in t's week; its predecessor's week code differs exactly at the Monday |
| `Retentions.WalkBackStep` | main.go:58-64 | one pass of the walk: it stops exactly at the Monday, and then start is the week start in t's ISO week |
| `Retentions.WeekStartByWalk` | main.go:57-65 | the walk from midnight of t's day ends at WeekStart(t), in t's ISO week (decreasing measure: days left to the Monday, at most six) |
| `Retentions.Retention.constructor` | main.go:105-118 | a new retention carries the parsed policy and claims nothing |
| `Retentions.Retention.Align` | main.go:54-73 | returns the period start and key of the specification functions, for every alias |
| `Retentions.Retention.Claim` | main.go:164-174 | the new map is one claiming step on the old; claimed exactly when not full and the period was unclaimed |
| `Retentions.ClaimStep` | main.go:164-174 | definition of one retention's turn in the claiming loop: no change when full or when the period is held, else the period is claimed with this snapshot; stated by `Retention.Claim` |
| `Retentions.ClaimAll` | main.go:159-176 | definition of the claiming loop restricted to one retention: `ClaimStep` for each snapshot in order, from no claims; stated by the `Retentions` lemmas below |
| `Retentions.CapacityBound` | main.go:164-167 | a retention never holds more than max(keep, 0) periods |
| `Retentions.FullClaimsFrozen` | main.go:164-167 | once it holds keep periods, no later snapshot changes it |
| `Retentions.NonPositiveKeepClaimsNothing` | main.go:164-167 | keep <= 0 claims nothing |
| `Retentions.ClaimsNeverOverwritten` | main.go:168-171 | later claims extend earlier ones: a claimed period keeps its snapshot |
| `Retentions.FirstSnapshotWins` | main.go:168-171 | the snapshot kept for a period is the first one offered with that period |
| `Retentions.NewestSnapshotPerPeriod` | main.go:156-171 | offered newest first, the kept snapshot is the newest of its period |
| `Retentions.MostRecentPeriodsKept` | main.go:156-176 | offered newest first, a snapshot whose period the retention does not hold is no newer than any snapshot it keeps: the retention keeps the most recent periods that hold a snapshot |
| `Retentions.ClaimedSnapshotsAreOffered` | main.go:168-171 | every kept snapshot is one that was offered |
| `Retentions.DistinctKeysAreThePeriods` | main.go:159-176 | the distinct periods, in order of first appearance, are duplicate-free and are exactly the periods of the snapshots |
| `Retentions.UnderfullHoldsEveryPeriod` | main.go:159-176 | a retention left below keep holds the period of every snapshot offered |
| `Retentions.UnderfullClaimsAllPeriods` | main.go:159-176 | a retention left below keep holds exactly the set of periods offered |
| `Retentions.ClaimsAreFirstDistinctPeriods` | main.go:159-176 | the claimed periods are the first min(max(keep, 0), number of periods) distinct periods met, in offering order |
| `Text.IsSpace` | main.go:95 | definition of `unicode.IsSpace`, the separator of `strings.Fields`: the Latin-1 spaces and the other Unicode White_Space characters; stated through `Text.Fields` by `FieldsAreTheWords` and `FieldsSplitAtSpace` |
| `Text.Fields` | main.go:95 | definition of `strings.Fields`: skip white space, take the next maximal word, repeat; stated by `FieldsAreTheWords` and `FieldsSplitAtSpace` |
| `Text.WordLength` | main.go:95 | the leading run of non-space characters stops at the end or at a space |
| `Text.FieldsAreTheWords` | main.go:95 | every field of `strings.Fields` is a non-empty run of non-space characters, together they are the non-space characters of the input, in order; there are none exactly when the input is blank; the first field starts after the leading white space and ends at white space or the end, and the other fields are those of the rest |
| `Text.SpaceLength` | main.go:95 | the leading run of white space stops at the end or at a non-space character |
| `Text.FieldsSplitAtSpace` | main.go:95 | no fields exactly when the input is all white space; else the first field sits right after the leading white space, is followed by white space or the end, and the rest of the fields are those of what follows |
| `Text.BlankHasNoFields` | main.go:95 | white space alone has no fields |
| `Text.FieldsOfJoin` | main.go:95 | words joined by single spaces split back into the same words |
| `Text.Utf8Length` | main.go:96 | `len` counts at least one byte per character, and at least the first character's width |
| `Text.Atoi` | main.go:99-102 | definition of `strconv.Atoi`: an optional sign, one or more decimal digits and nothing else, with a value in the 64-bit range, else an error; stated by `AtoiOfItoa` and `AtoiRefusesOverflow` |
| `Text.Itoa` | main.go:99 | definition of `strconv.Itoa`, the inverse `AtoiOfItoa` relates `Atoi` to |
| `Text.Digits` | main.go:99 | decimal digits of a number: non-empty, digits only |
| `Text.DigitsValueOfDigits` | main.go:99 | the digits of n read back as n |
| `Text.AtoiOfItoa` | main.go:99 | `Atoi` reads back every 64-bit value `Itoa` writes |
| `Text.AtoiRefusesOverflow` | main.go:99-102 | counts beyond the 64-bit range, positive or negative, are refused |
| `SpecParser.KindOfLetter` | main.go:103-119 | definition of the `switch` on a field's first character: h, d, w, m and y name the five aliases, any other letter none; stated by `LetterOf` (its inverse), `ParseField` and `UnknownLetterSkipped` |
| `SpecParser.LetterOf` | main.go:103-119 | each alias has a letter that names it, and that letter is ASCII |
| `SpecParser.ParseField` | main.go:96-119 | refused exactly when the field is under two bytes, its first character is not ASCII, or the rest is not an integer; the error names the field and is "too short" exactly for under two bytes; dropped exactly when valid with a letter other than h, d, w, m, y; a parsed retention has the field's letter as alias, the alias's duration, and the field's count as keep |
| `SpecParser.ParseFields` | main.go:95-121 | definition of the loop over the fields: stop at the first refused field with its error, else collect the retentions in order, skipping dropped fields; stated by `FirstBadFieldIsTheError` and `ParseFormattedFields` |
| `SpecParser.ParseSpec` | main.go:93-122 | definition of `getRetentionsFromSpec`'s result: `ParseFields` of `strings.Fields(spec)`; stated by `SpecRoundTrip`, `BlankSpecIsEmpty` and `DefaultSpec` |
| `SpecParser.FirstBadFieldIsTheError` | main.go:95-102 | a specification is refused exactly when some field is bad, and the error is that of the first bad field |
| `SpecParser.ParseFieldOfFormat` | main.go:96-119 | a retention written as letter and count parses back to itself |
| `SpecParser.ParseFormattedFields` | main.go:95-121 | formatted fields parse back to the same retentions, in order |
| `SpecParser.SpecRoundTrip` | main.go:93-122 | formatting retentions as a specification and parsing it gives them back |
| `SpecParser.BlankSpecIsEmpty` | main.go:94-95 | an empty or blank specification gives no retentions and no error |
| `SpecParser.UnknownLetterSkipped` | main.go:103-119 | a valid field with another letter is dropped without error |
| `SpecParser.DefaultSpec` | main.go:128 | "y5 m24 w8 d21 h72" parses to yearly 5, monthly 24, weekly 8, daily 21 and hourly 72 |
| `SpecParser.BadFields` | main.go:96-119 | "h" is too short, "hx" and "d+" have invalid counts, "x5" is dropped, "h-3" is hourly with keep -3 |
| `SpecParser.ByteLengthOfField` | main.go:96-102 | a single two-byte character passes the length test and then has an invalid count |
| `SpecParser.GetRetentionsFromSpec` | main.go:93-122 | on a bad field, no retentions and that field's error; otherwise one new, empty, distinct retention per parsed policy, in order |
| `Snapshots.SnapSorter.constructor` | main.go:156 | the sorter shares the caller's array |
| `Snapshots.SnapSorter.Swap` | main.go:86-88 | exchanges two elements and changes nothing else |
| `Snapshots.SnapSorter.InsertAt` | main.go:156-157 | with the first i elements newest first, element i is moved into place: the first i + 1 elements end newest first, the elements after i stay where they were, and the array keeps its multiset |
| `Snapshots.SnapSorter.SortNewestFirst` | main.go:156-157 | the array ends newest first and is a permutation of what it held |
| `StringOrder.Less` | main.go:200 | definition of Go's `<` on strings: a proper prefix, or smaller at the first difference; stated by `LessIrreflexive`, `LessTransitive` and `LessTotal` |
| `StringOrder.LessIrreflexive` | main.go:200 | no string sorts before itself |
| `StringOrder.LessTransitive` | main.go:200 | the string order is transitive |
| `StringOrder.LessTotal` | main.go:200 | of two different strings exactly one sorts first |
| `StringOrder.StrictlyAscendingIsDistinct` | main.go:200 | a strictly ascending sequence has no repeats |
| `StringOrder.InsertString` | main.go:200 | with the first i strings ascending, string i is moved into place: the first i + 1 end ascending, the strings after i stay where they were, and the array keeps its multiset |
| `StringOrder.SortStrings` | main.go:200 | `sort.Strings` leaves the array ascending and a permutation of itself |
| `StringOrder.SortedKeys` | main.go:194-202 | every key of the map once, and nothing else, in strictly ascending order |
| `Engine.Ingest` | main.go:143-154 | definition of the input loop: the lines that parse, in order, each as a snapshot named by the line; stated by `IngestKeepsParsedLines` and `ReadSnaps` |
| `Engine.IngestKeepsParsedLines` | main.go:145-154 | each snapshot read comes from a line that parses to its time, and every line that parses gives one |
| `Engine.ReadSnaps` | main.go:143-154 | reads the parsed lines in order; `snapkills` holds every name read, each under its own name |
| `Engine.ClaimedNamesIff` | main.go:172 | a name is kept exactly when some retention holds a snapshot of that name |
| `Engine.KeptNamesAreOffered` | main.go:172-173 | only names that were read are kept |
| `Engine.NamesOfPermutation` | main.go:157 | sorting does not change the set of names |
| `Engine.Offer` | main.go:161-174 | one retention takes one claiming step; a claimed name moves from kills to keeps |
| `Engine.OfferAll` | main.go:160-175 | every retention takes one claiming step with the snapshot, in order |
| `Engine.ClaimSnaps` | main.go:159-176 | each retention ends with exactly its claims on the whole sequence; keeps is every name some retention holds; kills is the initial kills without them |
| `Engine.Run` | main.go:138-190 | snapshots offered newest first and as a permutation of those read; the released names are strictly ascending and are exactly the names read that no retention kept |

## Left out

- Standard input and `time.Parse` with the user's layout (main.go:143-150): the lines are a parameter, and `parse` is a parameter function from a line to its time, or None when the line does not parse.
- Flags, logging and printing (main.go:125-136, 148, 158, 178-184, 190): `Run` returns the names that would be printed, in printing order.
- Time zones, DST and monotonic readings: every time is UTC seconds. The key is computed from the same UTC instant that `Truncate` rounds.
- Sub-second precision, and the `UnixNano` overflow outside the years 1678-2262 that `Less` would meet: a timestamp is whole seconds, and `Less` compares them exactly.
- Go's `time` and `fmt` internals: keys are a datatype, not the text of the layouts `2006-01-02T15`, `2006-01-02`, `%d-W%02d`, `2006-01` and `2006`. The layout follows from the alias, so the `timeformat` field is not kept.
- The order of equal timestamps: `sort.Sort` is not stable, and its algorithm is not specified. The model sorts by insertion and proves only newest-first and permutation. Which of two equal-time snapshots a retention keeps is therefore not stated.
- `Snapshots.SnapSorter.Less` and `Snapshots.SnapSorter.Len` (main.go:83-91) are modelled as a predicate and a function used by the sort. They carry no contract of their own.
- The lazy creation of each retention's map (main.go:161-163): a retention starts with an empty map.
- Taking the address of each snapshot (`&inputsnap`, `&newsnap`, main.go:152-153, 170-171): snapshots are values, so `snapkeeps` and `snapkills` map each name to a snapshot record.
- The weekly retention's duration (main.go:112) is stored but, as in the source, `Align` does not use it.
- `Engine.ReadSnaps`: when two input lines are the same text, `snapkills` keeps one entry for that name, as in the source. Which of the two records it holds is not stated.
- `SpecParser.ParseField`: an `InvalidCount` error names the field but not the reason `strconv.Atoi` gives (main.go:101: invalid syntax or value out of range). The model keeps only which field was refused.
- `Text.Utf8Length`: Go strings are bytes. A string here is a sequence of Unicode scalar values, and `len` is its UTF-8 length. Invalid UTF-8 input is not modelled.

# Idol birthday calendar, modelled in Dafny

The site shows idols' birthdays in Japanese and Korean. It reads a published spreadsheet as CSV
and turns its rows into idol records. For each idol it counts the days, in Japan time, to the next
birthday, and it sorts, filters and groups the records for the pages. This project models that core
and proves what it promises:

- `src/lib/birthday.ts`: leap years and `MM-DD` parsing; today's date and its midnight in Japan
  time; the number of days to the next birthday, including the search for the next 29 February;
  the upcoming-birthday sort.
- `src/lib/birthday-filters.ts`: days attached to each idol; the today and this-week picks.
- `src/lib/sheets.ts`: display names; `normalizeMmdd`; the CSV parser; the row-to-record mapping
  of `fetchIdols`.
- `src/components/BirthdayTimeline.tsx`: month labels and the `MM/DD` label; the favourites
  filter; `toggleOshi`; the grouping by month.
- `src/components/IdolCard.tsx`: group aliases, the remaining-days label and the active-alias test.
- `src/components/HomeHeroToday.tsx`: the group-member filter and the first-ten list.
- `src/components/LanguageToggle.tsx`: the language-switch links.
- `src/components/HeaderNavLink.tsx`: the header link.

Time is an integer number of milliseconds since the Unix epoch. Japan time is that instant plus
nine hours. Dates are converted to and from day numbers with Gregorian arithmetic. A number that
may be `NaN` is an `Option` (`None` for `NaN`). A thrown error is the `Err` side of a `Result`.

The modules follow the source files:

- `Common`: `Option`, `Result` and `Lang`.
- `Strings`: the JavaScript string operations used (`trim`, `split`, number text, `padStart`,
  code-unit order, ASCII lower-casing).
- `Seqs`: filter, subsequence, first-occurrence deduplication.
- `Calendar`: Gregorian day numbers.
- `Birthday`, `BirthdaySort`, `BirthdayFilters`: `birthday.ts` and `birthday-filters.ts`.
- `Sheets`, `SheetsCsv`, `SheetsRows`: `sheets.ts`.
- `Timeline`, `IdolCard`, `HomeHero`, `LanguageToggle`, `HeaderNav`: the components.

Three loops are imperative methods, each proved equal to a specification function whose
properties are proved as lemmas:

- `diffDaysToNextBirthday` with its `while (true)` leap-year search;
- the CSV parser's character loop;
- `groupByUpcomingMonth`.

The row loop of `fetchIdols` is a method too. The sort is an insertion sort on a fresh array.

## Model

| member | source | states |
|---|---|---|
| Common.LangCode | src/lib/i18n.ts:1-3 | the language code is two letters, and it is "ja" exactly for Japanese |
| Calendar.IsLeapYear | src/lib/birthday.ts:30-34 | defines `isLeapYear`: divisible by 400, or by 4 and not by 100; its consequences are the YearLength, LeapsStep and CycleStart rows |
| Calendar.YearLength | src/lib/birthday.ts:30-34 | a year has 365 or 366 days |
| Calendar.DaysInMonth | src/lib/birthday.ts:46-61 | every month has 28 to 31 days |
| Calendar.LeapsStep | src/lib/birthday.ts:30-34 | the count of leap years by the 4/100/400 rule grows by one exactly at a leap year |
| Calendar.DaysBeforeYearClosedForm | src/lib/birthday.ts:30-34 | the days before a year are 365 per year since 1970 plus the leap years counted by the rule |
| Calendar.CycleStart | src/lib/birthday.ts:30-34 | every 400 years hold exactly 146097 days |
| Calendar.CivilFromDays | src/lib/birthday.ts:12-19 | every day number is the day number of a date that exists |
| Calendar.DaysFromCivilInjective | src/lib/birthday.ts:46-61 | two existing dates with the same day number are the same date |
| Calendar.CivilRoundTrip | src/lib/birthday.ts:46-61 | an existing date converted to a day number and back is itself |
| Calendar.ReadBackIffReal | src/lib/birthday.ts:52-58 | a date comes back unchanged from the re-read exactly when it exists (02-30 rolls over into March) |
| Calendar.CivilYearIff | src/lib/birthday.ts:12-19 | a day number falls in a year exactly when it lies between that year's first day and the next year's |
| Calendar.SameDayNextYear | src/lib/birthday.ts:89-93 | the same month and day a year later is 365 or 366 days on |
| Calendar.RealInLeapYear | src/lib/birthday.ts:76-87 | any month and day that exists in some year exists in the leap year 2000 |
| Calendar.LeapYearWithinEight | src/lib/birthday.ts:76-87 | a leap year follows within eight years, so the leap-day search always ends |
| Birthday.DayNumberWithinDay | src/lib/birthday.ts:12-19 | every instant of a Japan-time day has that day's number |
| Birthday.StartOfDayJst | src/lib/birthday.ts:25-28 | defines `startOfDayJst`: the date's day number in milliseconds, less the nine-hour offset; proved a Japan-time midnight on that date by the next row |
| Birthday.StartOfDayJstIsMidnight | src/lib/birthday.ts:25-28 | `startOfDayJst` is a Japan-time midnight, on the day of the given date |
| Birthday.GetTodayJst | src/lib/birthday.ts:12-19 | today's date in Japan exists and its day number is that of `now` |
| Birthday.GetTodayJstBracket | src/lib/birthday.ts:12-28 | `now` lies in the 24 hours from today's Japan-time midnight |
| Birthday.StartOfDayJstRoundTrip | src/lib/birthday.ts:12-28 | the date of a date's own midnight is that date |
| Birthday.JstMidnightIsStartOfDay | src/lib/birthday.ts:25-28 | a Japan-time midnight is the start of its own day |
| Birthday.FormatMmdd | src/lib/birthday.ts:36-44 | an `MM-DD` text has five characters with `-` in the middle |
| Birthday.ParseMmdd | src/lib/birthday.ts:36-44 | a parsed month is 1 to 12 and a parsed day 1 to 31 |
| Birthday.FormatMmddReadsBack | src/lib/birthday.ts:36-44 | every valid month and day, written as `MM-DD`, has the `MM-DD` shape, and its digits read back as the month and the day |
| Birthday.ParseMmddOfDigits | src/lib/birthday.ts:37-43 | four digits around `-` parse to the tens-and-units values exactly when they are in range |
| Birthday.ParseMmddIsFormat | src/lib/birthday.ts:36-44 | a text parses to a month and day exactly when it is that month and day written as `MM-DD` |
| Birthday.ParseNonexistent | src/lib/birthday.ts:41-43 | "02-30" and "04-31" parse, as the day is only checked against 31 |
| Birthday.DateFromYmdJst | src/lib/birthday.ts:46-61 | a date gives a midnight exactly when it exists, and then it is that date's Japan-time midnight |
| Birthday.FallsOnShownDate | src/lib/birthday.ts:46-61 | a day is a birthday exactly when its calendar date has that month and day |
| Birthday.NextBirthdayUnique | src/lib/birthday.ts:63-99 | the next birthday after a day is unique |
| Birthday.NeverOccurs | src/lib/birthday.ts:88-90 | a month and day that never exists has no next birthday |
| Birthday.SameEveryYear | src/lib/birthday.ts:88-94 | a month and day other than 02-29 exists in every year or in none |
| Birthday.CommonNext | src/lib/birthday.ts:88-94 | for a day other than 02-29 the next birthday is this year's date, or next year's when this year's has passed |
| Birthday.LeapSearchEnds | src/lib/birthday.ts:76-87 | the leap-day search finds a 29 February on or after today within eight years |
| Birthday.LeapDayNext | src/lib/birthday.ts:76-87 | the 29 February the search finds is the next birthday for 02-29 |
| Birthday.NextBirthdayExists | src/lib/birthday.ts:63-99 | a month and day that exists in some year has a next birthday |
| Birthday.NextBirthdayDate | src/lib/birthday.ts:73-94 | the candidate date has the birthday's month and day |
| Birthday.NextBirthdayDateIsNext | src/lib/birthday.ts:73-96 | the candidate exists exactly when the month and day exists in some year, and it is the first such date on or after today |
| Birthday.LeapDayDateIsNext | src/lib/birthday.ts:75-87 | for 02-29 the candidate is the first 29 February on or after today |
| Birthday.CommonDateIsNext | src/lib/birthday.ts:88-94 | for other days the candidate is the first matching date on or after today |
| Birthday.NextBirthdayDiffIsNext | src/lib/birthday.ts:63-99 | the days are a number exactly when the text parses to a month and day that exists in some year; the number is the distance from today (Japan time) to the next such day |
| Birthday.NextBirthdayDiffAtMost365 | src/lib/birthday.ts:88-98 | for a birthday other than 02-29 the days are 0 to 365 |
| Birthday.NextBirthdayDiffZeroIff | src/lib/birthday.ts:63-99 | the days are 0 exactly when today in Japan has the birthday's month and day |
| Birthday.NextBirthdayDiff | src/lib/birthday.ts:63-99 | defines what `diffDaysToNextBirthday` answers: `NaN` for text that does not parse, else the days from today to the settled date; proved against the independent `IsNextBirthday` by NextBirthdayDiffIsNext |
| Birthday.FebruaryTenthToNinth | src/lib/birthday.ts:88-94 | from 10 February of a common year, 9 February is 364 days away |
| Birthday.FebruaryTenthToLeapDay | src/lib/birthday.ts:75-87 | from 10 February two years before a leap year, 29 February is 749 days away |
| Birthday.ExampleSameDay | src/lib/birthday.ts:63-99 | "02-10" on 10 February gives 0 |
| Birthday.ExampleDayBefore | src/lib/birthday.ts:63-99 | "02-09" on 10 February of a common year gives 364 |
| Birthday.ExampleLeapDay | src/lib/birthday.ts:63-99 | "02-29" on 10 February 2026 gives 749 |
| Birthday.ExampleNonexistent | src/lib/birthday.ts:88-90 | "02-30" and "04-31" give `NaN` |
| Birthday.RoundToDays | src/lib/birthday.ts:98 | `Math.round(ms / 86400000)` is the integer nearest the quotient, halves rounded up |
| Birthday.RoundWholeDays | src/lib/birthday.ts:97-98 | a whole number of days rounds to itself |
| Birthday.MidnightDistance | src/lib/birthday.ts:97 | two Japan-time midnights are 86400000 ms times their day distance apart |
| Birthday.MidnightDays | src/lib/birthday.ts:97-98 | rounding the distance between two midnights gives their day distance |
| Birthday.LeapDayCandidate | src/lib/birthday.ts:79-85 | one loop step yields a midnight exactly when the year is a leap year whose 29 February is not before today |
| Birthday.NextLeapDayMidnight | src/lib/birthday.ts:76-87 | the `while (true)` loop ends at the midnight of the 29 February the search finds |
| Birthday.ThisOrNextYearMidnight | src/lib/birthday.ts:88-94 | the candidate is this year's date, or next year's when this year's has passed, or none when the date does not exist |
| Birthday.CandidateMidnight | src/lib/birthday.ts:75-94 | the candidate is the midnight of the next birthday date |
| Birthday.DaysFromToday | src/lib/birthday.ts:70-98 | the days are the rounded distance from today's midnight to the next birthday's |
| Birthday.DiffDaysToNextBirthday | src/lib/birthday.ts:63-99 | the method returns the days to the next birthday as specified |
| BirthdaySort.BeforeIffKeysDiffer | src/lib/birthday.ts:104-112 | records with the same days, `MM-DD` and slug compare equal; others are ordered one way or the other |
| BirthdaySort.Before | src/lib/birthday.ts:104-112 | defines the comparator's negative case: fewer days, then the smaller `MM-DD` text, then the smaller slug |
| BirthdaySort.BeforeAsymmetric | src/lib/birthday.ts:104-112 | the comparator is asymmetric |
| BirthdaySort.NotBeforeTransitive | src/lib/birthday.ts:104-112 | "not after" is transitive, so the comparator is consistent |
| BirthdaySort.Insert | src/lib/birthday.ts:104 | inserting adds exactly the one record |
| BirthdaySort.SortSpec | src/lib/birthday.ts:101-113 | the sorted list is a permutation of the list |
| BirthdaySort.InsertSorted | src/lib/birthday.ts:104-112 | inserting into a sorted list keeps it sorted |
| BirthdaySort.SortSpecSorted | src/lib/birthday.ts:104-112 | the result is sorted by days, then `MM-DD`, then slug |
| BirthdaySort.InsertStable | src/lib/birthday.ts:104 | an inserted record goes behind every record with its key |
| BirthdaySort.SortSpecStable | src/lib/birthday.ts:104 | records with equal keys keep their list order |
| BirthdaySort.InsertPlace | src/lib/birthday.ts:104 | where the inner loop stops is where the record belongs |
| BirthdaySort.InsertAt | src/lib/birthday.ts:104 | one pass moves the record to its place in the sorted prefix and leaves the rest |
| BirthdaySort.ShiftRight | src/lib/birthday.ts:104 | the inner loop moves right exactly the records of the sorted prefix's suffix that the record sorts strictly before, and leaves a gap where the record belongs |
| BirthdaySort.SortSpecStep | src/lib/birthday.ts:104 | sorting one more record inserts it into the sorted prefix |
| BirthdaySort.SortByUpcoming | src/lib/birthday.ts:101-113 | the method's result is the stable sort of a copy of the list |
| BirthdaySort.SortByUpcomingCorrect | src/lib/birthday.ts:101-113 | the result has the list's records, each as often, sorted, with equal keys in list order |
| BirthdayFilters.AttachDiffDays | src/lib/birthday-filters.ts:6-13 | no more records come out than idols go in |
| BirthdayFilters.WithDiff | src/lib/birthday-filters.ts:8-12 | defines one step of `attachDiffDays`: the idol with its days, dropped when the days are `NaN` or negative |
| BirthdayFilters.WithDiffDropsOnlyUnknown | src/lib/birthday-filters.ts:8-12 | a record is dropped exactly when its days are `NaN`; a kept record is the idol with its days |
| BirthdayFilters.AttachDiffDaysAppend | src/lib/birthday-filters.ts:6-13 | records come out in the order of the idols |
| BirthdayFilters.AttachDiffDaysSingle | src/lib/birthday-filters.ts:8-12 | one idol gives its record with its days, or nothing when the days are `NaN` |
| BirthdayFilters.AttachDiffDaysMembers | src/lib/birthday-filters.ts:6-13 | a record is in the output exactly when its idol is in the input with those days, never negative |
| BirthdayFilters.SortBySoonest | src/lib/birthday-filters.ts:15-17 | `sortBySoonest` is `sortByUpcoming` |
| BirthdayFilters.PickToday | src/lib/birthday-filters.ts:19-21 | defines `pickToday` as the filter on 0 days |
| BirthdayFilters.PickThisWeek | src/lib/birthday-filters.ts:23-26 | defines `pickThisWeek` as the filter on 1 to 6 days |
| BirthdayFilters.PicksCharacterized | src/lib/birthday-filters.ts:19-26 | today's pick is the records 0 days away, this week's those 1 to 6 days away, both in list order and disjoint |
| BirthdayFilters.PickTodayIsBirthdayToday | src/lib/birthday-filters.ts:19-21 | a record picked for today has the month and day of today in Japan |
| BirthdayFilters.PickThisWeekIsNextBirthday | src/lib/birthday-filters.ts:23-26 | a record picked for this week has its next birthday 1 to 6 days after today |
| Strings.TrimBy | src/lib/sheets.ts:24 | a trimmed text starts and ends with a character that is not white space |
| Strings.TrimByCuts | src/lib/sheets.ts:24 | trimming removes white space only, from both ends |
| Strings.TrimByEmptyIff | src/lib/sheets.ts:24-25 | trimming leaves nothing exactly when the text is all white space |
| Strings.TrimIdempotent | src/lib/sheets.ts:24 | trimming twice is trimming once |
| Strings.TrimChars | src/components/IdolCard.tsx:22 | a trimmed text has only characters of the text |
| Strings.TrimKeeps | src/components/IdolCard.tsx:22 | a character that is not white space survives trimming |
| Strings.SplitBy | src/lib/sheets.ts:30 | `split` gives at least one piece |
| Strings.SplitByPiecesPlain | src/components/IdolCard.tsx:24-25 | no piece holds a separator, and pieces are made of the text's characters |
| Strings.SplitByKeeps | src/components/IdolCard.tsx:24-25 | every character that is not a separator is in some piece |
| Strings.SplitByOnce | src/lib/sheets.ts:30-31 | a text with one separator splits into the text before and after it |
| Strings.SplitByCons | src/components/IdolCard.tsx:24-25 | the text before the first separator is the first piece, and the rest is split after it, so the pieces come in text order |
| Strings.SplitFromShift | src/components/IdolCard.tsx:24-25 | splitting the end of a text gives the pieces of that end on its own |
| Strings.JoinSplitBy | src/lib/sheets.ts:78-90 | the pieces of a text joined back with their separator give the text |
| Strings.SplitByJoin | src/lib/sheets.ts:78-90 | pieces without the separator, joined with it and split again, come back as they were |
| Strings.JoinEndsWithLast | src/lib/sheets.ts:84 | joined text ends with the last character of the last piece |
| Strings.ParseDecimal | src/lib/sheets.ts:33-35 | a number is read exactly from a non-empty string of digits |
| Strings.NatToString | src/lib/sheets.ts:39-40 | `String(n)` is digits without a leading zero that read back as `n` |
| Strings.NatToStringInjective | src/lib/sheets.ts:39-40 | different numbers are written differently |
| Strings.Pad2 | src/lib/birthday.ts:21-23 | `padStart(2, "0")` gives two digits that read back as the number |
| Strings.StrLeTotal | src/lib/birthday.ts:108-111 | any two texts are ordered one way or the other |
| Strings.StrLeAntisymmetric | src/lib/birthday.ts:108-111 | texts ordered both ways are equal |
| Strings.StrLeTransitive | src/lib/birthday.ts:108-111 | the order is transitive |
| Strings.ToLowerAscii | src/lib/sheets.ts:101-103 | lower-casing keeps the length and maps each character |
| Seqs.Filter | src/lib/birthday-filters.ts:19-25 | a filtered list is no longer than the list, and its elements satisfy the test and come from the list |
| Seqs.FilterMembers | src/lib/birthday-filters.ts:19-25 | an element is kept exactly when it is in the list and satisfies the test |
| Seqs.FilterSnoc | src/lib/birthday-filters.ts:19-25 | filtering one more element appends it when it satisfies the test |
| Seqs.FilterIsSubsequence | src/lib/birthday-filters.ts:19-25 | a filtered list keeps list order |
| Seqs.Dedup | src/components/IdolCard.tsx:28 | `Array.from(new Set(...))` has no repeats and the same elements |
| Seqs.DedupIsSubsequence | src/components/IdolCard.tsx:28 | the deduplicated list is a subsequence of the list; which occurrence is kept is the DedupOrder row |
| Seqs.DedupNoDuplicates | src/components/IdolCard.tsx:28 | a list without repeats is unchanged |
| Seqs.DedupTwice | src/components/IdolCard.tsx:28 | a value given twice is kept once |
| Seqs.DedupAfterOrder | src/components/IdolCard.tsx:28 | what is kept after a set of seen values comes in the order of first occurrences in the list |
| Seqs.DedupOrder | src/components/IdolCard.tsx:28 | `Array.from(new Set(s))` lists every element of `s` in the order of its first occurrence in `s` |
| Seqs.DedupAfterSnoc | src/components/IdolCard.tsx:28 | adding one more value to the list adds it at the end exactly when neither the list nor the seen values hold it |
| Seqs.DedupSnoc | src/components/IdolCard.tsx:28 | the set fills in insertion order: one more value is appended exactly when it is new |
| Seqs.DedupFirstKept | src/components/IdolCard.tsx:28 | `[a, b, a]` gives `[a, b]`: a repeat keeps the first place, not the last |
| Seqs.ValuesMembers | src/lib/birthday-filters.ts:7-12 | the present values are exactly those in the list |
| Seqs.ValuesAppend | src/lib/birthday-filters.ts:7-12 | values of two lists come out one after the other |
| Sheets.GetIdolDisplayName | src/lib/sheets.ts:16-21 | the name is the first non-empty of the language's trimmed name, the other language's, the slug and the id |
| Sheets.DisplayNameNonEmpty | src/lib/sheets.ts:16-21 | an idol with a slug always has a non-empty name |
| Sheets.DisplayNamePrefersLanguage | src/lib/sheets.ts:19-20 | the language's own name wins when it is present |
| Sheets.DisplayNameFallsBackToOtherLanguage | src/lib/sheets.ts:19-20 | without it, the other language's name is used |
| Sheets.TrimmedName | src/lib/sheets.ts:17-18 | defines `name?.trim()` with a missing name read as empty: both are falsy for the fallback chain |
| Sheets.Separator | src/lib/sheets.ts:28 | `-` is the separator when present, else `/`, else none |
| Sheets.NormalizeParts | src/lib/sheets.ts:33-41 | two parts give `MM-DD` exactly when both are numbers in range |
| Sheets.NormalizePieces | src/lib/sheets.ts:30-41 | any number of pieces other than two gives nothing; a result is always a valid `MM-DD` |
| Sheets.NormalizeTrimmed | src/lib/sheets.ts:25-41 | empty text or text without a separator gives nothing; a result is a valid `MM-DD` |
| Sheets.NormalizeMmdd | src/lib/sheets.ts:23-42 | blank or separator-less input gives nothing; a result is a valid `MM-DD` |
| Sheets.NormalizeMmddOfDigits | src/lib/sheets.ts:23-42 | digits around `-` or `/` give the padded `MM-DD` exactly when in range |
| Sheets.NormalizeMmddIdempotent | src/lib/sheets.ts:23-42 | normalizing a result gives it back |
| Sheets.NormalizeMmddParses | src/lib/sheets.ts:23-42 | a normalized text parses with `parseMmdd`, and the parsed month and day write back to it |
| Sheets.NormalizeMmddShortForm | src/lib/sheets.ts:27 | `M-D` and `M/D` give the padded `MM-DD` |
| Sheets.NormalizePiecesWithSlash | src/lib/sheets.ts:30-35 | a part holding `/` is not a number |
| Sheets.NormalizeMmddBothSeparators | src/lib/sheets.ts:28-35 | text with both `-` and `/` gives nothing |
| Sheets.NormalizeTrimmedAtSeparator | src/lib/sheets.ts:25-41 | trimmed text cut at its first separator: a second separator after it gives nothing, else the result is the two sides, each trimmed, read as month and day |
| Sheets.NormalizeMmddAtSeparator | src/lib/sheets.ts:23-42 | `normalizeMmdd` in full: after trimming, a result exists only with the separator exactly once, and it is the text before and after it, each trimmed, read as month and day |
| Sheets.SplitHoldingSeparator | src/lib/sheets.ts:30-31 | text holding the separator splits into at least two pieces |
| Sheets.NormalizeMmddThreePieces | src/lib/sheets.ts:30-31 | "1-2-3" gives nothing |
| Sheets.NormalizeMmddInnerSpaces | src/lib/sheets.ts:24-41 | " 1 - 2 " gives "01-02": each piece is trimmed after the split |
| Sheets.TrimInnerSpaces | src/lib/sheets.ts:24 | trimming " 1 - 2 " keeps the inner spaces |
| Sheets.TrimSpacedDigits | src/lib/sheets.ts:30 | the pieces "1 " and " 2" trim to "1" and "2" |
| Sheets.NormalizePartsOneTwo | src/lib/sheets.ts:33-41 | the pieces "1" and "2" give "01-02" |
| Sheets.FormatJanuarySecond | src/lib/sheets.ts:39-40 | January 2 is written "01-02" |
| Sheets.StripBom | src/lib/sheets.ts:44-46 | a leading byte-order mark is removed and any other text kept |
| SheetsCsv.StripCr | src/lib/sheets.ts:84 | one trailing carriage return is removed |
| SheetsCsv.EndRow | src/lib/sheets.ts:86-87 | a row holding one empty field is skipped; others are added |
| SheetsCsv.Run | src/lib/sheets.ts:56-98 | defines the parser's loop over the remaining text and its state: a quote toggles quoting, a doubled quote inside quotes is one quote, a comma outside quotes ends the field, a newline outside quotes ends the row, and the end of the text ends the last row |
| SheetsCsv.ParseCsvSpec | src/lib/sheets.ts:49-99 | defines `parseCsv` as the loop run from the empty state on the text after its byte-order mark |
| SheetsCsv.ParseCsv | src/lib/sheets.ts:49-99 | the loop computes the parser's specification |
| SheetsCsv.RunKeepsGoodRows | src/lib/sheets.ts:56-92 | the loop never adds an empty row or a row holding one empty field |
| SheetsCsv.ParseCsvGoodRows | src/lib/sheets.ts:49-99 | no parsed row is empty or a single empty field |
| SheetsCsv.ParseCsvEmpty | src/lib/sheets.ts:94-98 | empty text gives no rows |
| SheetsCsv.ParseCsvIgnoresBom | src/lib/sheets.ts:50 | a leading byte-order mark does not change the rows |
| SheetsCsv.Escape | src/lib/sheets.ts:60-64 | escaping never shortens a field |
| SheetsCsv.ClosingQuoteRun | src/lib/sheets.ts:60-67 | a quote not followed by another closes the quoted field |
| SheetsCsv.EscapedCharRun | src/lib/sheets.ts:59-71 | an escaped character adds one character to the field |
| SheetsCsv.QuotedRun | src/lib/sheets.ts:59-71 | a quoted field reads back as its text |
| SheetsCsv.QuotedFieldRun | src/lib/sheets.ts:59-77 | an opening quote, the escaped text and a closing quote give the text |
| SheetsCsv.PlainRun | src/lib/sheets.ts:91 | outside quotes, characters other than quotes, commas and newlines are appended to the field |
| SheetsCsv.FieldRun | src/lib/sheets.ts:56-92 | an encoded field reads back as the field |
| SheetsCsv.CommaRun | src/lib/sheets.ts:78-82 | a comma ends the field |
| SheetsCsv.NewlineRun | src/lib/sheets.ts:83-90 | a newline ends the row |
| SheetsCsv.LineEndRun | src/lib/sheets.ts:83-90 | `\n` and `\r\n` both end the row |
| SheetsCsv.LastFieldRun | src/lib/sheets.ts:83-90 | the last field of an encoded row ends it |
| SheetsCsv.NextFieldRun | src/lib/sheets.ts:78-82 | the next field of an encoded row follows its comma |
| SheetsCsv.RowRun | src/lib/sheets.ts:56-92 | an encoded row reads back as that row |
| SheetsCsv.RowsRun | src/lib/sheets.ts:56-96 | encoded rows read back as those rows |
| SheetsCsv.EncodeNoBom | src/lib/sheets.ts:50 | encoded text never starts with a byte-order mark |
| SheetsCsv.ParseCsvRoundTrip | src/lib/sheets.ts:49-99 | rows with no empty or single-empty-field row, and no trailing carriage return in a row, written as CSV parse back to themselves. Fields may be all quoted (quotes doubled) or plain when free of quotes, commas, `\n` and byte-order marks; line ends may be `\n` or `\r\n` |
| SheetsCsv.LineRow | src/lib/sheets.ts:78-90 | the row of one quote-free line has at least one field |
| SheetsCsv.PieceThenComma | src/lib/sheets.ts:78-82 | a field's text and a comma push the text to the row |
| SheetsCsv.AfterPiecesCons | src/lib/sheets.ts:78-82 | reading one more piece in front first pushes it to the row |
| SheetsCsv.JoinedPiecesRun | src/lib/sheets.ts:78-91 | quote-free pieces joined with commas push all but the last to the row and leave the last as the field |
| SheetsCsv.LineRun | src/lib/sheets.ts:78-91 | a line with no quote and no newline is read as the pieces between its commas |
| SheetsCsv.LastPieceEndsLine | src/lib/sheets.ts:84 | a non-empty last piece ends where the line ends |
| SheetsCsv.SplitWithCr | src/lib/sheets.ts:84 | a carriage return at the end of a line is added to its last piece |
| SheetsCsv.LineRowPiecesCr | src/lib/sheets.ts:84-87 | for a line ending in a carriage return, dropping it from the line or from the last piece gives the same row |
| SheetsCsv.LineRowPiecesNoCr | src/lib/sheets.ts:84-87 | for a line not ending in one, the last piece keeps its text |
| SheetsCsv.LineRowPieces | src/lib/sheets.ts:84-87 | the parser's row (the pieces, with one carriage return dropped from the last) is the split of the line without its carriage return |
| SheetsCsv.LineEndsText | src/lib/sheets.ts:94-98 | a quote-free last line ends its row, kept unless it is the single empty field |
| SheetsCsv.LineEndsRow | src/lib/sheets.ts:83-90 | a quote-free line and its newline end its row, and reading goes on from an empty row |
| SheetsCsv.ParseCsvOneLine | src/lib/sheets.ts:49-99 | one quote-free line is one row of its comma-separated pieces (one trailing carriage return dropped), or no row when that is the single empty field |
| SheetsCsv.LinesRun | src/lib/sheets.ts:56-96 | quote-free lines joined with newlines give their rows in order, dropping single-empty-field rows |
| SheetsCsv.ParseCsvQuoteFree | src/lib/sheets.ts:49-99 | for any text without quotes: each line between newlines gives the row of its comma-separated pieces, so a row has one field more than its line has commas; rows that are the single empty field are dropped; a byte-order mark is ignored |
| SheetsRows.IndexOf | src/lib/sheets.ts:127 | `indexOf` is the first position of the key, or -1 exactly when absent |
| SheetsRows.Cell | src/lib/sheets.ts:148 | `row[i] ?? ""` is the cell when the index is in range, else empty |
| SheetsRows.Lower | src/lib/sheets.ts:101-103 | defines `lower`: trimmed, then lower-cased |
| SheetsRows.OptionalCell | src/lib/sheets.ts:164-169 | an optional column is absent exactly when its trimmed cell is empty, else the trimmed cell |
| SheetsRows.HasRequiredIff | src/lib/sheets.ts:139-143 | the header is accepted exactly when it has `id`, `slug`, `status` and `birthday_mmdd` |
| SheetsRows.RowToIdol | src/lib/sheets.ts:147-178 | a row gives a record exactly when its status is "active", its birthday normalizes, and its id and slug are non-empty |
| SheetsRows.RowResults | src/lib/sheets.ts:147-179 | each row gives its own result |
| SheetsRows.IdolsFrom | src/lib/sheets.ts:145-181 | no more records than rows |
| SheetsRows.RowsToIdols | src/lib/sheets.ts:123-181 | defines what follows parsing: no rows give no records, a header without a required column fails, else the records of the rows after the header |
| SheetsRows.FetchIdolsSpec | src/lib/sheets.ts:105-182 | defines the outcome of `fetchIdols`: a missing or empty URL fails, a failed response fails with its status, else the parsed body is mapped |
| SheetsRows.MapRow | src/lib/sheets.ts:148-176 | the loop body maps a row as specified |
| SheetsRows.MapRows | src/lib/sheets.ts:145-181 | the loop collects the records of the rows in order |
| SheetsRows.FetchIdols | src/lib/sheets.ts:105-182 | the function returns the outcome as specified |
| SheetsRows.RowToIdolWellFormed | src/lib/sheets.ts:148-163 | a record has trimmed non-empty id and slug, an active status and a normalized `MM-DD` that parses |
| SheetsRows.RowToIdolNames | src/lib/sheets.ts:164-176 | names come from their columns, the legacy `name` filling `name_ja` only when both are absent |
| SheetsRows.NameJa | src/lib/sheets.ts:164-175 | defines the Japanese name: the `name_ja` cell, or the legacy `name` cell when neither name column gives one and it is not empty |
| SheetsRows.OptionalCellTrimmed | src/lib/sheets.ts:164-169 | an optional column is absent or a trimmed non-empty text |
| SheetsRows.RowToIdolOptionalTrimmed | src/lib/sheets.ts:164-176 | every optional field of a record is absent or trimmed and non-empty |
| SheetsRows.IdolsFromAppend | src/lib/sheets.ts:145-181 | records come out in row order |
| SheetsRows.IdolsFromMembers | src/lib/sheets.ts:145-181 | a record is in the output exactly when some row maps to it |
| SheetsRows.IdolsFromWellFormed | src/lib/sheets.ts:145-181 | every record is well formed |
| SheetsRows.FetchIdolsOutcome | src/lib/sheets.ts:105-182 | a missing URL fails first, a failed response fails with its status, and success gives well-formed records with non-empty display names |
| SheetsRows.RowsToIdolsHeader | src/lib/sheets.ts:126-143 | a body fails exactly when its header lacks a required column |
| SheetsRows.FetchIdolsEmptyBody | src/lib/sheets.ts:123-124 | an empty body gives no records |
| Timeline.NumberWithUnit | src/components/BirthdayTimeline.tsx:14-22 | the label ends in its unit and the number reads back |
| Timeline.MonthLabel | src/components/BirthdayTimeline.tsx:14-17 | defines `monthLabel`: the month with 월 in Korean, 月 otherwise |
| Timeline.MonthCountLabel | src/components/BirthdayTimeline.tsx:19-22 | defines `monthCountLabel`: the count with 명 in Korean, 人 otherwise |
| Timeline.LabelsReadBack | src/components/BirthdayTimeline.tsx:14-22 | month and count labels end in 월/月 and 명/人 and read back as the number |
| Timeline.MmddLabel | src/components/BirthdayTimeline.tsx:24-28 | the label has the text's length |
| Timeline.MmddLabelCharacterized | src/components/BirthdayTimeline.tsx:24-28 | `MM-DD` becomes `MM/DD`, changing only the middle character; anything else is unchanged; labelling twice is labelling once |
| Timeline.MmddLabelOfFormat | src/components/IdolCard.tsx:10-15 | a birthday's `MM-DD` is shown as its padded month `/` padded day (`mmddToLabel` has the same definition) |
| Timeline.Favourites | src/components/BirthdayTimeline.tsx:150-153 | defines the favourites filter: the list unchanged when off, the records whose id is a favourite when on |
| Timeline.FavouritesCharacterized | src/components/BirthdayTimeline.tsx:150-153 | off, the list is unchanged; on, exactly the favourite idols, in order |
| Timeline.ToggleOshi | src/components/BirthdayTimeline.tsx:165-172 | the method computes the toggled set |
| Timeline.Toggled | src/components/BirthdayTimeline.tsx:165-172 | defines the set after `toggleOshi(id)`: `id` removed when present, added when absent |
| Timeline.ToggledCharacterized | src/components/BirthdayTimeline.tsx:165-172 | the id flips membership, others keep theirs, and toggling twice restores the set |
| Timeline.MonthOf | src/components/BirthdayTimeline.tsx:80-82 | a month exists exactly when the birthday parses, and is 1 to 12 |
| Timeline.GroupByUpcomingMonth | src/components/BirthdayTimeline.tsx:75-92 | the loop computes the grouping as specified |
| Timeline.AddToGroups | src/components/BirthdayTimeline.tsx:79-89 | defines one turn of the grouping loop: no month, skipped; a new month, a new group; the same month, added to the last group |
| Timeline.GroupSpec | src/components/BirthdayTimeline.tsx:75-92 | defines the grouping as the loop turn applied to each record in list order |
| Timeline.AddToGroupsFlatten | src/components/BirthdayTimeline.tsx:84-88 | one step appends the record, when it has a month, to the groups' records |
| Timeline.AddToGroupsInvariant | src/components/BirthdayTimeline.tsx:84-88 | groups stay single-month with neighbours of different months |
| Timeline.GroupSpecFlatten | src/components/BirthdayTimeline.tsx:75-92 | the groups hold the records that have a month, in list order |
| Timeline.GroupSpecShape | src/components/BirthdayTimeline.tsx:75-92 | each group holds one month, and neighbouring groups hold different months |
| Timeline.GroupSpecEmpty | src/components/BirthdayTimeline.tsx:75-92 | no records give no groups |
| Timeline.MonthComesBack | src/components/BirthdayTimeline.tsx:84-87 | a month that comes back after another starts a new group |
| Timeline.SameMonthJoins | src/components/BirthdayTimeline.tsx:84-88 | consecutive records of one month share a group |
| Strings.TrimEach | src/components/IdolCard.tsx:26 | each alias part is trimmed, position by position; the header row of `src/lib/sheets.ts:126` is trimmed the same way |
| IdolCard.AliasParts | src/components/IdolCard.tsx:22-27 | defines the parts: nothing for a blank name, else the pieces between `/` and `／`, each trimmed, the empty ones dropped |
| IdolCard.SplitGroupAliases | src/components/IdolCard.tsx:21-29 | the aliases have no repeats and are exactly the trimmed non-empty parts |
| IdolCard.AliasesClean | src/components/IdolCard.tsx:24-27 | an alias is non-empty, trimmed, has no separator, and is made of the name's characters |
| IdolCard.AliasesComplete | src/components/IdolCard.tsx:22-27 | every character of the name other than white space and separators is in some alias |
| IdolCard.SplitGroupAliasesEmptyIff | src/components/IdolCard.tsx:21-29 | there are no aliases exactly when the name is missing or holds only white space and separators |
| IdolCard.SplitGroupAliasesOrder | src/components/IdolCard.tsx:28 | the aliases are the parts, each at its first occurrence, in the order of those occurrences; parts without repeats are returned as they are |
| IdolCard.AliasPartsRepeated | src/components/IdolCard.tsx:24-27 | a name repeated around a slash splits into two equal parts |
| IdolCard.SplitGroupAliasesRepeated | src/components/IdolCard.tsx:21-29 | a name repeated around a slash, such as "GroupA/GroupA", gives the name once |
| IdolCard.AliasPartsThree | src/components/IdolCard.tsx:24-27 | "a/b/a" splits into the parts a, b, a in that order |
| IdolCard.SplitGroupAliasesFirstKept | src/components/IdolCard.tsx:21-29 | "a/b/a" gives the aliases a, b: the repeat keeps its first place |
| IdolCard.ParseNatToString | src/components/IdolCard.tsx:34-37 | the printed number reads back |
| IdolCard.ReadAhead | src/components/IdolCard.tsx:34 | `+n日` and `+n일` read back as n |
| IdolCard.ReadAgo | src/components/IdolCard.tsx:35-37 | `n日前` and `n일 전` read back as -n |
| IdolCard.FormatRemainingDays | src/components/IdolCard.tsx:31-38 | defines `formatRemainingDays`: "" for no number, today's word for 0, `+n` with the unit ahead, yesterday's word for -1, else `n` days ago |
| IdolCard.RemainingDaysRoundTrip | src/components/IdolCard.tsx:31-38 | every label reads back as its days, "" as no number |
| IdolCard.FormatRemainingDaysInjective | src/components/IdolCard.tsx:31-38 | different days never share a label |
| IdolCard.FormatRemainingDaysShape | src/components/IdolCard.tsx:31-38 | "" only for a non-finite number, a leading `+` exactly for days ahead, a leading digit exactly for two or more days ago |
| IdolCard.IsActive | src/components/IdolCard.tsx:137-139 | defines the active test: a non-empty token is set and the alias normalizes to the same text |
| IdolCard.IsActiveProperties | src/components/IdolCard.tsx:137-139 | with no token nothing is active; the token itself is active; aliases that normalize alike are active together |
| HomeHero.NormalizedAliases | src/components/HomeHeroToday.tsx:51-54 | the normalized aliases are the aliases, each normalized |
| HomeHero.NormalizedAliasesHas | src/components/HomeHeroToday.tsx:51-54 | the key is among them exactly when some alias normalizes to it |
| HomeHero.GroupMembers | src/components/HomeHeroToday.tsx:48-56 | defines `groupMembers`: nothing without a token, else the idols one of whose normalized aliases is the normalized token |
| HomeHero.GroupMembersCharacterized | src/components/HomeHeroToday.tsx:48-56 | no token gives no members; members are in list order, exactly the idols with an alias the card marks active |
| HomeHero.ShownFirstTen | src/components/HomeHeroToday.tsx:58 | at most the first ten records are shown, in order; `hasMore` exactly when some record is hidden |
| HomeHero.Shown | src/components/HomeHeroToday.tsx:58 | defines the first ten records of the next thirty days |
| HomeHero.HasMore | src/components/HomeHeroToday.tsx:58 | defines `hasMore`: more than ten records |
| LanguageToggle.LangOfCode | src/components/LanguageToggle.tsx:8 | a recognised segment is the code of its language |
| LanguageToggle.Replaced | src/components/LanguageToggle.tsx:8 | defines the regular-expression replacement of a leading `/ja` or `/ko` segment |
| LanguageToggle.SwapLangAsWritten | src/components/LanguageToggle.tsx:7-12 | defines `swapLang` as written: `/{lang}` whenever the replacement changed nothing |
| LanguageToggle.SwapLang | src/components/LanguageToggle.tsx:7-12 | defines `swapLang` as its comment describes it: `/{lang}` only for a path with no language prefix |
| LanguageToggle.ReplacedUnchangedIff | src/components/LanguageToggle.tsx:8-10 | the replacement changes nothing exactly when there is no prefix or it already names the language |
| LanguageToggle.SwapLangAsWrittenCollapses | src/components/LanguageToggle.tsx:8-11 | as written, a path under the target language collapses to its top page; this is the only case where the two versions differ |
| LanguageToggle.SwapLangAsWrittenCounterexample | src/components/LanguageToggle.tsx:8-11 | "/ko/calendar" to Korean gives "/ko" as written and stays "/ko/calendar" when corrected |
| LanguageToggle.SwapLangStays | src/components/LanguageToggle.tsx:9 | switching to the current language keeps the path |
| LanguageToggle.SwapLangUnderTarget | src/components/LanguageToggle.tsx:7-12 | the result always starts with `/` and the language, followed by nothing or `/` |
| LanguageToggle.SwapLangKeepsRest | src/components/LanguageToggle.tsx:8-10 | the rest of the path is kept after the prefix; a path without one gives `/{lang}` |
| LanguageToggle.SwapLangRoundTrip | src/components/LanguageToggle.tsx:7-12 | only the last switch counts; switching back restores the path |
| LanguageToggle.SwapLangExamples | src/components/LanguageToggle.tsx:8-10 | "/ja/calendar" becomes "/ko/calendar"; "/", "/jap" and "/en/x" become "/ko" |
| LanguageToggle.WithQueryCharacterized | src/components/LanguageToggle.tsx:20-22 | `?qs` is appended exactly when the query is non-empty, after the unchanged base |
| LanguageToggle.WithQuery | src/components/LanguageToggle.tsx:20-22 | defines the link with its query: `?qs` appended when the query is non-empty |
| LanguageToggle.WithQueryInjective | src/components/LanguageToggle.tsx:20-22 | links with the same query are equal only when their bases are |
| LanguageToggle.LanguageLinks | src/components/LanguageToggle.tsx:14-22 | defines the rendered links: each language's `swapLang` as written, from the path or "/", with the query |
| LanguageToggle.LanguageLinksLead | src/components/LanguageToggle.tsx:14-22 | each rendered link leads under its language with the query; a page under the other language keeps the rest of its path; a page under the link's own language, a path without a prefix and a missing path all lead to the language's top page, so on "/ko/calendar" the KO link is "/ko" |
| LanguageToggle.LanguageLinksCorrected | src/components/LanguageToggle.tsx:7-22 | defines the links with the corrected `swapLang` |
| LanguageToggle.LanguageLinksCorrectedLead | src/components/LanguageToggle.tsx:7-22 | with the correction, the link of the language the page is under leads back to the page itself, and a missing path gives the top pages |
| LanguageToggle.LanguageLinksDiffer | src/components/LanguageToggle.tsx:7-22 | the rendered links differ from the corrected ones exactly on a page under `/ja` or `/ko` with more after the prefix |
| HeaderNav.CalendarBase | src/components/HeaderNavLink.tsx:11 | the calendar base is twelve characters under the language prefix |
| HeaderNav.IsCalendarPage | src/components/HeaderNavLink.tsx:12 | defines `isCalendarPage`: the calendar base itself or a path starting with it and `/` |
| HeaderNav.IsCalendarPageSegment | src/components/HeaderNavLink.tsx:12 | a calendar page starts with the base and ends there or continues with `/` |
| HeaderNav.HeaderNavLink | src/components/HeaderNavLink.tsx:9-15 | defines the link: the top page with the top label on a calendar page, else the calendar with its title, for the path or `/{lang}` |
| HeaderNav.CalendarsIsNotCalendarPage | src/components/HeaderNavLink.tsx:12 | "/ja/calendars" starts with the base but is not a calendar page |
| HeaderNav.HeaderNavLinkLeadsAway | src/components/HeaderNavLink.tsx:14-15 | on a calendar page the link is the top page with the top label, elsewhere the calendar with its title; it never leads to the page itself |
| HeaderNav.MissingPathLeadsToCalendar | src/components/HeaderNavLink.tsx:9-15 | a missing path counts as `/{lang}`, which is not a calendar page, so the link leads to the calendar |

## Left out

- `Intl.DateTimeFormat` and `Date` string parsing (`src/lib/birthday.ts:5-19, 25-28, 46-61`) are integer arithmetic instead. Instants are integer milliseconds, Japan time is a fixed nine-hour offset, and dates are Gregorian day numbers. Years are unbounded, while `new Date("YYYY-...")` accepts only four-digit years, so years outside 1000-9999 are not modelled as failures.
- `new Date()` defaults: `now` is a parameter.
- `NaN` is `None`, and `Number.isFinite` is `Some?`. Days are integers throughout. `IdolCard.FormatRemainingDays` takes an `Option<int>`, so a finite non-integer number is not modelled.
- `localeCompare` is code-unit lexicographic order. It agrees with the source on `MM-DD` texts. ICU collation of other slugs can differ.
- `Array.prototype.sort` is an insertion sort. The language requires a stable sort, and the comparator is a consistent total preorder (proved), so the sort is fully determined.
- The `?? ""` and `?? id` fallbacks of the comparator never apply: `birthday_mmdd` and `slug` are always present in a record.
- Sheets.NormalizeMmdd: each part must be ASCII decimal digits. `Number()` also accepts forms such as "+1", "1.0", "0x1" and "1e0", which the model rejects.
- SheetsRows.Lower: lower-cases ASCII letters only. The source's `toLowerCase` is Unicode-wide; only its effect on the comparison with "active" matters here.
- `fetchIdols` I/O is not modelled: the environment variable, `fetch`, its caching option, `statusText` and the console logging. The URL and the response are parameters, and thrown errors are `Err` values.
- `normalize("NFKC")` and Unicode `toLowerCase` in `normalizeForToken` (IdolCard, HomeHeroToday) are an arbitrary function parameter `norm`.
- React state, effects, refs, scrolling, DOM listeners and rendering are not modelled. Neither is the localStorage load/save of `BirthdayTimeline.tsx:30-68` or the page code that builds `todayIdols`, `yesterdayIdols` and `next30Idols`.
- Timeline.GroupByUpcomingMonth: `current.idols.push` mutates the group object already pushed onto `groups`. This aliasing is modelled as replacing the last group with its extended copy. The observable list is the same, as `current` is always the last group. The `!month` test drops only unparsed birthdays, since a parsed month is at least 1.
- The copy table of `src/lib/i18n.ts` is not modelled: the header link's label is a `NavLabel` value. The day and month words of the labels are written out.
- `src/lib/x-intent.ts`, `FooterBanner.tsx`, `SiteHeader.tsx` and the `app/` pages are not part of this model.
- `useSearchParams()?.toString()` is an `Option<string>` query parameter.
- LanguageToggle.LanguageLinks is the toggle as written, over `SwapLangAsWritten`. `LanguageLinksCorrected` is the same toggle over the corrected `SwapLang` (see Findings).

## Findings

| source | as written | input that shows it | evidently intended | confidence | as-written member | corrected member |
|---|---|---|---|---|---|---|
| src/components/LanguageToggle.tsx:8-11 | "no language prefix" is detected by `replaced === pathname`, but a path already under `nextLang` is also left unchanged by the replacement, so it falls back to `/{nextLang}` | pathname "/ko/calendar", nextLang "ko": the KO link leads to "/ko" | the comment at line 9 limits the fallback to routes not under `/ja` or `/ko`, so "/ko/calendar" should stay "/ko/calendar" | medium; not executed | LanguageToggle.LanguageLinksLead | LanguageToggle.LanguageLinksCorrectedLead |

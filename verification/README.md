# guess-your-spending: the ingestion and aggregation core in Dafny

This project models the logic layer of guess-your-spending. That is the code behind a quiz in which a user uploads a bank or YNAB CSV export and guesses how much they spent per payee or per category. The model covers three pieces:

- **Importer** (`lib/csv-parser.ts`), made of four parts:
  - the lenient currency parser `parseAmount`;
  - header detection (`detectColumnMapping`): a priority-ordered table of header synonyms;
  - the row normaliser (`transformRow`), with its ordered rejection rules;
  - the completion step of `parseTransactionCSV`, which validates the mapping and keeps the rows that normalise.
- **Aggregator** (`lib/aggregator.ts`), made of two operations:
  - `aggregateTransactions`, in order: date filter, group by payee or category, skip blank and excluded keys, sum and count, minimum amount, stable descending sort, `topN` cut;
  - `getTotalSpending`.
- **Helpers** (`lib/utils.ts`):
  - date ranges from a preset or from a year and month;
  - inclusive date filtering;
  - the years present in the data;
  - months between two dates;
  - the scoring of guesses: percentage difference, accuracy band and overall score.

Modules, one per file:

| file | module | content |
|---|---|---|
| wrappers.dfy | Wrappers | `Option`, standing in for `undefined`/`null` |
| text.dfy | Text | ECMAScript `trim`, ASCII `toLowerCase`, `includes` |
| seqs.dfy | Seqs | order-preserving `filter`, `map`-then-drop-`null`, first index |
| types.dfy | Types | `Transaction`, `YNABTransaction`, `SpendingCategory`, `GameResult` |
| amount.dfy | Amount | `parseAmount` and the `parseFloat` prefix grammar |
| columns.dfy | Columns | `ColumnMapping` and `detectColumnMapping` |
| rows.dfy | Rows | `transformRow` |
| ingest.dfy | Ingest | `processTransactions` and the completion step of `parseTransactionCSV` |
| dates.dfy | Dates | calendar days and the `Date(year, month, day)` / `setMonth` carrying rules |
| ranges.dfy | Ranges | preset and custom ranges, date filtering, available years |
| ranking.dfy | Ranking | the stable descending sort and `slice(0, topN)` |
| aggregator.dfy | Aggregator | grouping and `aggregateTransactions`, `getTotalSpending` |
| scoring.dfy | Scoring | percentage difference, accuracy bands, overall score |

Representation choices:

- **Amounts** are `real`, so there is no floating-point rounding.
- **`parseFloat`** is modelled as JavaScript's longest-prefix reading:
  - optional sign;
  - digits, an optional `.` and more digits;
  - an optional exponent.
- **Dates** are `(year, month 0..11, day)` triples ordered lexicographically. Parsing a date string (`new Date(text)`) is a function parameter `parse: string -> Option<Date>`, where `None` means an invalid date. The current day is a parameter `now`.
- **CSV tokeniser output** is the header list plus one `map<string, string>` per record.

Two points about the grouping key:

- `aggregateTransactions` (`lib/aggregator.ts:15`) takes `YNABTransaction`, not the importer's `Transaction`. It keys on `payee` or `category` and sums `outflow` (`lib/aggregator.ts:30,44`).
- A key counts as blank when `key.trim() === ''`. The trim uses the full ECMAScript whitespace set.

## Model

| member | source | states |
|---|---|---|
| Text.Trim | lib/csv-parser.ts:197 | the result is a slice of the input with only whitespace cut from either end, and it has no whitespace at either end |
| Text.TrimIdempotent | lib/csv-parser.ts:197 | trimming twice is trimming once |
| Text.TrimmedIff | lib/csv-parser.ts:197 | a string is its own trim exactly when neither end is whitespace |
| Text.BlankIffAllSpace | lib/aggregator.ts:33 | a key trims to empty exactly when every character is whitespace |
| Text.Lower | lib/csv-parser.ts:204 | lower-casing keeps the length and maps each character on its own |
| Text.LowerTrimmed | lib/csv-parser.ts:106 | lower-casing a trimmed header keeps it trimmed |
| Text.Contains | lib/csv-parser.ts:204 | a substring at the front is found, and a substring longer than the text never is; `ContainsIff` gives the full characterisation |
| Text.ContainsIff | lib/csv-parser.ts:204 | `includes` holds exactly when the substring occurs at some position |
| Seqs.Filter | lib/utils.ts:173-176 | the kept elements are exactly the elements satisfying the predicate, and there are no more of them than inputs |
| Seqs.FilterConcat | lib/utils.ts:173-176 | filtering distributes over concatenation, so the original order is kept |
| Seqs.FilterIncreasing | lib/aggregator.ts:56 | filtering keeps any strict order the elements were in |
| Seqs.FilterMap | lib/csv-parser.ts:187-189 | `map` then drop `null` keeps exactly the present results |
| Seqs.FilterMapConcat | lib/csv-parser.ts:187-189 | map-and-drop distributes over concatenation |
| Seqs.FirstIndexFirst | lib/aggregator.ts:42-46 | the first-index search finds a match with no match before it |
| Amount.StripCurrency | lib/csv-parser.ts:288 | removing the marks never lengthens the text |
| Amount.StripLeavesNoMarks | lib/csv-parser.ts:288 | no `$ , € £ ¥` survives the replace |
| Amount.StripKeeps | lib/csv-parser.ts:288 | every surviving character comes from the input |
| Amount.StripConcat | lib/csv-parser.ts:288 | the global replace distributes over concatenation |
| Amount.StripUnmarked | lib/csv-parser.ts:288 | text without marks is left unchanged |
| Amount.ParseFloat | lib/csv-parser.ts:289 | a number is read only from text that has a digit |
| Amount.ParsedNeedsDigit | lib/csv-parser.ts:288-291 | whenever the cleaned cell parses, the raw cell contains a digit |
| Amount.ParseAmount | lib/csv-parser.ts:278-292 | a numeric cell is returned unchanged; a missing cell is 0; any non-zero result from text needs a digit in the text |
| Amount.ParseAmountIgnoresMarks | lib/csv-parser.ts:288 | stripping the marks first changes nothing |
| Amount.ParseAmountRoundTrip | lib/csv-parser.ts:276-291 | every amount of whole cents written as `-$d.cc` or `$d.cc` reads back as itself |
| Amount.ParseAmountGrouped | lib/csv-parser.ts:276-291 | `$a,b.f` reads as the number with digits `ab` and fraction `f` |
| Amount.ParseAmountExample | lib/csv-parser.ts:276-291 | `"$1,234.56"` reads as 1234.56 |
| Amount.ReadPlain | lib/csv-parser.ts:288-291 | a plain `d.f` reads as its decimal value |
| Amount.ReadPointed | lib/csv-parser.ts:289 | `parseFloat` reads `d.f` as its decimal value |
| Amount.UnsignedPlain | lib/csv-parser.ts:289 | the unsigned grammar reads `d.f` as its decimal value |
| Amount.ParseFloatNegated | lib/csv-parser.ts:289 | a leading `-` negates the value |
| Amount.ReadStrippedCents | lib/csv-parser.ts:289 | a formatted number of cents without its `$` parses to that many hundredths |
| Amount.StripFormatCents | lib/csv-parser.ts:288 | stripping a formatted amount removes exactly its `$` |
| Amount.StripGrouped | lib/csv-parser.ts:288 | stripping `$a,b` leaves `ab` |
| Columns.Keys | lib/csv-parser.ts:105-107 | one key per header, each the header lower-cased and then trimmed |
| Columns.KeyOfTrimmed | lib/csv-parser.ts:106 | for a header without outer whitespace, its key is its lower-cased form |
| Columns.LastIndexOf | lib/csv-parser.ts:105-107 | the position found holds the key, and no later position does |
| Columns.LastIndexOfFound | lib/csv-parser.ts:105-107 | a key is found exactly when it occurs |
| Columns.Bind | lib/csv-parser.ts:105-107 | the `Map` built from the headers has exactly the keys that occur, each bound to the header at its last occurrence |
| Columns.FirstHit | lib/csv-parser.ts:111-116 | the search stops at the first candidate present, and no earlier candidate is present |
| Columns.FirstMatchResolves | lib/csv-parser.ts:111-116 | one field's loop yields nothing when no candidate occurs; otherwise it yields the header at the last position of the first candidate that occurs |
| Columns.ResolvedKey | lib/csv-parser.ts:111-116 | a resolved field names a header whose key is one of the field's candidates |
| Columns.FirstMatch | lib/csv-parser.ts:111-116 | one field's loop yields nothing exactly when no candidate is a key; otherwise it yields the header bound to a present candidate with no earlier candidate present |
| Columns.DetectWith | lib/csv-parser.ts:101-181 | every field of the mapping is resolved from its own candidate list |
| Columns.DetectColumnMapping | lib/csv-parser.ts:101-181 | every one of the eight fields is resolved over the headers' normalised keys from its own candidate list |
| Columns.DetectedKeyIn | lib/csv-parser.ts:101-181 | every mapped value is an original header whose key is a candidate of that field |
| Columns.FieldListsDisjoint | lib/csv-parser.ts:110-172 | no candidate belongs to two fields |
| Columns.DetectedDistinct | lib/csv-parser.ts:109-178 | two fields are never mapped to the same header |
| Columns.FirstCandidateWins | lib/csv-parser.ts:111-116 | when the first candidate occurs, its last occurrence wins whatever else occurs |
| Columns.DescriptionResolves | lib/csv-parser.ts:119-125 | the description field follows its priority list |
| Columns.PayeeWins | lib/csv-parser.ts:119-125 | a `Payee` header beats `Description` and every other synonym |
| Rows.FieldText | lib/csv-parser.ts:197 | a field's text is trimmed, and it is empty when the field is unmapped |
| Rows.OptionalField | lib/csv-parser.ts:251-270 | an optional field is present exactly when its trimmed text is non-empty, and it then holds that text |
| Rows.RowAmount | lib/csv-parser.ts:214-241 | an accepted amount is positive |
| Rows.Assemble | lib/csv-parser.ts:243-272 | a transaction is built exactly when description, transfer, date and amount checks all pass, and it carries those values |
| Rows.TransformRow | lib/csv-parser.ts:195-273 | every emitted transaction is valid: non-empty trimmed description and date, not a transfer, positive amount, optional fields non-empty and trimmed; it carries the row's trimmed description and date, the row's amount, and the category, account and memo read from their own cells |
| Rows.RejectedIff | lib/csv-parser.ts:197-241 | rows are rejected in the order: blank description, then transfer, then blank date, then no amount; and rejection happens exactly in these cases |
| Rows.PairedAmount | lib/csv-parser.ts:217-227 | with both outflow and inflow mapped, the amount is the outflow when it is positive, and otherwise the row is rejected |
| Rows.InflowIgnored | lib/csv-parser.ts:217-227 | the inflow cell never affects the amount |
| Rows.TransformIgnoresInflow | lib/csv-parser.ts:195-273 | changing the inflow cell never changes the transaction |
| Rows.DetectedInflowIgnored | lib/csv-parser.ts:217-227 | under any detected mapping, the inflow cell is irrelevant |
| Rows.DistinctInflowApart | lib/csv-parser.ts:136-151 | with distinct fields, the inflow header is no other field's header |
| Rows.FieldUnchanged | lib/csv-parser.ts:251-270 | a cell outside a field does not affect that field |
| Rows.SingleAmount | lib/csv-parser.ts:228-238 | in the single-column model the amount is the absolute value, and a zero is rejected |
| Rows.OutflowAloneRejects | lib/csv-parser.ts:239-241 | an outflow column alone, with no inflow and no amount column, rejects every row |
| Ingest.ProcessTransactions | lib/csv-parser.ts:186-190 | the kept transactions are exactly the normalised rows, all valid |
| Ingest.ProcessConcat | lib/csv-parser.ts:186-190 | processing distributes over concatenation of records, so order is kept |
| Ingest.ProcessOne | lib/csv-parser.ts:186-190 | one record yields its transaction or nothing |
| Ingest.RejectedNone | lib/csv-parser.ts:186-190 | when every record is rejected, nothing is kept |
| Ingest.ParseTransactionCSV | lib/csv-parser.ts:29-78 | success exactly when there are records and the mapping has date, description and amount-or-outflow; a success holds exactly the transactions of the records that normalise, in record order; a failure carries a message and no transactions |
| Ingest.FailureOrder | lib/csv-parser.ts:31-70 | the failure message follows the order of the validations: empty file, then date, then description, then amount |
| Ingest.SuccessKeepsOrder | lib/csv-parser.ts:72-78 | more records append their transactions after the existing ones |
| Ingest.AllRejectedStillSucceeds | lib/csv-parser.ts:72-78 | a usable file whose rows are all rejected is a success with no transactions |
| Dates.DaysInMonth | lib/utils.ts:152 | months have 28 to 31 days, and 29 exactly for February of a Gregorian leap year |
| Dates.CarryDays | lib/utils.ts:151-152 | carrying an out-of-range day always lands on a real day |
| Dates.MakeDate | lib/utils.ts:151-157 | `new Date(year, month, day)` always lands on a real day |
| Dates.FullYear | lib/utils.ts:151 | years 0 to 99 stand for 1900 to 1999, and other years are themselves |
| Dates.ShiftMonths | lib/utils.ts:111-112 | `setMonth(getMonth() - n)` lands on a real day in the month n months back, keeping the day number when that month has it, and otherwise spilling into the month after by as many days as that month is short |
| Dates.CarryTarget | lib/utils.ts:151-152 | a month number carried into the year keeps the month index; the day is kept when the target month has it, and otherwise spills into the month after |
| Dates.CarryValid | lib/utils.ts:151 | a real day is left unchanged by carrying |
| Dates.CarryMonthIndex | lib/utils.ts:152 | carrying a month number into the year keeps the month index |
| Dates.DayZero | lib/utils.ts:152 | day 0 of the next month is the last day of the month |
| Dates.CarryNext | lib/utils.ts:152 | the month after a carried month is the carried month after it |
| Dates.LastDayOfMonth | lib/utils.ts:151-152 | `new Date(y, m + 1, 0)` is the last day of the month that `new Date(y, m, 1)` starts |
| Dates.CarryOnce | lib/utils.ts:112 | a day from 1 to 31 spills at most 3 days into the next month |
| Dates.ShiftBackEarlier | lib/utils.ts:110-129 | going back one or more months lands strictly earlier |
| Dates.ShiftMonthsDistance | lib/utils.ts:110-129 | going back n months spans n months, or n - 1 when the day spilled |
| Dates.MonthsBetween | lib/utils.ts:213-217 | the count is the number of months to add to the start's month to reach the end's month |
| Dates.MonthsBetweenOrder | lib/utils.ts:213-217 | days of one month are 0 months apart, and a positive distance means the first day is not later |
| Ranges.PresetMonths | lib/utils.ts:109-141 | `last-month` reaches back 1 month, `last-3-months` 3, `last-6-months` 6, and every other preset 12 |
| Ranges.PresetRange | lib/utils.ts:105-143 | `all-time` is 2000-01-01 to 2099-12-31; every other preset ends today and starts at today shifted back by the preset's number of months |
| Ranges.PresetOrdered | lib/utils.ts:105-143 | a preset range starts strictly before it ends and spans its number of months, or one fewer after a spill |
| Ranges.PresetFallback | lib/utils.ts:137-141 | `custom` and unknown presets give the 12-month range |
| Ranges.CustomRange | lib/utils.ts:148-160 | a year gives 1 January to 31 December; a month gives its day 1 to its last day, in the month that lies the given number of months after January of the year, so an out-of-range month carries into another year; the range is ordered and its ends are real days |
| Ranges.FilterByDate | lib/utils.ts:165-177 | no range keeps every transaction; otherwise a transaction is kept exactly when its parsed date lies within both ends inclusive, and an unparseable date is never kept |
| Ranges.FilterByDateConcat | lib/utils.ts:173-176 | date filtering keeps the original order |
| Ranges.InsertYear | lib/utils.ts:183-192 | adding a year to a strictly descending list keeps it strictly descending, and its members are the old ones plus the new year |
| Ranges.AvailableYears | lib/utils.ts:182-193 | strictly descending years, where a year is listed exactly when some transaction date parses to it |
| Ranking.InsertPos | lib/aggregator.ts:59 | an entry is placed after every larger one and before the first that is not larger |
| Ranking.Insert | lib/aggregator.ts:59 | inserting adds exactly one entry |
| Ranking.InsertSorted | lib/aggregator.ts:59 | inserting into a descending ranking keeps it descending |
| Ranking.SortByAmount | lib/aggregator.ts:59 | the sort is a permutation whose amounts never increase |
| Ranking.InsertWithAmount | lib/aggregator.ts:59 | an inserted entry goes before the entries of its own amount and does not reorder any amount |
| Ranking.SortStable | lib/aggregator.ts:59 | the sort is stable: for each amount, the entries with that amount keep their input order |
| Ranking.SliceLength | lib/aggregator.ts:61 | `slice(0, n)` keeps min(n, length) entries, and a negative n counts from the end |
| Ranking.Take | lib/aggregator.ts:61 | the cut is the head of the sequence |
| Ranking.TakeKeepsLargest | lib/aggregator.ts:59-61 | every kept entry is at least as large as every dropped one |
| Ranking.TakeLeavesSmaller | lib/aggregator.ts:59-61 | a dropped entry means the cut was shorter than the ranking, and every kept entry is at least as large |
| Aggregator.TotalSpending | lib/aggregator.ts:67-69 | no rows total 0, and rows with non-negative outflow total at least 0; `TotalSpendingConcat` and `TotalSpendingSnoc` fix the sum |
| Aggregator.TotalSpendingConcat | lib/aggregator.ts:67-69 | the total of a concatenation is the sum of the totals |
| Aggregator.TotalSpendingSnoc | lib/aggregator.ts:67-69 | one more row adds its outflow |
| Aggregator.FindName | lib/aggregator.ts:42 | the lookup finds the group with the key, or reports that none has it |
| Aggregator.AddTo | lib/aggregator.ts:42-46 | the group of the key gains the amount and one row, a new key opens a group of one at the end, and every other group is unchanged |
| Aggregator.Group | lib/aggregator.ts:27-47 | there are no more groups than rows, and every group holds at least one row; `GroupAgrees` gives their content |
| Aggregator.MembersSnoc | lib/aggregator.ts:29-47 | one more row joins exactly the group of its key, when it is counted |
| Aggregator.MembersNone | lib/aggregator.ts:29-47 | a key with no counted row has no members |
| Aggregator.MembersCounted | lib/aggregator.ts:30-40 | every member of a group is a counted row with that key |
| Aggregator.MembersOfSkippedKey | lib/aggregator.ts:33-40 | blank and excluded keys collect no rows |
| Aggregator.SummarisesSkip | lib/aggregator.ts:42-46 | a row outside a group leaves its total and count as they are |
| Aggregator.SummarisesAdd | lib/aggregator.ts:42-46 | a row of a group adds its outflow to the total and one to the count |
| Aggregator.SummarisesFirst | lib/aggregator.ts:42-46 | the first row of a key opens a group of one with its outflow |
| Aggregator.AddToNames | lib/aggregator.ts:43 | `Map.set` keeps keys distinct and in place, and adds a new key at the end |
| Aggregator.GroupAgrees | lib/aggregator.ts:27-47 | the groups have distinct names, each with the exact total and count of its rows, and every counted row has its group |
| Aggregator.GroupFirstOrdered | lib/aggregator.ts:27-47 | groups come in the order their keys first occur, the `Map`'s insertion order |
| Aggregator.GroupEntries | lib/aggregator.ts:27-55 | every group is keyed on a key that is neither blank nor excluded |
| Aggregator.GroupConserves | lib/aggregator.ts:27-47 | group totals add up to the outflow of the counted rows, and group counts to their number |
| Aggregator.FilterDistinct | lib/aggregator.ts:56 | the minimum-amount filter keeps names distinct |
| Aggregator.SortDistinct | lib/aggregator.ts:59 | the sort keeps names distinct |
| Aggregator.CandidateEntries | lib/aggregator.ts:50-56 | the candidates are distinct groups, each at least the minimum amount |
| Aggregator.RankedEntries | lib/aggregator.ts:50-59 | the ranking keeps the candidates' properties |
| Aggregator.AggregateTransactions | lib/aggregator.ts:15-62 | the result has distinct names and non-increasing amounts; each entry has a non-blank, non-excluded key, the exact sum and count of its date-filtered rows, and at least `minAmount` (default 0); it has at most `topN` entries (default 10) |
| Aggregator.AggregateIsPrefix | lib/aggregator.ts:61 | the result is the head of the ranking, cut as `slice(0, topN)` cuts |
| Aggregator.LargestKept | lib/aggregator.ts:59-61 | a qualifying group left out of the result was cut off, and is no larger than any entry kept |
| Aggregator.TopOneLargest | lib/aggregator.ts:59-61 | with `topN` 1, the single entry is at least as large as every qualifying group |
| Aggregator.MissingGroupIsSmaller | lib/aggregator.ts:27-61 | a counted key whose total reaches the minimum but is missing from the result was cut off, and every kept entry is at least its total |
| Aggregator.RankedTies | lib/aggregator.ts:50-59 | in the ranking, entries of equal amount stay in first-occurrence order |
| Aggregator.TiesInFirstOccurrenceOrder | lib/aggregator.ts:50-61 | in the result, entries of equal amount come in the order their keys first occur among the rows |
| Aggregator.CountsBounded | lib/aggregator.ts:27-61 | the counts of the result add up to no more than the number of rows with a non-blank, non-excluded key in the date range |
| Aggregator.EmptyIffNoCandidates | lib/aggregator.ts:50-61 | with `topN` at least 1, the result is empty exactly when no qualifying group remains |
| Aggregator.SumsAddTo | lib/aggregator.ts:42-46 | adding a row to the groups adds its outflow and one row to the sums |
| Aggregator.SumCountsSort | lib/aggregator.ts:59 | sorting does not change the total count |
| Aggregator.SumCountsFilter | lib/aggregator.ts:56 | filtering groups never adds to the total count |
| Aggregator.SumCountsTake | lib/aggregator.ts:61 | cutting groups never adds to the total count |
| Aggregator.WithAmountIsFilter | lib/aggregator.ts:59 | selecting one amount is an order-preserving filter |
| Scoring.PercentageDifference | lib/utils.ts:35-38 | the difference is never negative and is 0 exactly for an exact guess; against 0, any other guess is 100 |
| Scoring.PercentageIsRelativeError | lib/utils.ts:37 | against a non-zero actual, the percentage times abs(actual) equals 100 times abs(guess - actual) |
| Scoring.PercentageScaleFree | lib/utils.ts:35-38 | scaling guess and actual by the same non-zero factor leaves the percentage unchanged |
| Scoring.GetAccuracyRating | lib/utils.ts:43-79 | each label names exactly one band: up to 5 Excellent, up to 15 Good, up to 30 Fair, up to 50 Poor, above that Very Poor |
| Scoring.RatingBands | lib/utils.ts:48-78 | a percentage is in a band exactly when it is above the previous band's bound and not above its own |
| Scoring.RatingMonotone | lib/utils.ts:48-78 | a larger percentage never earns a better band |
| Scoring.Clamp | lib/utils.ts:91 | the clamp lies in 0..100, and leaves values already in range alone |
| Scoring.OverallScore | lib/utils.ts:84-92 | the score lies in 0..100 and is 0 with no results; otherwise it is 100 minus the mean percentage when that mean lies in 0..100, 0 when the mean is 100 or more, and 100 when the mean is 0 or less |
| Scoring.MixedScore | lib/utils.ts:84-92 | one exact guess and one 300 % off average to 150 % off and score 0, because the mean is clamped and not each percentage |
| Scoring.ScoreIsComplementOfMean | lib/utils.ts:84-92 | with percentages in 0..100, the score is 100 minus their mean |
| Scoring.PerfectScore | lib/utils.ts:84-92 | all-exact guesses score 100 |
| Scoring.HopelessScore | lib/utils.ts:84-92 | guesses all at least 100 % off score 0 |
| Scoring.ScoreMonotone | lib/utils.ts:84-92 | guesses that are closer term by term never score lower |
| Scoring.SumAtLeast | lib/utils.ts:87 | n percentages each at least lo sum to at least n * lo |
| Scoring.SumAtMost | lib/utils.ts:87 | n percentages each at most hi sum to at most n * hi |
| Scoring.SumMonotone | lib/utils.ts:87 | smaller percentages term by term have a smaller sum |

## Left out

- The CSV tokeniser, the `Promise` wrapper and the error callback (`lib/csv-parser.ts:24-29, 87-95`). They are an external library and asynchronous plumbing. The model takes the header list and the records as given, so `results.meta.fields || []` and a `null` `results.data` do not arise.
- The `try`/`catch` of the completion step (`lib/csv-parser.ts:79-85`). Nothing in the modelled code throws.
- Amount.ParseAmount: the numeric-cell branch is a passthrough only. With `header: true` every cell is text.
- Amount.ParseFloat: does not model IEEE-754 rounding, or the `Infinity` spellings. It reads sign, digits, `.`, digits and exponent into an exact `real`.
- Text.Lower: lower-cases ASCII letters only. Unicode case mapping beyond ASCII is a library table.
- Ranges.FilterByDate: compares whole days. Time of day, and the time-zone skew between ISO strings parsed as UTC and local-midnight bounds, are left out. Date parsing is the parameter `parse`.
- Ranges.PresetRange: takes the current day as the parameter `now`, with no time of day.
- Aggregator.TotalSpending: sums exact reals, so the floating-point rounding of the JavaScript sum is not modelled.
- Aggregator.AggregateTransactions: `topN` is an integer. A fractional `topN` and a comparator returning `NaN` are not modelled.
- `getDateRange` (`lib/aggregator.ts:74-94`). Its result is locale-formatted text from `toLocaleDateString`.
- `formatCurrency`, `formatCurrencyDetailed` and `formatDateRange` (`lib/utils.ts:11-30, 198-208`). They are Intl locale formatting.
- `cn` (`lib/utils.ts:4-6`). It is a call into class-name merging libraries.
- The React components and pages, the game loop and the session-storage handoff. They are presentation and browser state.

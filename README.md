# Installments page: a verified model of its data pipeline

The installments page (`src/App.js`) fetches a spreadsheet published as CSV. Each row is one installment
of an apartment: its Apartment, its Due Date written `dd-MM-yyyy`, and free-text columns such as Amount,
Per Person, Check by and Notes. The page then does three things.

- `parseData` drops the rows whose Apartment is blank after trimming.
- `categorizePayments` does four steps:
  - it parses each Due Date with date-fns `parse(…, "dd-MM-yyyy", …)`;
  - it keeps the rows whose date is valid, called `validData`;
  - it files into three buckets the payments due on or after the current instant `today`: those due in
    today's month, in the next month and in the month after that;
  - it sorts `validData` in place by due date for the "All Installments" view.
- Each card of the full view is marked past-due when its due date is before the render time.

The model is written in Dafny and proves the following.

- `parseData` keeps exactly the rows whose Apartment holds a character other than whitespace, in their
  original order.
- A row survives `validData` exactly when its Due Date text parses. Such a date is never defaulted, and it
  is the day, month and year spelled in the text.
  - The parser also accepts what a formatter writes: formatting a date and parsing it gives the date back.
- Bucket `k` (0, 1, 2) holds exactly the valid payments that meet two conditions:
  - they are due on or after `today`;
  - their month is `k` months after today's, counting across a year end.
  - In addition: each bucket keeps the order of `validData`; no payment is in two buckets; no bucketed
    payment is past due at `today`; a payment due later than the month after next is in no bucket.
- The full view is sorted ascending by calendar date. It is a permutation of `validData`, overdue payments
  included, and it is stable: payments due on the same day keep their `validData` order. The in-place
  insertion sort on an array is proved to compute that sorted sequence.
- The past-due cards form a prefix of the full view.
- A worked example (`Scenario.MarchScenario`) uses the rows A1 (due 05-03-2025), A2 (due 05-04-2025) and a
  row with a blank Apartment, with `today` at 00:00 on 1 March 2025. A1 lands in the current month, A2 in
  the next month, the following month is empty, and the full view is A1 then A2.
- A second example (`Scenario.OverdueScenario`) uses a row B1 due 01-03-2025, with `today` on 10 March
  2025. B1 is in no month bucket, it is the whole full view, and its card is past due.

A payment due on today's own date (its due time is 00:00) is in a bucket only when `today` is exactly
00:00; at any later time of the day it counts as already due. The code behaves this way because the parsed
date is midnight while `today` carries the clock time. `Installments.OnOrAfterToday` and
`Installments.PastDueMeans` state it, and the model keeps this behaviour.

Library behaviour is modelled as follows.

- JavaScript `String.prototype.trim` strips the ECMAScript white-space and line-terminator characters
  (`JsText`).
- date-fns `parse` with `dd-MM-yyyy` behaves as follows (`DateParse`):
  - `dd` and `MM` read one or two digits and `yyyy` one to four, each greedily, and the dashes are literal;
  - anything after the year must be whitespace;
  - the year must be positive, the month 1 to 12 and the day within the month;
  - the time of day is 00:00.
- `addMonths` moves to the same time of day `n` months later and clamps the day to the month's length.
  `isSameMonth` compares the year and the month (`Calendar`).
- A JavaScript `Date` is a proleptic Gregorian calendar day plus the milliseconds since its midnight. Its
  time value counts days from 0001-01-01 rather than from 1970-01-01; this constant shift changes no
  comparison and no difference.
- `Array.prototype.sort` is stable (ECMAScript 2019 and later). The comparator `a - b` on due dates sorts
  by time value.

Modules: `Prelude` (Option, `Filter` and its subsequence facts), `JsText`, `Calendar`, `DateParse`,
`Payments` (rows and parsed entries), `StableSort` (the sort, generic over an integer key),
`Installments` (the component's logic and state) and `Scenario` (worked examples).

## Model

| member | source | states |
|---|---|---|
| Installments.ParseData | src/App.js:40 | every row kept has an Apartment whose trimmed text is not empty |
| Installments.ParseDataKeeps | src/App.js:34-40 | the result is the sub-sequence, in order, of exactly those rows whose Apartment is not all whitespace |
| Prelude.Filter | src/App.js:54-56 | keeps only elements satisfying the predicate, never more than the input |
| Prelude.FilterPositions | src/App.js:58-71 | the kept elements are exactly the input's elements satisfying the predicate, at increasing positions, in order |
| JsText.TrimStart | src/App.js:40 | strips a whitespace prefix and stops at the first non-whitespace character |
| JsText.TrimEnd | src/App.js:40 | strips a whitespace suffix and stops at the last non-whitespace character |
| JsText.Trim | src/App.js:40 | `trim()` is never longer than its input, neither begins nor ends with whitespace, and is non-empty whenever the input holds a non-whitespace character |
| JsText.TrimEmptyIffAllWhitespace | src/App.js:40 | `trim()` returns "" exactly when the text is all whitespace |
| DateParse.DigitRun | src/App.js:50 | a numeric field is the longest run of at most the field's width of digits |
| DateParse.NumberPrefix | src/App.js:50 | a field is read greedily and fails exactly when the text does not start with a digit |
| DateParse.ParseDueDate | src/App.js:50 | a parsed date has a year of one to four digits, above 0 |
| DateParse.ParseLayout | src/App.js:50 | text laid out as `dd-MM-yyyy` then whitespace parses exactly when the fields spell a real date with a positive year, and then to that date |
| DateParse.ParseSound | src/App.js:50 | whatever parses was written as `dd-MM-yyyy` then whitespace, and its date is the one the fields spell |
| DateParse.ParseFormat | src/App.js:50 | formatting a date as `dd-MM-yyyy` and parsing it returns the same date |
| DateParse.FixedDigits | src/App.js:50 | a number written zero-padded to a width reads back as that number |
| Calendar.DaysInMonth | src/App.js:50 | months have 28 to 31 days, and 29 exactly for February of a leap year |
| Installments.ParseRowDue | src/App.js:50 | a row without a Due Date column reads as an Invalid Date; a date that parses has a year from 1 to 9999 |
| Installments.ParsedData | src/App.js:49-52 | each row is kept whole, paired with its parsed Due Date |
| Installments.ValidData | src/App.js:54-56 | every entry kept has a valid date |
| Installments.ValidDataKeeps | src/App.js:49-56 | a row reaches `validData` exactly when its Due Date parses, in order; its date is the parse of its own text and is never defaulted |
| Installments.ValidDueAsWritten | src/App.js:50-56 | a valid entry's date is the day, month and year its text spells |
| Calendar.DayNumberOrder | src/App.js:60 | day numbers order dates as the calendar does and name each date once |
| Calendar.TimeValue | src/App.js:60 | the time value a `Date` is compared by holds its calendar day and its time of day, each recoverable from it |
| Calendar.TimeValueOrder | src/App.js:60 | comparing two instants compares their days first and their times of day second; equal time values are equal instants |
| Payments.DueTimeOrder | src/App.js:77 | due times order entries as their calendar dates do; equal due times mean equal dates |
| Calendar.AddMonths | src/App.js:46-47 | `addMonths(t, n)` is `n` months later, at the same time of day, with the day kept or clamped to the month's last day |
| Calendar.AddMonthsRollover | src/App.js:46-47 | adding up to twelve months stays in the year, or rolls over into the next year with the month reduced by 12 |
| Calendar.IsSameMonth | src/App.js:60 | two dates in the same month have the same month index |
| Calendar.SameMonthIndex | src/App.js:60 | `isSameMonth` holds exactly when the two month indexes are equal |
| Installments.TargetMonth | src/App.js:45-47 | the month of bucket `k` is `k` months after today's |
| Installments.OnOrAfterToday | src/App.js:58-71 | a due date passes `>= today` exactly when it is a later day, or today's date with `today` at exactly 00:00 |
| Installments.MonthBucket | src/App.js:58-71 | each bucket is no longer than `validData`, and every entry in it comes from `validData`, is dated, and falls in the bucket's month |
| Installments.BucketMembers | src/App.js:44-71 | bucket `k` holds exactly the valid entries due on or after `today` whose month is `k` months after today's |
| Installments.BucketKeeps | src/App.js:58-71 | each bucket is the sub-sequence of `validData`, in order, of the entries passing its filter |
| Installments.BucketsDisjoint | src/App.js:58-71 | no entry is in two of the buckets |
| Installments.BeyondFollowingMonth | src/App.js:44-71 | an entry due after the month after next is in no bucket |
| Installments.BucketNotPastDue | src/App.js:58-71 | no bucketed entry is past due at `today` |
| Installments.IsPastDue | src/App.js:133 | a card due on an earlier day is past due, and a past-due card is never due on a later day |
| Installments.PastDueMeans | src/App.js:133 | a card is past due exactly when its date is an earlier day, or today's date with the clock past 00:00 |
| Installments.PastDueFirst | src/App.js:133 | in a view sorted by due date, a past-due card is preceded only by past-due cards |
| StableSort.InsertBy | src/App.js:77 | inserting adds exactly one element and keeps the others |
| StableSort.SortBy | src/App.js:77 | the sorted sequence is a permutation of its input |
| StableSort.SortBySorted | src/App.js:77 | the sorted sequence is ascending by the key |
| StableSort.SortByStable | src/App.js:77 | elements with equal keys keep their relative order |
| StableSort.InsertByAt | src/App.js:77 | inserting places the element just after the last one whose key does not exceed its own |
| StableSort.ShiftGreater | src/App.js:77 | the elements greater than the one inserted move one place right, and the slot `j` they open keeps its old element, and the rest stay |
| StableSort.InsertAt | src/App.js:77 | one step of the in-place sort inserts `a[i]` into the sorted prefix and leaves the rest of the array |
| StableSort.InsertionSortBy | src/App.js:77 | the in-place sort leaves the array holding the stable sort of its old contents |
| Installments.DueKey | src/App.js:77 | the sort key of a dated entry is its due date at 00:00, in milliseconds, a whole number of days |
| Installments.FullView | src/App.js:77 | the full view is ascending by calendar date, a permutation of `validData`, and stable on equal dates |
| Installments.CategorizePayments | src/App.js:43-78 | the three buckets and the sorted full view are those of the valid entries of the input rows |
| Installments.InstallmentsPage.constructor | src/App.js:10-13 | the four state slots start empty |
| Installments.InstallmentsPage.FeedLoaded | src/App.js:24-27 | after a successful fetch the slots hold the buckets and the sorted full view of the rows with an apartment |
| Scenario.ParseDataExample | src/App.js:40 | of the rows A1, A2 and a blank-Apartment row, `parseData` keeps A1 and A2 in that order |
| Scenario.MarchScenario | src/App.js:43-78 | with `today` at 00:00 on 1 March 2025, A1 (due 05-03-2025) is the current month, A2 (due 05-04-2025) the next month, the following month is empty, the blank row is nowhere, and the full view is A1 then A2 |
| Scenario.OverdueScenario | src/App.js:58-77 | with `today` at any time on 10 March 2025, a row due 01-03-2025 is in no bucket, is the whole full view, and its card is past due |

## Left out

- Fetching the feed with axios and logging a failed fetch (src/App.js:19-32) are I/O. The model starts
  from the rows the request produced; a failed fetch changes no state.
- Papa Parse (src/App.js:35-38) is a foreign library. Its output is taken as a sequence of
  column-to-text maps, so CSV quoting, the header row and `skipEmptyLines` are not modelled.
- Installments.ParseData: a row without an Apartment column makes `entry.Apartment.trim()` throw. The model
  requires that every row have the column instead of modelling the exception.
- A row without a Due Date column is read as an Invalid Date, as date-fns 2.x does: its `parse` turns
  missing input into text it cannot parse. date-fns 3.x and later throw instead, which would abort the
  handler and leave `data` holding the raw rows. The model assumes 2.x.
- `new Date()` is read in three places. It is read once as `today` in `categorizePayments`
  (src/App.js:44), and that reading is a parameter. It is read once per row as the reference date of
  `parse` (src/App.js:50), which has no effect because `dd-MM-yyyy` sets the day, month and year. It is
  read once per card in `isPastDue` (src/App.js:133), which takes the instant as a parameter.
- Installments.PastDueFirst: the model evaluates every card at one instant `now`. The page reads the clock
  again for each card, so the past-due cards form a prefix only while no due date's midnight falls
  between two of those readings.
- Time zones and daylight saving are not modelled. An instant is a local calendar day plus milliseconds
  since local midnight, and every day lasts 24 hours.
- Calendar.AddMonths: negative amounts are not modelled; the page only adds 1 and 2 months. Years are
  unbounded, whereas JavaScript limits time values to ±8.64e15 ms.
- Installments.InstallmentsPage.FeedLoaded: the intermediate `setData(result)` (src/App.js:26), holding
  the raw rows, is not modelled. The handler overwrites it with the sorted view (src/App.js:77) before
  React renders, assuming React 18's automatic batching of updates inside a promise callback. React 17
  would render once between the two `setData` calls. React's batching and re-rendering are not modelled.
- Rendering (src/App.js:80-163) is not modelled, apart from the past-due test. Card layout, colours,
  `toLocaleDateString` and the "No payments this month." text are all left out.
- Amount, Per Person, Check by and Notes are carried in each row uninterpreted, because the page only
  displays them. The page has no amount parsing, filters or summaries, and the model invents none.
- Installments.DueKey gives an entry without a date the key 0. Only valid entries reach the sort, so this
  value is never compared.

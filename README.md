# Attendance pipeline of the dashboard, modelled in Dafny

The dashboard script `MYPROJRCT/Dashboard.py` reads a wide attendance sheet.
The sheet has one row per employee, four identity fields (`employee_id`,
`employee_gender`, `employee_resident`, `employee_department`) and paired
`in_k` / `out_k` clock-time columns. The script:

1. derives an `hours_k` column for every (in, out) pair, matched by position;
2. drops exact duplicate rows, reports the employee ids that still repeat,
   and keeps one row per id, a row with the largest total hours;
3. melts the sheet into a long table with one record per (hours column,
   employee). Each record gets a day number, a date counted from the start
   date, and a punctuality flag (hours >= 8);
4. applies the sidebar filters: date range, employee, residency and
   departments;
5. computes the key metrics and the per-employee, per-month punctuality
   summary with its "Yes"/"No" status.

This project models those steps and proves what they promise.

Modules, one per file:

- `Wrappers`: `Option`.
- `Strings`: the string operations the script relies on. These are
  `startswith`, `replace`, `split('_')[1]`, `int()`, the first `(\d+)` match
  and `lower()`.
- `Tables`:
  - the sheet: cells are text, a number in hundredths, or missing;
  - boolean-mask selection `Where` and its laws.
- `Clock`: `'%I:%M %p'` parsing to minutes since midnight, with a formatter
  it round-trips with.
- `Calendar`: proleptic Gregorian day ordinals, as Python's `toordinal` and
  `fromordinal` count them, and the year-month of a day.
- `Derivation`: the hours derivation as a function on sheets.
- `Dedup`: exact-duplicate removal, the report of repeated ids, and the
  specification of per-id resolution together with a method that meets it.
- `Frames`: the data frame the script mutates in place, as a class.
  - Its methods are the hours loop, `drop_duplicates(inplace=True)`, and the
    sort/drop-duplicates/drop of the helper column.
  - `Prepare` chains them.
- `Reshape`: the stable sort of the `hours_` columns by the number after their
  first `_`, the melt, and the day number, date and punctuality of every
  record.
- `Filters`: the conjunctive filter chain, as a method that narrows the
  table one mask at a time.
- `Summary`: the key metrics, the rounded rate, and the monthly summary with
  its status flag.

Representation choices:

- A time of day is an integer number of minutes.
- Hours are integer hundredths. The value rounded to two decimals is
  round(5 * (out - in) / 3) hundredths. A third is never half-way, so this
  value is exact.
- Dates are day ordinals.
- Rates are integer hundredths of a percent.

Unpaired columns are part of the model. More `in_` than `out_` columns (or
the reverse) derive as many hours columns as the shorter list has, because
`Derivation.Zip` stops there. A sheet without any `hours_` column melts to an
empty long table.

Two behaviours of the code a reader may not expect. The model follows the
code in both:

- An out time earlier than the in time gives negative hours. The code keeps
  that value (for example "02:00 PM" to "09:00 AM" gives -5.0 hours). It
  does not mark the value missing.
- The per-id resolution sorts with pandas' default, non-stable sort.
  - The model therefore promises "a row of largest total" and leaves open
    which one of several tied rows is kept.
  - It does not promise "the first such row".

## Model

| member | source | states |
|---|---|---|
| Strings.SecondField | MYPROJRCT/Dashboard.py:150 | `name.split('_')[1]` exists exactly when the name holds a `_` |
| Strings.ParseIntSpan | MYPROJRCT/Dashboard.py:150 | a text `int()` accepts is whitespace, an optional sign just before the digits, one run of digits and whitespace again; the digits' value is the magnitude of the parsed integer |
| Strings.IntWhitespace | MYPROJRCT/Dashboard.py:150 | `int()` reads " 5\n" as 5 and "-12" as -12, and rejects a field that starts with the separator U+001C |
| Strings.Lower | MYPROJRCT/Dashboard.py:199 | lower-casing keeps the length and maps every character through the ASCII lower-case map |
| Strings.LowerIdempotent | MYPROJRCT/Dashboard.py:199 | lower-casing twice is lower-casing once |
| Tables.Where | MYPROJRCT/Dashboard.py:191-201 | a mask keeps exactly the elements that satisfy it and never lengthens the table |
| Tables.WhereWhere | MYPROJRCT/Dashboard.py:196-201 | two masks applied in turn select what their conjunction selects |
| Tables.WhereCongruent | MYPROJRCT/Dashboard.py:196-201 | masks that agree on every row select the same rows |
| Tables.WhereAll | MYPROJRCT/Dashboard.py:191-201 | a mask every row passes keeps the whole table |
| Tables.WhereSplit | MYPROJRCT/Dashboard.py:334-335 | a mask and its negation split the table: the two counts add up to its length |
| Tables.WhereDistinct | MYPROJRCT/Dashboard.py:150 | selecting from a list without repetitions gives a list without repetitions |
| Tables.DistinctPermutation | MYPROJRCT/Dashboard.py:150 | a reordering of a list without repetitions has none |
| Tables.ColumnsWithPrefix | MYPROJRCT/Dashboard.py:116-117 | the selected columns are exactly the sheet's columns with the prefix |
| Clock.ToMinutes | MYPROJRCT/Dashboard.py:122-123 | 12-hour time with meridiem maps to a minute of the day; 12 AM is hour 0 and 12 PM hour 12 |
| Clock.ParseClock | MYPROJRCT/Dashboard.py:122-123 | a parsed time is a minute within the day |
| Clock.ParseFormatted | MYPROJRCT/Dashboard.py:122-123 | every minute of the day survives formatting as `hh:mm AM/PM` and parsing back |
| Clock.ScenarioMorning | MYPROJRCT/Dashboard.py:122-123 | minute 540 formats as "09:00 AM" and that text parses back to minute 540 |
| Clock.ScenarioEvening | MYPROJRCT/Dashboard.py:122-123 | minute 1050 formats as "05:30 PM" and that text parses back to minute 1050 |
| Clock.ScenarioAfternoon | MYPROJRCT/Dashboard.py:122-123 | minute 840 formats as "02:00 PM" and that text parses back to minute 840 |
| Calendar.FromOrdinal | MYPROJRCT/Dashboard.py:158 | every day ordinal is a valid date whose ordinal it is |
| Calendar.ToOrdinalInjective | MYPROJRCT/Dashboard.py:158 | different valid dates have different ordinals |
| Calendar.FromToOrdinal | MYPROJRCT/Dashboard.py:158 | a valid date comes back from its ordinal |
| Calendar.EarlierYear | MYPROJRCT/Dashboard.py:329 | a date in an earlier year has a smaller ordinal |
| Calendar.EarlierMonth | MYPROJRCT/Dashboard.py:329 | a date in an earlier month of the same year has a smaller ordinal |
| Calendar.YearMonthOf | MYPROJRCT/Dashboard.py:329 | the month of the `%Y-%m` period lies in 1..12 |
| Calendar.DaysOfOneMonth | MYPROJRCT/Dashboard.py:329 | the days counted from the first of a month, up to its length, all fall in that month's group |
| Derivation.Zip | MYPROJRCT/Dashboard.py:119 | pairs are matched by position, as many as the shorter list has |
| Derivation.HoursNameOfIn | MYPROJRCT/Dashboard.py:120 | the name derived from an `in_` column starts with `hours_`, is neither an `in_` nor an `out_` name, and is no identity field |
| Derivation.CentiHours | MYPROJRCT/Dashboard.py:121-125 | the hours in hundredths are the nearest integer to 5 * (out - in) / 3, with no midnight rollover |
| Derivation.ScenarioHours | MYPROJRCT/Dashboard.py:121-125 | 09:00 AM to 05:30 PM is 8.50 hours; 02:00 PM to 09:00 AM is -5.00 hours |
| Derivation.ParseCell | MYPROJRCT/Dashboard.py:122-123 | only a text cell that parses has a clock value; numbers and missing cells coerce to missing |
| Derivation.HoursCell | MYPROJRCT/Dashboard.py:121-125 | the hours cell is a number exactly when both endpoints parse, and then it is the rounded difference; otherwise it is missing |
| Derivation.PunctualIffFullShift | MYPROJRCT/Dashboard.py:159 | rounded hours reach 8.00 exactly when the shift lasts at least 480 minutes |
| Derivation.HourPairsOk | MYPROJRCT/Dashboard.py:116-119 | every zipped pair joins an `in_` column with an `out_` column |
| Derivation.NotAnHoursName | MYPROJRCT/Dashboard.py:120 | no derived name overwrites an `in_` or `out_` column |
| Derivation.ApplyPairsFrame | MYPROJRCT/Dashboard.py:119-125 | the loop keeps the rows, their identity fields, every cell outside the derived columns and the old columns as a prefix, and adds exactly the derived names |
| Derivation.ApplyPairsCell | MYPROJRCT/Dashboard.py:119-125 | the derived cell of a pair in each row is computed from that row's original in and out cells, unless a later pair reuses the name |
| Derivation.ApplyPairsWellFormed | MYPROJRCT/Dashboard.py:119-125 | the loop keeps the sheet well formed: distinct columns, and every row has a cell for each column |
| Derivation.ApplyPairsCount | MYPROJRCT/Dashboard.py:119-120 | with new, distinct derived names the loop appends exactly one column per pair, in pair order |
| Derivation.DeriveHoursCell | MYPROJRCT/Dashboard.py:116-125 | the cell of hours column k in row j comes from the k-th `in_` and the k-th `out_` column |
| Derivation.DeriveHoursShape | MYPROJRCT/Dashboard.py:116-125 | the derivation keeps the sheet well formed and the rows and their other cells, and adds min(#in, #out) columns when the names are new |
| Dedup.DistinctRows | MYPROJRCT/Dashboard.py:132 | after `drop_duplicates()` no row repeats and every original row is still present |
| Dedup.DistinctRowsOfDistinct | MYPROJRCT/Dashboard.py:132 | a table without repeated rows is left as it is |
| Dedup.CountIdPositive | MYPROJRCT/Dashboard.py:133 | an id is counted exactly when some row carries it |
| Dedup.CountIdSeveral | MYPROJRCT/Dashboard.py:133-134 | an id is counted more than once exactly when two different positions carry it |
| Dedup.DuplicateIdsExactly | MYPROJRCT/Dashboard.py:133-134 | the reported ids are exactly those carried by two rows after exact-duplicate removal |
| Dedup.KeepMaxPerId | MYPROJRCT/Dashboard.py:140-141 | the result has one row per id and the same ids; every kept row is an input row; no input row of that id has a larger total (missing hours as 0) |
| Dedup.UniqueIdsCount | MYPROJRCT/Dashboard.py:141 | after resolution there are as many rows as distinct ids |
| Dedup.ResolutionIdempotent | MYPROJRCT/Dashboard.py:141 | resolving a resolved table again keeps the same rows |
| Dedup.StrictMaxKept | MYPROJRCT/Dashboard.py:141 | a row whose total is strictly the largest for its id is always kept |
| Dedup.TwoRowsKeepLarger | MYPROJRCT/Dashboard.py:140-141 | of two rows for one employee, totalling 7.0 and 9.0 hours, only the 9.0 row remains |
| Dedup.DropColumn | MYPROJRCT/Dashboard.py:142 | dropping the helper column keeps every row's identity fields and every other cell, and the helper cell is gone |
| Dedup.ResolvedUnique | MYPROJRCT/Dashboard.py:140-142 | after resolution and the drop of the helper column there is one row per id, and distinct columns stay distinct |
| Dedup.RemoveName | MYPROJRCT/Dashboard.py:142 | the column list loses exactly the helper column |
| Frames.HoursColumns | MYPROJRCT/Dashboard.py:140 | the columns summed into the total are exactly the `hours_` columns |
| Frames.Frame.DeriveHours | MYPROJRCT/Dashboard.py:119-125 | the in-place loop leaves the frame equal to the derivation of its old contents |
| Frames.Frame.DropDuplicateRows | MYPROJRCT/Dashboard.py:132 | in place, the rows become the duplicate-free rows of `Dedup.DistinctRows` and the columns stay |
| Frames.Frame.ResolveDuplicateIds | MYPROJRCT/Dashboard.py:140-142 | in place, the rows become a best-per-id resolution of the old rows without the helper cell, and the helper column is gone |
| Frames.Prepare | MYPROJRCT/Dashboard.py:116-142 | the cleaning stage: the derived sheet, the ids reported after exact-duplicate removal, and a best-per-id resolution without the helper column; from a well-formed sheet the result has distinct columns and one row per id, as `Reshape.FactsUnique` requires |
| Reshape.InsertStable | MYPROJRCT/Dashboard.py:150 | inserting keeps the elements of every key in their order and adds the new one last |
| Reshape.SortByKeyCorrect | MYPROJRCT/Dashboard.py:150 | the sort orders by key, is a permutation, and is stable |
| Reshape.DayColumnsMembers | MYPROJRCT/Dashboard.py:150 | the day columns are exactly the `hours_` columns, each paired with its own key, and each key parses |
| Reshape.DayColumnsOrder | MYPROJRCT/Dashboard.py:150 | the day columns are in key order, and columns of equal key keep sheet order |
| Reshape.DayColumnsDistinct | MYPROJRCT/Dashboard.py:150 | distinct sheet columns give distinct day columns |
| Reshape.DayNumOfKey | MYPROJRCT/Dashboard.py:157 | the first digit run of an `hours_` column's name is the magnitude of its sort key |
| Reshape.DayColumnsDayNum | MYPROJRCT/Dashboard.py:157 | every day column reads as a day number, the magnitude of its key |
| Reshape.Melt | MYPROJRCT/Dashboard.py:151-156 | the melt has (#columns) x (#rows) records |
| Reshape.MeltAt | MYPROJRCT/Dashboard.py:151-156 | record k * #rows + j is row j under column k, with the identity fields and the cell copied |
| Reshape.MeltIndex | MYPROJRCT/Dashboard.py:151-156 | every record is some row under some column |
| Reshape.MeltDays | MYPROJRCT/Dashboard.py:151-156 | every record's day is one of the melted columns |
| Reshape.MeltUnique | MYPROJRCT/Dashboard.py:151-156 | with one row per id and distinct columns, no (employee, day) pair is melted twice |
| Reshape.Classify | MYPROJRCT/Dashboard.py:157-159 | a record is classified exactly when its day name has a digit |
| Reshape.FactsDefined | MYPROJRCT/Dashboard.py:150-157 | the long table exists exactly when every `hours_` column's key parses, so `astype(int)` never fails after the sort succeeded |
| Reshape.FactsAt | MYPROJRCT/Dashboard.py:151-159 | record k * #rows + j holds row j's identity fields, column k's name and cell, day number, date and flag |
| Reshape.FactsShape | MYPROJRCT/Dashboard.py:151-156 | the long table has (#day columns) x (#rows) records, record p being row p mod #rows under column p div #rows |
| Reshape.FactsUnique | MYPROJRCT/Dashboard.py:151-156 | after resolution no (employee, day) pair occurs twice in the long table |
| Reshape.FactDates | MYPROJRCT/Dashboard.py:158 | the date is start + (day - 1); later days have later dates and equal days equal dates; day 1 is the start date |
| Reshape.PunctualOfDerived | MYPROJRCT/Dashboard.py:159 | a derived hours cell is punctual exactly when both times parse and the shift is at least 480 minutes; a missing value is never punctual |
| Filters.ApplyFilters | MYPROJRCT/Dashboard.py:191-201 | the chain of masks equals one conjunctive mask: the kept rows, in order, are exactly those that pass every active filter |
| Filters.DefaultsKeepAll | MYPROJRCT/Dashboard.py:174-201 | with the default selections (all, all, every department, the full date range) nothing is filtered out |
| Filters.NoDepartmentsIsEveryDepartment | MYPROJRCT/Dashboard.py:200-201 | an empty department selection selects what selecting every department present does |
| Filters.ResidencyIgnoresCase | MYPROJRCT/Dashboard.py:199 | the case of the residency in the sheet does not change the residency filter |
| Summary.RatePct | MYPROJRCT/Dashboard.py:210 | the rate is within half a hundredth of a percent of 100 * punctual / days, and 0 when there is no record |
| Summary.RateAtMostHundred | MYPROJRCT/Dashboard.py:210 | the rate is at most 100%, and exactly 100% when every record is punctual |
| Summary.RateThreshold | MYPROJRCT/Dashboard.py:341-343 | the rounded rate is at least 90% exactly when 20000 * punctual >= 17999 * days |
| Summary.PunctualPlusLate | MYPROJRCT/Dashboard.py:334-335 | punctual and late records add up to all records |
| Summary.EmployeesAtMostRecords | MYPROJRCT/Dashboard.py:206-207 | there are no more distinct employees than records, and at least one when there is a record |
| Summary.MeanHours | MYPROJRCT/Dashboard.py:209 | the mean exists exactly when some hours value is present, and it times the count is the sum |
| Summary.MeanWithin | MYPROJRCT/Dashboard.py:209 | the sum of the present values lies between count * smallest and count * largest |
| Summary.MetricsBounds | MYPROJRCT/Dashboard.py:206-210 | punctual <= days, employees <= days, rate <= 100%, and an empty table shows zero employees, rate 0 and no mean |
| Summary.SummaryGroups | MYPROJRCT/Dashboard.py:329-338 | every record falls in its own (employee, month) group; every summary row aggregates a non-empty group |
| Summary.SummaryRow | MYPROJRCT/Dashboard.py:332-343 | the row of every record's employee and month exists and has days > 0, punctual + late = days, rate <= 100%, and status "Yes" exactly when the rate is >= 90% |
| Summary.ScenarioStatus | MYPROJRCT/Dashboard.py:336-343 | 18 of 20 punctual days give 90.00% and "Yes"; 17 of 19 give 89.47% and "No" |

## Left out

- The Streamlit interface is left out: page set-up, theme, sidebar widgets, tabs and charts. The widget values are the inputs of `Filters.Selection` and the start date of `Reshape.Facts`.
- File reading (`read_csv`, `read_excel`), the CSV/Excel encoding of the downloads, the e-mail delivery and the wall-clock "last updated" stamp are left out: they are I/O. The parsed sheet is the input.
- Identity fields are strings. Missing (NaN) identity values are not modelled, and neither is pandas dropping NaN ids in `value_counts` and `dropna`.
- Text in an `hours_` column that came from the file is not modelled. Pandas would fail or concatenate when summing it. `Dedup.CentiOrZero` counts it as 0.
- Clock.ParseClock: recognises ASCII digits and the Python whitespace characters only. Other Unicode digits and spaces are not modelled.
- Strings.ParseInt: accepts ASCII digits only. Python's `int()` also accepts other Unicode decimal digits. The whitespace it strips is that of `int()` (`Strings.IntSpace`), which leaves out U+001C to U+001F.
- Strings.Lower: lower-cases the ASCII letters only. Python's `str.lower()` also maps other Unicode letters.
- Summary.RatePct: rounds the exact quotient to the nearest hundredth, half-way up. Python rounds the binary float, so an exact half, such as 3 punctual days out of 20000 (0.015%), may round differently.
- Summary.MeanHours: is the exact mean. The script's rounding of the mean to two decimals is not modelled.
- Summary.MonthlySummary: is a map from (employee, month) to the row. The order of the rows in the CSV is not modelled.
- Dedup.KeepMaxPerId: promises only `Dedup.IsBestPerId`. That predicate leaves open which row of several tied rows is kept, and the order of the kept rows. The script's unstable sort decides both in a way the model does not describe.
- Dates are unbounded day ordinals. The Timestamp range of pandas and the 2020-2030 limits of the date widget are not modelled.
- A date range widget holding a single date is not modelled. In the script, `date_range[1]` then fails.
- The `st.warning` display of the repeated rows is not modelled. The rows shown are `Dedup.DuplicateRows`.

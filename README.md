# CabAssist schedule generator, modelled in Dafny

CabAssist is a small Streamlit page. It turns a list of employee IDs, a date
range and a shift's login and logout times into a CSV file for bulk upload
to the MoveInSync cab-scheduling dashboard. The only logic in it is the row
generator run when "Generate CSV" is submitted:

1. **Employee IDs.** The text-area contents are stripped, split into lines at
   `'\n'`, and each line is stripped. Lines that are then empty are dropped.
   Order and duplicates are kept.
2. **Days.** Every calendar day from the start date to the end date, both
   included, in order. There are none when the end comes before the start.
3. **Rows.** The outer loop runs over the employees and the inner loop over
   the days. Each step appends one record with seven columns:
   `EmployeeId`, `LogIn` (the shift start as typed), `LogOut` (the shift
   end as typed), `LogInVenue` and `LogOutVenue` (both empty), `ShiftDate`
   and `EditType` (always `ADD`).
4. **ShiftDate.** Day, `/`, month, `/`, year in decimal, without zero
   padding (`5/1/2024`).

The project has one module per part:

- `text.dfy`, module `Text`: Python's `str.strip()` (with Python's exact
  whitespace set), `str.split(sep)` and the `join` that undoes it.
- `employee_ids.dfy`, module `EmployeeIds`: ID parsing.
- `calendar.dfy`, module `Calendar`: dates as in `datetime.date`, the next
  day, and the inclusive range.
- `date_format.dfy`, module `DateFormat`: the `ShiftDate` text. It also
  has a parser, which is not in the program. The parser is the inverse used
  to prove that different days never share a `ShiftDate`.
- `schedule.dfy`, module `Schedule`: the record type, the nested loop as
  the method `GenerateRows`, and the whole submit step as
  `GenerateSchedule`. Both methods are proved equal to the functional
  specification `Expand`, and the row count, row order, field values and
  per-(employee, day) multiplicities are proved about `Expand`.

The program's design notes describe a richer generator: next-day logout,
skipped weekdays, a `DELETE` edit type and merging partial rows by
(employee, date). `app.py` has none of these. It always writes login and
logout on the same row, on every day of the range, with `ADD`. The model
follows the code.

## Model

| member | source | states |
|---|---|---|
| `Text.TrimLeft` | app.py:64 | the result is no longer than the input and does not start with whitespace |
| `Text.TrimRight` | app.py:64 | the result is no longer than the input and does not end with whitespace |
| `Text.StripParts` | app.py:64 | the input is an all-whitespace prefix, then the stripped text, then an all-whitespace suffix; the stripped text has no whitespace at either end |
| `Text.StripUnique` | app.py:64 | wrapping a string that has no whitespace at its ends in any whitespace, then stripping, gives that string back, so strip is fully determined |
| `Text.StripIdempotent` | app.py:64 | stripping twice is the same as stripping once |
| `Text.StripEmptyIff` | app.py:64 | a line strips to the empty string exactly when it is all whitespace (the `if e.strip()` filter) |
| `Text.StripIgnoresSpace` | app.py:64 | whitespace added in front or behind does not change the stripped text |
| `Text.Split` | app.py:64 | `split("\n")` always gives at least one piece, and no piece contains the separator |
| `Text.JoinSplit` | app.py:64 | joining the pieces with the separator gives back the original text |
| `Text.SplitJoin` | app.py:64 | splitting a join of separator-free pieces gives back the pieces |
| `Text.SplitConcat` | app.py:64 | splitting `a + sep + b` gives the pieces of `a` followed by the pieces of `b` |
| `Text.SplitNoSep` | app.py:64 | text without a separator is one piece |
| `Text.SplitAppend` | app.py:64 | appending separator-free text extends only the last piece |
| `EmployeeIds.ParseIds` | app.py:64 | every parsed ID is non-empty, has no leading or trailing whitespace, and contains no newline |
| `EmployeeIds.KeepIdsAppend` | app.py:64 | the filter over lines commutes with concatenating lines, so order is kept |
| `EmployeeIds.LeadingSpaceIgnored` | app.py:64 | whitespace (newlines included) in front of the text changes no ID |
| `EmployeeIds.TrailingSpaceIgnored` | app.py:64 | whitespace (newlines included) behind the text changes no ID |
| `EmployeeIds.ParseIdsByLines` | app.py:64 | the outer strip is redundant: the IDs are the stripped non-blank lines of the raw text, in order |
| `EmployeeIds.ParseIdsConcat` | app.py:64 | the IDs of `a + "\n" + b` are the IDs of `a` followed by the IDs of `b`: line order kept, nothing deduplicated |
| `EmployeeIds.ParseIdsOneLine` | app.py:64 | one line gives its stripped text as the only ID, or no ID if it is blank |
| `EmployeeIds.ParseIdsEmptyIff` | app.py:64 | there are no IDs exactly when the text is empty or all whitespace |
| `EmployeeIds.ParseIdsMultiplicity` | app.py:64 | each ID occurs as many times as there are lines that strip to it, so duplicates are kept |
| `Calendar.DaysInMonth` | app.py:65 | months have 28 to 31 days, and 29 exactly for February of a Gregorian leap year |
| `Calendar.NextDay` | app.py:65 | the successor of a valid date, other than 31 December 9999, is a valid, later date |
| `Calendar.NextDayNoGap` | app.py:65 | no valid date lies strictly between a date and its successor |
| `Calendar.DateRange` | app.py:65 | the range is empty exactly when the end is before the start; otherwise it starts at the start and ends at the end; every element is a valid date within the bounds; each element is the next day of the one before |
| `Calendar.DateRangeAscending` | app.py:65 | the days strictly increase, so no day repeats |
| `Calendar.DateRangeComplete` | app.py:65 | every valid date from the start to the end is in the range |
| `Calendar.DateRangeMembership` | app.py:65 | a date is in the range exactly when it is a valid date from the start to the end |
| `DateFormat.Decimal` | app.py:76 | the decimal text of a number is at least one digit, with no leading zero unless the number is 0 |
| `DateFormat.DecimalRoundTrip` | app.py:76 | reading the decimal text back gives the number |
| `DateFormat.FormatDateFields` | app.py:76 | `ShiftDate` splits at `/` into exactly day, month and year in decimal, none of them zero-padded |
| `DateFormat.FormatDateRoundTrip` | app.py:76 | parsing the `ShiftDate` of a valid date gives back that date |
| `DateFormat.FormatDateInjective` | app.py:76 | two valid dates have the same `ShiftDate` exactly when they are the same date |
| `Schedule.EmployeeRows` | app.py:69-78 | one employee gets exactly one record per day |
| `Schedule.EmployeeRowsAt` | app.py:69-78 | that employee's record at position `j` is the record for day `j` |
| `Schedule.GenerateRows` | app.py:67-78 | the nested loop's list of appended records equals `Expand` of the IDs and days |
| `Schedule.GenerateSchedule` | app.py:64-78 | the submit step's rows equal `Expand` of the parsed IDs and the day range; their count is the number of IDs times the number of days; there are none exactly when the ID text is blank or the end is before the start |
| `Schedule.ExpandLength` | app.py:68-70 | the number of records is the number of IDs times the number of days |
| `Schedule.ExpandAt` | app.py:68-78 | record `i * days + j` belongs to ID `i` on day `j`: employee-major in input order, days in order within each employee |
| `Schedule.ExpandFields` | app.py:70-78 | every record has `LogIn` = shift start, `LogOut` = shift end, empty venues, `EditType` `ADD`, an employee from the list and the `ShiftDate` of a listed day |
| `Schedule.ExpandKeyCount` | app.py:68-76 | an (employee, `ShiftDate`) key occurs (times the employee is listed) × (days with that `ShiftDate`) times |
| `Schedule.DateCountAscending` | app.py:65-76 | in a strictly increasing list of days, a day's `ShiftDate` occurs once if the day is listed and never otherwise |
| `Schedule.ScheduleKeyCount` | app.py:64-78 | in the generated rows, an (employee, day) key occurs as often as the employee occurs among the parsed IDs if the day is in the range, and never otherwise; so with distinct IDs every pair occurs exactly once |

## Left out

- Page configuration, the form widgets, columns, success and error messages, and the "How to Use" card (app.py:7, 41-59, 81, 85, 88-112). These are user interface only.
- `set_background` (app.py:10-35). It reads an image file, base64-encodes it and emits CSS, which is I/O with no effect on the rows.
- Building the pandas `DataFrame`, `to_csv` and the download button (app.py:80-82). This is library serialisation. The record is modelled as the datatype `Schedule.Row`, with its seven fields in column order, and `Schedule.Columns` gives the header names. How pandas writes the header of an empty table is not modelled.
- The `try`/`except` around generation (app.py:63, 84-85). Here it can only catch library exceptions. One of these is not modelled: pandas timestamps cover only 21 September 1677 to 11 April 2262, and `pd.date_range` raises for dates outside that span, so the page shows an error and no rows. The model accepts every `datetime.date` (years 1 to 9999).
- Validation of the `HH:MM` shift times. The program does none, so the times are copied through as opaque strings.
- Dates are valid `datetime.date` values by construction in the program. So `Calendar.DateRange` and the generator require `Valid` dates rather than handling invalid ones.
- The `submit` flag and the Streamlit session state are outside the model. The generator is modelled as what runs once the form is submitted.

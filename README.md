# Kitchen planner dashboard: recipes, orders and the daily summary

This is a model of the logic behind three screens of the kitchen planner.

- **Recipes.** A recipe is the set of ingredient lines that share a
  recipe name. The screen groups the lines by name, filters the groups
  by a search term and sorts them by name. It edits one recipe's lines
  in a buffer. Saving compares the buffer with the ids the recipe had
  when it was opened: lines that disappeared are deleted, lines that
  still have an id are updated one by one, and lines without an id are
  inserted together. The first store error ends the save.
- **Orders.** An order schedules a recipe for a preparation date.
  Orders are grouped by the preparation date, or by the order date when
  there is none. The dates are listed newest first. The screen checks
  that the order date is not after the preparation date, submits the
  order with the weekday of its preparation date, and exports the list
  as CSV.
- **Summary.** The daily ingredient totals of a date range are shown
  one card per date, under a heading such as "Saturday, October 25,
  2025", and exported as CSV. The range starts at today and tomorrow.

Both date ranges correct themselves the same way: moving one bound past
the other drags the other bound along.

All date helpers read "YYYY-MM-DD" with `split('-').map(Number)` and
take the instant `Date.UTC(y, m - 1, d, 12)`, noon UTC. They format that
instant in America/Toronto. The model follows the time-value
definitions of ECMA-262, section 21.4.1: Day, MakeDay, MakeFullYear
(two-digit years) and TimeClip. Day arithmetic uses the proleptic
Gregorian calendar. String-to-number conversion follows StringToNumber
(ECMA-262, section 7.1.4.1.1), on exact reals. The CSV writer quotes
every field and doubles inner quotes, as in RFC 4180, section 2, rules
5 to 7. Rows are joined by a bare LF.

The store (the hosted database) becomes a parameter `accept`. It answers
whether an operation succeeds: for Recipes, given the log of operations
issued so far; for Orders, given the one operation. Each store-using
operation returns the operations it issued together with its outcome.

Modules, one file each:

| module | file | role |
|---|---|---|
| `Wrappers` | `wrappers.dfy` | `Option` |
| `JsText` | `js_text.dfy` | `trim`, `toLowerCase`, `split`/`join`, string `<`, `replace` of the first match |
| `JsNumber` | `js_number.dfy` | `Number(string)` |
| `Calendar` | `calendar.dfy` | day numbers, civil dates, weekdays |
| `ZonedDate` | `zoned_date.dfy` | the noon pivot, the three formatters, `Date` with `setUTCDate`, `addDaysInTZ` |
| `Csv` | `csv.dfy` | the CSV writer, and a reader that proves the writer's output reads back |
| `Lists` | `lists.dfy` | `filter`, `map`, removal by index |
| `Sorting` | `sorting.dfy` | a stable sort by a string key, ascending or descending |
| `Grouping` | `grouping.dfy` | the "object of arrays" grouping loop, and its specification |
| `DateRange` | `date_range.dfy` | the from/to filter, as a class |
| `Recipes` | `recipes.dfy` | grouped table, edit buffer, save, delete |
| `Orders` | `orders.dfy` | form, dialog, grouping, date sort, CSV |
| `Summary` | `summary.dfy` | default range, grouping, CSV, card heading |

## Model

| member | source | states |
|---|---|---|
| Recipes.FindType | src/pages/Recipes.tsx:474 | `recipeTypes.find`: the index of the first type with that id; -1 exactly when no type has it |
| Recipes.GroupLines | src/pages/Recipes.tsx:467-479 | the `Map` loop: keys are the distinct line names in first-seen order; each key's group holds that name's lines in input order, typed by the first of them |
| Recipes.AllGroups | src/pages/Recipes.tsx:480 | `Array.from(map.values())`: the i-th group is the group of the i-th key |
| Recipes.Grouped | src/pages/Recipes.tsx:466-486 | `grouped` returns the groups in map order, then filtered by the search term and sorted by name |
| Recipes.GroupForStep | src/pages/Recipes.tsx:470-478 | one more line changes only the group of its name: it opens the group typed by itself, or is appended at the end |
| Recipes.NameFilterElements | src/pages/Recipes.tsx:483 | a group is kept exactly when it is in the list and its lower-cased name contains the term |
| Recipes.NameFilterDistinct | src/pages/Recipes.tsx:483 | filtering keeps names distinct |
| Recipes.MatchingElements | src/pages/Recipes.tsx:481-484 | a group is shown exactly when the trimmed term is blank, or the lower-cased name contains the lower-cased, untrimmed term |
| Recipes.MatchingDistinct | src/pages/Recipes.tsx:481-484 | the search keeps names distinct |
| Recipes.AllGroupsDistinct | src/pages/Recipes.tsx:467-480 | no two groups share a name |
| Recipes.InView | src/pages/Recipes.tsx:466-486 | a group is in `grouped` exactly when its name is some line's name, it is that name's group, and the search shows the name |
| Recipes.GroupedSorted | src/pages/Recipes.tsx:485 | `grouped` is strictly ascending by name, so each name appears once |
| Recipes.GroupContents | src/pages/Recipes.tsx:467-479 | a listed group holds exactly the lines of its name, in input order. It holds at least one. Its type id comes from its first line, and its type name is that type's name |
| Recipes.LineGrouped | src/pages/Recipes.tsx:468-478 | every line whose name is shown is in the listed group of its name |
| Recipes.GroupTypeFromFirstLine | src/pages/Recipes.tsx:470-476 | a group's type id is the type id of the first input line with that name |
| Recipes.LineIds | src/pages/Recipes.tsx:494 | the original ids are exactly the ids of the lines that have one |
| Recipes.OpenEdit | src/pages/Recipes.tsx:489-496 | the buffer takes the group's name, type and lines; the original ids are exactly the ids present among its lines |
| Recipes.AddLine | src/pages/Recipes.tsx:499-513 | with no ingredients, nothing changes. Otherwise one line is appended for the first ingredient: no id, the buffer's name and type, quantity 0, unit "g" |
| Recipes.RemoveLine | src/pages/Recipes.tsx:516-518 | the line at `idx`, if there is one, is dropped; the others keep their order; an index out of range changes nothing |
| Recipes.UpdateLine | src/pages/Recipes.tsx:521-527 | the line at `idx` becomes `{ ...line, ...patch }`, keeping its id and name; the length and every other line are unchanged |
| Recipes.Rename | src/pages/Recipes.tsx:705-708 | the name input sets the buffer's name and every line's name; nothing else changes |
| Recipes.Retype | src/pages/Recipes.tsx:716-719 | the type select sets the buffer's type and every line's type; nothing else changes |
| Recipes.OpenedNamesAgree | src/pages/Recipes.tsx:489-494 | a recipe opened from the table starts with every line carrying the buffer's name |
| Recipes.EditsKeepNames | src/pages/Recipes.tsx:499-527 | adding, patching, renaming and retyping keep every line carrying the buffer's name |
| Recipes.RemoveKeepsNames | src/pages/Recipes.tsx:516-518 | so does removing a line |
| Recipes.NormalizeNumbers | src/pages/Recipes.tsx:543-547 | `normalizeQty`: a finite number passes through unchanged; NaN and the infinities become 0 |
| Recipes.NormalizeUnreadable | src/pages/Recipes.tsx:543-547 | text that does not convert to a finite number becomes 0 |
| Recipes.DecimalComma | src/pages/Recipes.tsx:544 | only the first comma of a string is read as a decimal point |
| Recipes.DecimalCommaValue | src/pages/Recipes.tsx:543-546 | "2,5"-style text normalises to its decimal value |
| Recipes.Prepared | src/pages/Recipes.tsx:559-562 | `prepared`: one row per buffer line, in order, with the line's id beside its sanitized payload |
| Recipes.Missing | src/pages/Recipes.tsx:565 | an id is to be deleted exactly when it is an original id and not a current one |
| Recipes.Payloads | src/pages/Recipes.tsx:584 | the inserted rows are the payloads of the rows without an id, in order |
| Recipes.UpdateOps | src/pages/Recipes.tsx:575-577 | one update per row with an id, in order, carrying that id and the payload without it |
| Recipes.IssueUpdates | src/pages/Recipes.tsx:574-579 | the update loop issues the updates in order and stops at the first one the store refuses |
| Recipes.Persist | src/pages/Recipes.tsx:564-587 | the store calls of a save issue the plan (delete, updates, insert) in order, and stop at the first failure |
| Recipes.SaveRecipe | src/pages/Recipes.tsx:530-595 | a blank trimmed name rejects the save before any store call. So does an empty buffer, checked second. Otherwise the save issues the plan up to and including any failure, and succeeds exactly when every operation issued succeeded |
| Recipes.AttemptStep | src/pages/Recipes.tsx:568-587 | issuing one operation: continue if the store accepts it, otherwise stop after it |
| Recipes.AttemptConcat | src/pages/Recipes.tsx:568-587 | issuing two phases is issuing the first, then the second only if all of the first succeeded |
| Recipes.AttemptStopsAtFirstFailure | src/pages/Recipes.tsx:568-594 | the log is a prefix of the plan, and every operation before the last was accepted. A success issued the whole plan; a failure stops right after the refused operation |
| Recipes.CurrentIdsAreLineIds | src/pages/Recipes.tsx:564 | `currentIds` are the ids of the buffer's lines |
| Recipes.DeleteSet | src/pages/Recipes.tsx:564-565 | an id is deleted exactly when it is an original id that no edited line still has (so the delete set is a subset of the original ids) |
| Recipes.UpdateIdsAreLineIds | src/pages/Recipes.tsx:574 | an updated row's id is a current id |
| Recipes.DeleteDisjointFromUpdates | src/pages/Recipes.tsx:564-577 | no id is both deleted and updated |
| Recipes.UpdatesAndInsertsPartition | src/pages/Recipes.tsx:574-582 | updates and inserts split the prepared rows: together they hold every row as often as the buffer does, and their sizes add up to the number of lines |
| Recipes.PhaseOrder | src/pages/Recipes.tsx:568-587 | in the concatenated plan the delete can only be first, the insert only last, and the updates sit between them |
| Recipes.DeleteComesFirst | src/pages/Recipes.tsx:568-571 | the plan has at most one delete. It comes first, carries the delete set, and is issued only when that set is non-empty |
| Recipes.InsertComesLast | src/pages/Recipes.tsx:582-587 | the plan has at most one insert. It comes last, carries the rows without an id, and is issued only when there are some |
| Recipes.UpdateOfPlan | src/pages/Recipes.tsx:574-577 | each update of the plan writes the payload of a row with an id |
| Recipes.PreparedClean | src/pages/Recipes.tsx:549-562 | every prepared payload has the trimmed recipe name, the buffer's type id and a trimmed unit |
| Recipes.UpdatesClean | src/pages/Recipes.tsx:574 | so does every row to update |
| Recipes.UpdatesSanitized | src/pages/Recipes.tsx:576-577 | every update the save issues carries a clean payload |
| Recipes.InsertsSanitized | src/pages/Recipes.tsx:582-586 | every row the save inserts is clean |
| Recipes.RecipeIds | src/pages/Recipes.tsx:601 | `map(l => l.id!).filter(Boolean)`: exactly the ids that are present and non-zero |
| Recipes.DeleteRecipe | src/pages/Recipes.tsx:598-611 | cancelling issues nothing. With no ids, nothing is issued and the delete counts as done. Otherwise one delete of those ids is issued, and it succeeds exactly when the store accepts it |
| Orders.Submit | src/pages/Orders.tsx:443-482 | the form is refused exactly when the order date is after the preparation date as strings. Nothing is issued then, nor when the weekday formatter throws. Otherwise one operation is issued, an update of the edited order or an insert. Its payload carries the weekday of the preparation date and `Number(quantity)`, and the outcome is the store's answer |
| Orders.SubmittedDay | src/pages/Orders.tsx:457-464 | whatever the form's day says, the submitted day is the lower-case English weekday of the preparation date |
| Orders.ValidFormPasses | src/pages/Orders.tsx:447 | on valid date strings, an order date on or before the preparation date is never refused |
| Orders.ResetForm | src/pages/Orders.tsx:496-506 | the form opens exactly when the weekday formatter accepts today |
| Orders.ResetFormPasses | src/pages/Orders.tsx:496-506 | submitting the reset form unchanged passes the date check for any today, and inserts one order for today, no recipe, quantity 1 |
| Orders.ResetFormOfValid | src/pages/Orders.tsx:496-506 | for a valid today, the form opens with the lower-case weekday of today's day |
| Orders.OpenDialog | src/pages/Orders.tsx:508-524 | for an order: its dates with the preparation-date fallback, that date's weekday, its recipe and quantity text, and the order as the one being edited; without an order: the reset form. The dialog fails to open exactly when the weekday formatter throws |
| Orders.EditedPrepDate | src/pages/Orders.tsx:510-516 | the preparation date shown is the stored one, or the order date when it is missing or empty |
| Orders.ResubmitUpdates | src/pages/Orders.tsx:466-467 | re-submitting a dialog opened for an order updates that order's id with the preparation date it was shown |
| Orders.GroupedByDate | src/pages/Orders.tsx:572-580 | dates are the key dates in first-seen order; each date's group holds the orders with that key date, in list order |
| Orders.OrderInOneGroup | src/pages/Orders.tsx:574-578 | each order is in the group of its key date (`prep_date` or `order_date`) and in no other |
| Orders.GroupsCoverOrders | src/pages/Orders.tsx:572-580 | the groups' sizes add up to the number of orders |
| Orders.SortedDatesDescending | src/pages/Orders.tsx:583-585 | the sorted dates are the group dates, each once, in strictly descending string order |
| Orders.CsvRows | src/pages/Orders.tsx:550-559 | one row per order, in order, or nothing when the weekday formatter throws for any of them |
| Orders.OrdersCsvReadsBack | src/pages/Orders.tsx:547-561 | reading the export back gives `orders.length + 1` rows: the header first, then each order's key date, weekday, recipe, quantity and order date. So quoting, doubling and joining lose nothing |
| Orders.OrdersCsvParses | src/pages/Orders.tsx:561 | the exported text reads back as exactly the rows that were written |
| Orders.ValidDatesExport | src/pages/Orders.tsx:550-559 | when every key date is a valid date string, the export never throws |
| Summary.DefaultRangeOrdered | src/pages/Summary.tsx:252-253 | the default end is the next day's text, strictly after today's as a string, so the initial range is ordered |
| Summary.CsvBody | src/pages/Summary.tsx:282-288 | one row per summary row, in order: date, day, ingredient, total quantity, unit |
| Summary.HeaderFieldsQuoted | src/pages/Summary.tsx:281 | each of the five header names is written only wrapped in quotes |
| Summary.SummaryCsvHeader | src/pages/Summary.tsx:280-292 | the file starts with `"Date","Day","Ingredient","Total Quantity","Unit"`, followed by a newline when there are rows |
| Summary.SummaryCsvReadsBack | src/pages/Summary.tsx:280-292 | reading the file back gives the header, then every row's five fields, in order |
| Summary.SummaryCsvParses | src/pages/Summary.tsx:290-292 | the file reads back as exactly the rows that were written |
| Summary.GroupOfStep | src/pages/Summary.tsx:306-309 | one more row changes only the card of its date: it opens the card with its own day name, or is appended |
| Summary.GroupedByDate | src/pages/Summary.tsx:304-311 | the `acc` loop: the card keys are the dates in first-seen order. Each card holds its date's rows in input order, under the day name of the first of them |
| Summary.GroupDayFromFirstRow | src/pages/Summary.tsx:307 | a card's day is the day name of the first row with its date, and every row on it has that date |
| Summary.RowInOneGroup | src/pages/Summary.tsx:306-309 | each row is on the card of its date and on no other; the cards hold every row once |
| Summary.CardHeading | src/pages/Summary.tsx:372-376 | a card heading exists only when the Orders weekday does, and it starts with that weekday capitalised and a comma |
| DateRange.RangeFilter.constructor | src/pages/Orders.tsx:395-396 | the range starts at the given bounds |
| DateRange.RangeFilter.ChangeFrom | src/pages/Orders.tsx:529-532 | `from` becomes the value, and `to` is dragged to it when it was set and earlier. The range is then ordered. Summary.tsx:314-317 is the same |
| DateRange.RangeFilter.ChangeTo | src/pages/Orders.tsx:533-536 | `to` becomes the value, and `from` is dragged to it when it was set and later. The range is then ordered. Summary.tsx:318-321 is the same |
| DateRange.RangeFilter.ApplyFilter | src/pages/Orders.tsx:539-542 | an inverted range gets `to` set to `from`; `from` is kept; the range is then ordered |
| DateRange.OrderedDays | src/pages/Orders.tsx:531 | on valid date strings, bounds ordered as strings are bounds ordered as days |
| ZonedDate.TimeClip | src/pages/Orders.tsx:350 | a time value survives exactly when its magnitude is at most 8.64e15 ms |
| ZonedDate.MakeFullYear | src/pages/Orders.tsx:350 | `Date.UTC` reads years 0 to 99 as 1900 to 1999 and keeps others |
| ZonedDate.DayOfNoon | src/pages/Orders.tsx:350 | the noon instant of day `k` lies in day `k`, at noon |
| ZonedDate.NoonLocalDay | src/pages/Orders.tsx:347-350 | the noon trick: in any zone less than twelve hours from UTC, the local date of the noon instant is the UTC date |
| ZonedDate.ShapeSplit | src/pages/Orders.tsx:349 | `split('-')` of a "YYYY-MM-DD" string gives its three digit groups |
| ZonedDate.PartsOfShape | src/pages/Orders.tsx:349 | `map(Number)` of those groups gives the year, month and day written |
| ZonedDate.PivotOfShape | src/pages/Orders.tsx:349-350 | for a written year of 100 or later, the pivot is `MakeDay` of the written date at noon, clipped |
| ZonedDate.PivotOfTwoDigitYear | src/pages/Orders.tsx:350 | a written year 0000 to 0099 is read 1900 years later |
| ZonedDate.PivotOfValid | src/pages/Orders.tsx:349-350 | the pivot of a valid date string is the noon of its day number |
| ZonedDate.WeekdayOfYearOnly | src/pages/Orders.tsx:349-352 | a string with only a year gets month 1 and day 1 by default, so its weekday is that of 1 January |
| ZonedDate.PivotDayBound | src/pages/Orders.tsx:349-350 | whatever the string, a pivot that is a time value is at noon of a day of year 98 or later |
| ZonedDate.NoEraForDateStrings | src/pages/Orders.tsx:356-378 | no date string makes either date formatter print an era |
| ZonedDate.WeekdayOfValid | src/pages/Orders.tsx:348-353 | `weekdayFromDateString` of a valid date string is the lower-case English weekday of its day |
| ZonedDate.WeekdayOfTwoDigitYear | src/pages/Orders.tsx:348-353 | for a written year 0000 to 0099, `weekdayFromDateString` gives the weekday of the date 1900 years later |
| ZonedDate.AddDaysZeroTwoDigitYear | src/pages/Summary.tsx:219-230 | for a written year 0000 to 0099, adding zero days gives the text of the date 1900 years later, not the string |
| ZonedDate.AddDaysZeroThreeDigitYear | src/pages/Summary.tsx:219-230 | for a written year 0100 to 0999, adding zero days gives the date with its year unpadded: nine characters, not the string |
| ZonedDate.WeekdayOfDayText | src/pages/Orders.tsx:348-353 | the weekday of a day's text is the weekday of that day |
| ZonedDate.FormatDateForTZIdentity | src/pages/Orders.tsx:356-365 | `formatDateForTZ` shows a valid date string unchanged |
| ZonedDate.DateTextOfValid | src/pages/Orders.tsx:359-364 | en-CA rendering of the date written in a valid string gives the string back |
| ZonedDate.HeadingOfDay | src/pages/Orders.tsx:371-377 | the en-US heading of a day's noon is "Weekday, Month D, YYYY" for that day |
| ZonedDate.HeadingOfValid | src/pages/Orders.tsx:368-378 | the heading of a valid date string names its weekday, month, day and year |
| ZonedDate.HeadingAgreesAtTime | src/pages/Summary.tsx:236-242 | at any time value the heading and the weekday fail together; a heading starts with the capitalised weekday and a comma |
| ZonedDate.HeadingAgreesWithWeekday | src/pages/Summary.tsx:233-243 | for every string, `headingForDate` starts with the capitalised `weekdayFromDateString` and ", ", and both throw together |
| ZonedDate.JsDate.constructor | src/pages/Summary.tsx:222 | `new Date(t)` holds the time value `t` |
| ZonedDate.JsDate.GetUTCDate | src/pages/Summary.tsx:223 | `getUTCDate`: NaN exactly for an invalid date, otherwise a day of the month from 1 to 31 |
| ZonedDate.JsDate.SetUTCDate | src/pages/Summary.tsx:223 | `setUTCDate(d)` moves the instant by `d - getUTCDate()` whole days, keeping the time of day; NaN in, or a NaN argument, gives NaN |
| ZonedDate.SetDateMoves | src/pages/Summary.tsx:223 | `MakeDay` with the day of the month replaced is the instant moved by the difference in days |
| ZonedDate.AddDaysInTZ | src/pages/Summary.tsx:219-230 | the imperative `addDaysInTZ` computes the noon instant moved `days` days, rendered in en-CA |
| ZonedDate.MoveDate | src/pages/Summary.tsx:223 | `base.setUTCDate(base.getUTCDate() + days)` moves the Date by `days` whole days (NaN stays NaN) |
| ZonedDate.AddDaysMoves | src/pages/Summary.tsx:219-230 | on a valid date string, the result is the text of the day `n` days later, across month and year ends |
| ZonedDate.AddDaysOfDay | src/pages/Summary.tsx:219-230 | from the text of day `j`, `n` days later is the text of day `j + n` |
| ZonedDate.AddDaysZero | src/pages/Summary.tsx:219-230 | adding zero days gives a valid date string back |
| ZonedDate.RoundTripOfDay | src/pages/Summary.tsx:222-223 | from a day's text, `n` days on and `n` days back returns |
| ZonedDate.AddDaysRoundTrip | src/pages/Summary.tsx:222-223 | `addDaysInTZ(addDaysInTZ(d, n), -n) == d` for a valid `d` when the intermediate day is in the years 1000 to 9999 |
| ZonedDate.ComposeOfDay | src/pages/Summary.tsx:222-223 | from a day's text, `a` days then `b` days is `a + b` days |
| ZonedDate.AddDaysCompose | src/pages/Summary.tsx:222-223 | on a valid date string, moving `a` days and then `b` days is moving `a + b` days |
| ZonedDate.FormatOfDay | src/pages/Summary.tsx:224-229 | en-CA of a day's noon is that day's "YYYY-MM-DD" text |
| ZonedDate.DateTextValid | src/pages/Summary.tsx:224-229 | en-CA rendering of a date of the years 1000 to 9999 is a well-formed, zero-padded date string that reads back as the date |
| ZonedDate.DayTextValid | src/pages/Summary.tsx:224-229 | a day's text is a valid date string whose day number is that day |
| ZonedDate.WeekdayAfterMove | src/pages/Summary.tsx:219-230 | the weekday of a moved date is the weekday of the day it lands on |
| ZonedDate.WeekdayOfNextDay | src/pages/Summary.tsx:253 | the day after a valid date falls on the following weekday |
| ZonedDate.DateStringOrder | src/pages/Orders.tsx:447 | on valid date strings, the string comparison of the order check is the order of the days |
| ZonedDate.ShapeOrder | src/pages/Orders.tsx:447 | date-shaped strings compare by year, then month, then day |
| Calendar.CivilFromDay | src/pages/Orders.tsx:359-364 | every day number has a valid civil date whose day number it is |
| Calendar.CivilOfDayNumber | src/pages/Orders.tsx:359-364 | the civil date of a valid date's day number is the date |
| Calendar.DayNumberOrder | src/pages/Orders.tsx:447 | day numbers order valid dates by year, then month, then day |
| Calendar.MakeDayShift | src/pages/Summary.tsx:223 | `MakeDay` with the day of the month moved by `n` is `n` days later |
| Calendar.MakeDayOfDate | src/pages/Orders.tsx:350 | `MakeDay` of a valid date's fields is its day number |
| Calendar.WeekDayNext | src/pages/Orders.tsx:351 | the day after weekday `w` is weekday `w + 1`, Saturday wrapping to Sunday |
| Calendar.DayFromYearStep | src/pages/Orders.tsx:350 | consecutive years start a year length apart, 366 days in leap years |
| JsText.Trim | src/pages/Recipes.tsx:551 | `trim()` leaves no white space at either end |
| JsText.TrimIsSlice | src/pages/Recipes.tsx:551 | `trim()` gives a slice of its input, and everything cut off before and after it is white space |
| JsText.ToLower | src/pages/Orders.tsx:352 | `toLowerCase` maps each character and keeps the length |
| JsText.Cap | src/pages/Orders.tsx:526 | `cap` upper-cases the first character and keeps the rest |
| JsText.CapOfLower | src/pages/Orders.tsx:526 | `cap` undoes `toLowerCase` on a capitalised word |
| JsText.LexLessTransitive | src/pages/Orders.tsx:584 | string `<` is transitive |
| JsText.LexLessTotal | src/pages/Orders.tsx:584 | any two different strings are ordered one way or the other |
| JsText.SplitJoin | src/pages/Orders.tsx:349 | splitting a join of separator-free parts gives the parts |
| JsText.ReplaceFirst | src/pages/Recipes.tsx:544 | `replace(',', '.')` changes only the first comma, if any |
| JsNumber.DigitsToNumber | src/pages/Orders.tsx:349 | a string of decimal digits converts to its value |
| JsNumber.PointLiteralValue | src/pages/Recipes.tsx:545 | "d.f" converts to its decimal value |
| JsNumber.WhiteSpaceToNumber | src/pages/Recipes.tsx:545 | the empty string and white space convert to 0 |
| JsNumber.DecimalStringOfDigits | src/pages/Orders.tsx:361 | a digit string without a leading zero prints back as itself |
| Csv.Quote | src/pages/Orders.tsx:561 | every field is wrapped in double quotes |
| Csv.EscapeWithoutQuotes | src/pages/Orders.tsx:561 | a field without quotes is written as is |
| Csv.ReadEscaped | src/pages/Orders.tsx:561 | reading a field whose inner quotes were doubled gives the field back |
| Csv.Unquote | src/pages/Orders.tsx:561 | un-quoting a quoted field recovers the original |
| Csv.ParseDocument | src/pages/Orders.tsx:561 | rows of fields joined by ',' and '\n' read back as the rows |
| Csv.HeaderAndRows | src/pages/Summary.tsx:290-292 | a header and body rows read back as the header and the rows |
| Csv.DocumentStartsWithFirstRow | src/pages/Summary.tsx:290-292 | a file starts with its first row's line, followed by a newline when more rows follow |
| Lists.FilterElements | src/pages/Recipes.tsx:574 | an element is kept exactly when it is in the list and passes |
| Lists.FilterPartition | src/pages/Recipes.tsx:574-582 | filtering by a predicate and by its negation splits the list, counting repeats |
| Lists.RemoveAt | src/pages/Recipes.tsx:517 | the element at `idx`, if any, is dropped; the others keep their order |
| Lists.AllSome | src/pages/Orders.tsx:550 | `map` with a step that may throw: every result, or nothing when any step fails |
| Sorting.SortPermutes | src/pages/Recipes.tsx:485 | sorting is a permutation |
| Sorting.SortElements | src/pages/Recipes.tsx:485 | sorting keeps exactly the elements |
| Sorting.SortStrict | src/pages/Orders.tsx:584 | distinct keys sort into strictly ordered keys, ascending or descending |
| Grouping.GroupBy | src/pages/Orders.tsx:573-578 | the grouping loop: keys in first-seen order; each group is that key's items, in order |
| Grouping.KeysDistinct | src/pages/Orders.tsx:576 | a key is listed once |
| Grouping.KeysComplete | src/pages/Orders.tsx:574-577 | a key is listed exactly when some item has it |
| Grouping.MembersHaveKey | src/pages/Orders.tsx:577 | a group holds only items with its key |
| Grouping.ItemInGroup | src/pages/Orders.tsx:577 | every item is in the group of its key |
| Grouping.MembersConcat | src/pages/Orders.tsx:574-578 | items of an earlier part of the list come first in their group |
| Grouping.FirstMember | src/pages/Summary.tsx:307 | a group's first item is the first item with that key |
| Grouping.GroupsPartition | src/pages/Orders.tsx:572-580 | the groups' sizes add up to the number of items |

## Left out

- Time zones: the America/Toronto offset is not modelled. Formatting
  reads the UTC calendar date of the noon instant; NoonLocalDay is the
  reason that is the local date.
- `Intl.DateTimeFormat` output for years before 1, which prints an era,
  is represented as `EraNotModelled`. NoEraForDateStrings shows that no
  date string reaches it.
- Floating point: numbers are exact reals. There is no IEEE rounding of
  long literals or of `days`. `addDaysInTZ` takes a whole number of days.
- `String(number)` and `Number.prototype.toString` become a parameter
  `show`.
- The wall clock: `todayInTZ()`, `dateStringInTZ(new Date())` and
  `new Date()` become a parameter `today`.
- `localeCompare` in the recipe sort is modelled as code-point order.
  `toLowerCase` and `toUpperCase` are modelled for ASCII letters only.
  Strings are sequences of code points, not UTF-16 units.
- The hosted database: every call becomes the `accept` parameter. The
  queries that load data are not modelled, since they only read
  (`fetchLines`, `fetchOrders`, `fetchSummary`, `fetchRecipeNames`,
  `fetchIngredients`, `fetchRecipeTypes`). Their range filters and
  server-side order are out of scope with them.
- React state, effects, memoisation, toasts, dialogs and rendering:
  setters are plain assignments. The effect that copies the weekday
  into `day_name` after a date change (src/pages/Orders.tsx:401-406) is
  left out; the submitted day does not depend on it (Orders.SubmittedDay).
- DateRange.RangeFilter.ApplyFilter: the sequel `fetchOrders(fromDate,
  toDate)` would still see the old `toDate`, because React state updates
  are asynchronous. This is noted, not modelled.
- Recipes.UpdateLine requires an index of an existing line; the editor
  only calls it with those. With an index out of range, the source would
  store, at that index, a line made of the patched fields alone.
- The Select control's `String(id)`/`Number(v)` round trip for
  ingredient and type ids is left out; ids are integers throughout.
- Orders `handleDelete` (a confirmation, then a single delete by id) is
  left out: it is one store call with nothing to prove.
- Recipes.RecipeIds keeps the source's `filter(Boolean)`, which also
  drops an id of 0.
- Recipes.DeleteRecipe: the confirmation dialog is a parameter
  `confirmed`.
- Object key order: JavaScript lists integer-like keys first.
  Summary.GroupedByDate and Orders.GroupedByDate give the insertion
  order. That is the same for every date-shaped key, but it is not
  proved for arbitrary strings.
- Summary.GroupedByDate and Orders.GroupedByDate group every key as an
  ordinary key. In the source, `acc[key]` on a plain object also finds
  the keys inherited from `Object.prototype` ("constructor",
  "toString", and so on): such a key is truthy, so `.push` throws
  (src/pages/Orders.tsx:575-576, src/pages/Summary.tsx:307-308). The
  same holds for `__proto__`. Date-shaped keys never meet this case.
- CSV downloads (Blob, object URLs, file names) are left out; only the
  text is modelled. The line break is LF, not the CRLF of RFC 4180,
  section 2, rule 1, as in the source.
- `toFixed(3)` in the Summary table display is left out, with the rest
  of the rendering.
- ZonedDate.AddDaysRoundTrip and ZonedDate.AddDaysCompose are stated for
  days in the years 1000 to 9999, the domain the model proves. Outside
  it the source's dates do not read back; see the three lines below.
- ZonedDate.AddDaysZero is proved for valid date strings, years 1000 to
  9999, only. The source does not keep other dates either: Date.UTC's
  MakeFullYear reads a written year 0000 to 0099 as 1900 to 1999
  (AddDaysZeroTwoDigitYear, "0050-06-15" gives "1950-06-15"), and the
  en-CA `numeric` year drops the leading zero of a year 0100 to 0999
  (AddDaysZeroThreeDigitYear, "0999-06-15" gives "999-06-15").
- ZonedDate.DateTextValid is proved for dates of the years 1000 to 9999
  only. For a year 0100 to 0999 the en-CA text has a three-digit year
  (AddDaysZeroThreeDigitYear), so it is not a four-digit date string.
- ZonedDate.WeekdayOfValid is proved for the years 1000 to 9999 only.
  For a written year 0000 to 0099 the source gives the weekday of the
  date 1900 years later (WeekdayOfTwoDigitYear). Written years 0100 to
  0999 and dates with five-digit years, which a date input can also
  hold, are not among the strings ValidDateString admits.

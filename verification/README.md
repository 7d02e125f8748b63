# Web-automation helpers, modelled in Dafny

This project models the logic core of a Selenium/TestNG automation framework.

- **Grid helper**: finds a column header by name, ignoring case. It reads one column out of the flat, row-major list of grid cells by stepping through it with a stride equal to the number of headers.
- **Web-table utility**:
  - checks that every visible row contains a filter value, ignoring case;
  - checks that the rows are sorted ascending or descending in `String.compareTo` order;
  - models the click sequences of `applySorting` and `applyFilter`.
- **Date-picker helper**:
  - parses a `dd/MM/yyyy` date;
  - opens the calendar and switches to the year view;
  - steps forward or backward once per year of difference from the current year, tolerating stale links;
  - picks the month and locates the cell of the day;
  - `clearDate` opens the picker and clicks its Clear link.
- **Retry analyser**: grants at most two re-runs of a failed test, and names the TestNG status codes.
- **Report formatting**: the numbered, indented, separator-delimited lines that `logListOfReport` builds from a list of multi-line rows.

The browser is reduced to what the helpers observe of a located element (`Dom.Element`): its text, whether it is displayed, whether it is enabled, and whether its reference has gone stale.

- A stale element makes the next click, text read or clickability wait raise `StaleElementReferenceException`.
- A plain `click()` goes through on a displayed element with a valid reference (`Dom.Interactable`). The wait `elementToBeClickable` also needs the element enabled (`Dom.Clickable`), and times out on a hidden or disabled one.
- Every exception the helpers meet is a constructor of `Dom.Error`.
- A run that the source ends with a caught exception is modelled where the source catches it, as what the catch leaves behind:
  - a `Failure`, an `Aborted` selection (`null` from `testDatePicker`) or a `false` result;
  - for `clearDate`, the events up to the failed step, with nothing after them;
  - for `getColumnValuesByHeaderName` and `getColumnElementsByHeaderName`, the empty list.

The parts of the Java library the helpers rely on are modelled in their own modules, over `seq<char>`:

- `JavaText`: `toLowerCase`, `equalsIgnoreCase`, `contains` and `trim`.
- `JavaSplit`: `split` with a one-character separator, trailing empty strings dropped.
- `JavaInt`: `Integer.parseInt`, `String.valueOf` and 32-bit wrap-around.
- `JavaCompare`: `compareTo`, and the sorted copy that `stream().sorted()` returns.

Four behaviours of the code shape the model:

- **Year navigation**: `testDatePicker` counts the year steps from the year of the system clock. The model takes that year as the `currentYear` parameter.
- **Column length**: a column holds ceil((n - c) / w) entries for n cells, start c and stride w, a trailing partial row included. With no headers and a start inside the cells, the stride loop never ends. A precondition keeps that input out.
- **Clearing a date**: `clearDate` always opens the picker, then clicks its Clear link.
- **Stale elements**: `clickVisibleElement` walks the list it was given once, and skips each stale element it meets.

## Model

| member | source | states |
|---|---|---|
| Grid.HeaderElementByName | src/main/java/com/kpit/automation/helpers/GridHelper.java:14-21 | succeeds exactly when some header matches the name ignoring case, and then returns the first matching header in list order; otherwise `NoSuchElementException` |
| Grid.ColumnIndexByHeaderElement | src/main/java/com/kpit/automation/helpers/GridHelper.java:26-28 | `indexOf`: -1 exactly when the element is absent, otherwise the first position holding it |
| Grid.ResolvedIndexIsFirstMatch | src/main/java/com/kpit/automation/helpers/GridHelper.java:48-49 | chaining the header lookup and `indexOf` gives the position of the first matching header |
| Grid.StrideFrom | src/main/java/com/kpit/automation/helpers/GridHelper.java:62-64 | the stride loop from cell `i` produces the column: entry k is cell i + k·w, stopping at the first stride past the cells |
| Grid.ColumnElementsByIndex | src/main/java/com/kpit/automation/helpers/GridHelper.java:59-66 | a negative index fails with an index error; otherwise the result is the column of cells at stride = number of headers |
| Grid.ColumnValuesByIndex | src/main/java/com/kpit/automation/helpers/GridHelper.java:33-40 | the loop's result is the column of texts, and equals the texts of `getColumnElementsByIndex`'s column; negative index fails |
| Grid.ColumnUnique | src/main/java/com/kpit/automation/helpers/GridHelper.java:36 | the column is determined by the cells, the stride and the start |
| Grid.TextOfColumn | src/main/java/com/kpit/automation/helpers/GridHelper.java:36-37 | reading texts commutes with taking the column |
| Grid.ColumnLength | src/main/java/com/kpit/automation/helpers/GridHelper.java:36 | the column has ceil((n - c) / w) entries when c < n and none otherwise, a trailing partial row counted |
| Grid.ColumnElementsByHeaderName | src/main/java/com/kpit/automation/helpers/GridHelper.java:68-79 | empty when no header matches; otherwise the column under the first matching header |
| Grid.ColumnValuesByHeaderName | src/main/java/com/kpit/automation/helpers/GridHelper.java:45-56 | empty when no header matches; otherwise the texts of the column under the first match, equal to the texts of the element version |
| Grid.ThreeColumnExample | src/main/java/com/kpit/automation/helpers/GridHelper.java:59-66 | with three headers and nine cells, column 1 is cells 1, 4 and 7 |
| Grid.CaseInsensitiveExample | src/main/java/com/kpit/automation/helpers/GridHelper.java:16 | a header reading "NAME" is found for "Name" |
| WebTable.Keeps | src/main/java/com/kpit/automation/helpers/WebTableUtility.java:212 | the filter lambda: the lower-cased text contains the lower-cased value |
| WebTable.KeepsIgnoresCase | src/main/java/com/kpit/automation/helpers/WebTableUtility.java:212 | the filter predicate gives the same answer for texts and values that are equal ignoring case |
| WebTable.Filter | src/main/java/com/kpit/automation/helpers/WebTableUtility.java:211-212 | the kept texts all contain the value ignoring case and come from the input; nothing is dropped exactly when every text contains it, and then the result is the input; a single text is kept exactly when it contains the value |
| WebTable.FilterAppend | src/main/java/com/kpit/automation/helpers/WebTableUtility.java:211-212 | filtering a concatenation filters each part, so the kept rows keep their order; with the single-row case of `Filter` this fixes the result for every input |
| WebTable.FilterCounts | src/main/java/com/kpit/automation/helpers/WebTableUtility.java:211-212 | every text the predicate keeps occurs in the result as often as in the input, and no other text occurs |
| WebTable.VerifyTableFilter | src/main/java/com/kpit/automation/helpers/WebTableUtility.java:205-220 | true exactly when every row is readable and every row's lower-cased text contains the lower-cased value |
| WebTable.VerifyTableSort | src/main/java/com/kpit/automation/helpers/WebTableUtility.java:228-261 | true exactly when every row is readable and the texts are pairwise in `compareTo` order (reversed for descending) |
| WebTable.SortedBothDirections | src/main/java/com/kpit/automation/helpers/WebTableUtility.java:228-261 | both sort checks pass exactly when every row is readable and all rows show the same text |
| WebTable.ApplySorting | src/main/java/com/kpit/automation/helpers/WebTableUtility.java:83-106 | the header is given as it stands at each of its three clicks; the run succeeds exactly when all three clicks go through and both snapshots are readable, and then it has logged the two snapshots and returns the exclusive or of the ascending and descending checks; a failed first click escapes with nothing logged, an unreadable first snapshot after the ascending message only; a later failure escapes after the first snapshot was logged |
| WebTable.DescendingPass | src/main/java/com/kpit/automation/helpers/WebTableUtility.java:92-100 | the second and third clicks with the descending snapshot between them: succeeds exactly when both clicks go through and the rows are readable, and then returns the descending check; each failure escapes with its exception after what was already logged |
| WebTable.SnapshotLog | src/main/java/com/kpit/automation/helpers/WebTableUtility.java:88-90 | the message, the formatted rows and the screenshot, in that order; the formatted rows read back as one block per row, block j being row j's body numbered j + 1 |
| WebTable.CorrectSortCycleIsRejected | src/main/java/com/kpit/automation/helpers/WebTableUtility.java:101 | a header that sorts correctly ascending then descending yields `false` |
| WebTable.ConstantColumnIsRejected | src/main/java/com/kpit/automation/helpers/WebTableUtility.java:101 | a column whose rows all show one text yields `false` |
| WebTable.ApplyFilter | src/main/java/com/kpit/automation/helpers/WebTableUtility.java:45-72 | nothing is sent exactly when the input is hidden, disabled or stale; otherwise clear, TAB, then the value; the result holds exactly when the input works, the rows are readable and each contains the value ignoring case |
| WebTable.EmptyFilterAcceptsEverything | src/main/java/com/kpit/automation/helpers/WebTableUtility.java:212 | the empty filter value passes every readable table |
| WebTable.FilterIgnoresValueCase | src/main/java/com/kpit/automation/helpers/WebTableUtility.java:212 | lower-casing the filter value does not change the check |
| WebTable.FilterExample | src/main/java/com/kpit/automation/helpers/WebTableUtility.java:205-220 | rows "Alpha" and "Alphabet" pass the filter "ALPHA" and fail "bet" |
| JavaCompare.CompareTo | src/main/java/com/kpit/automation/helpers/WebTableUtility.java:234 | when one string is a prefix of the other, the difference of the lengths; otherwise the difference of the characters at the first position where they differ |
| JavaCompare.CompareToZero | src/main/java/com/kpit/automation/helpers/WebTableUtility.java:234 | `compareTo` is zero exactly on equal strings |
| JavaCompare.CompareToFlip | src/main/java/com/kpit/automation/helpers/WebTableUtility.java:234 | `compareTo` is antisymmetric in sign |
| JavaCompare.CompareToTransitive | src/main/java/com/kpit/automation/helpers/WebTableUtility.java:234 | `compareTo(a,b) <= 0` and `compareTo(b,c) <= 0` give `compareTo(a,c) <= 0` |
| JavaCompare.LeqTotalOrder | src/main/java/com/kpit/automation/helpers/WebTableUtility.java:234 | the natural order of strings is reflexive, antisymmetric, transitive and total |
| JavaCompare.Insert | src/main/java/com/kpit/automation/helpers/WebTableUtility.java:234 | inserting into a sorted list keeps it sorted and adds exactly the element |
| JavaCompare.SortedCopy | src/main/java/com/kpit/automation/helpers/WebTableUtility.java:254-255 | the sorted copy is a sorted permutation of the input |
| JavaCompare.SortedUnique | src/main/java/com/kpit/automation/helpers/WebTableUtility.java:234 | two sorted permutations of the same list are equal, so the sorting algorithm does not matter |
| JavaCompare.SortedCopyFixpoint | src/main/java/com/kpit/automation/helpers/WebTableUtility.java:235 | a list equals its sorted copy exactly when it is sorted |
| JavaCompare.SortedBothWays | src/main/java/com/kpit/automation/helpers/WebTableUtility.java:256 | a list is sorted both ways exactly when all its elements are equal |
| JavaText.LowerChar | src/main/java/com/kpit/automation/helpers/WebTableUtility.java:212 | an upper-case ASCII letter becomes the lower-case letter at the same alphabet position, every other character is kept, and no upper-case letter comes out |
| JavaText.ToLower | src/main/java/com/kpit/automation/helpers/WebTableUtility.java:212 | same length; each upper-case ASCII letter becomes its lower-case partner, every other character is kept, so no upper-case letter remains and the result equals the input ignoring case |
| JavaText.ToLowerIdempotent | src/main/java/com/kpit/automation/helpers/WebTableUtility.java:212 | lower-casing twice is lower-casing once |
| JavaText.EqualsIgnoreCase | src/main/java/com/kpit/automation/helpers/GridHelper.java:16 | same length and the characters agree after lower-casing |
| JavaText.EqualsIgnoreCaseLower | src/main/java/com/kpit/automation/helpers/GridHelper.java:16 | two strings are equal ignoring case exactly when their lower-cased forms are equal |
| JavaText.Contains | src/main/java/com/kpit/automation/helpers/WebTableUtility.java:212 | the needle occurs as a contiguous block of the text |
| JavaText.ContainsBlock | src/main/java/com/kpit/automation/helpers/WebTableUtility.java:212 | a text built as `before + needle + after` contains the needle |
| JavaText.ContainsParts | src/main/java/com/kpit/automation/helpers/WebTableUtility.java:212 | a text that contains the needle is `before + needle + after` for some `before` and `after` |
| JavaText.Trim | src/main/java/com/kpit/automation/utilities/ReporterUtility.java:51-56 | the result is a block of the input surrounded only by characters up to the space, and starts and ends with a character above it |
| JavaText.TrimEmptyIff | src/main/java/com/kpit/automation/utilities/ReporterUtility.java:51 | `trim().isEmpty()` exactly when every character is at most the space |
| JavaSplit.Repeat | src/main/java/com/kpit/automation/utilities/ReporterUtility.java:59 | n copies of the character |
| JavaSplit.SplitAllSound | src/main/java/com/kpit/automation/utilities/ReporterUtility.java:49 | the raw pieces hold no separator and join back to the string |
| JavaSplit.DropTrailingEmpty | src/main/java/com/kpit/automation/utilities/ReporterUtility.java:49 | a prefix of the pieces, only empty pieces dropped, ending in a non-empty one |
| JavaSplit.Split | src/main/java/com/kpit/automation/utilities/ReporterUtility.java:49 | pieces are separator-free; no separator gives the string itself; otherwise the last piece is non-empty and the pieces join back to the string less trailing separators |
| JavaSplit.SplitAllConcat | src/main/java/com/kpit/automation/utilities/ReporterUtility.java:49 | splitting at a separator splits the two sides independently |
| JavaSplit.SplitAllNoSeparator | src/main/java/com/kpit/automation/utilities/ReporterUtility.java:49 | a string without the separator is one piece |
| JavaSplit.SplitAllJoin | src/main/java/com/kpit/automation/utilities/ReporterUtility.java:49 | separator-free pieces come back from splitting their join |
| JavaSplit.SplitJoin | src/main/java/com/kpit/automation/helpers/DatePickerHelper.java:73-74 | round trip for `split`: separator-free pieces whose last is non-empty come back, whatever trailing separators follow |
| JavaSplit.SplitFirstPiece | src/main/java/com/kpit/automation/helpers/DatePickerHelper.java:73 | the first piece of `a + sep + b` is `a` for a non-empty separator-free `a` |
| JavaInt.Wrap32 | src/main/java/com/kpit/automation/helpers/DatePickerHelper.java:84 | two's-complement wrap-around: identity on `int` values, ±2^32 just outside |
| JavaInt.ParseInt | src/main/java/com/kpit/automation/helpers/DatePickerHelper.java:75-79 | accepted strings are an optional sign and digits, giving an `int`; a run of digits, unsigned or after `+` or `-`, parses to its signed value when that fits in an `int` and fails otherwise |
| JavaInt.ParseNegativeShow | src/main/java/com/kpit/automation/helpers/DatePickerHelper.java:75 | `parseInt("-" + valueOf(n))` is -n down to the smallest `int`, and fails below it |
| JavaInt.Show | src/main/java/com/kpit/automation/utilities/ReporterUtility.java:52 | decimal digits with no leading zero |
| JavaInt.DigitsValueShow | src/main/java/com/kpit/automation/utilities/ReporterUtility.java:52 | reading back the digits written gives the number |
| JavaInt.ParseShow | src/main/java/com/kpit/automation/helpers/DatePickerHelper.java:75 | `parseInt(valueOf(n)) == n` for every non-negative `int` |
| JavaInt.DigitsValueLeadingZero | src/main/java/com/kpit/automation/helpers/DatePickerHelper.java:77 | a leading zero does not change the value |
| Report.DashlessIsNotSeparator | src/main/java/com/kpit/automation/utilities/ReporterUtility.java:59 | a line that opens without a dash is not the separator |
| Report.HeaderLines | src/main/java/com/kpit/automation/utilities/ReporterUtility.java:51-53 | one line exactly when the first piece is not blank, and that line is the row number, ". " and the trimmed first piece |
| Report.ContinuationLines | src/main/java/com/kpit/automation/utilities/ReporterUtility.java:55-57 | one line per piece after the first, line i being three spaces and the trimmed piece i + 1 |
| Report.RowBody | src/main/java/com/kpit/automation/utilities/ReporterUtility.java:49-57 | no line of a row's body is the separator |
| Report.Assemble | src/main/java/com/kpit/automation/utilities/ReporterUtility.java:59 | one separator per body |
| Report.FormatReport | src/main/java/com/kpit/automation/utilities/ReporterUtility.java:44-62 | exactly one separator line per row |
| Report.BlocksOfAssemble | src/main/java/com/kpit/automation/utilities/ReporterUtility.java:59 | cutting the lines at the separators gives the bodies back |
| Report.ReportBlocks | src/main/java/com/kpit/automation/utilities/ReporterUtility.java:44-62 | the report read back has one block per row, and block j is row j's body numbered j + 1, blank-headed rows counted |
| Report.RowBlockSize | src/main/java/com/kpit/automation/utilities/ReporterUtility.java:48-61 | a row's block has the numbered line (if any), one line per further piece, and ends with the separator |
| Report.OnlyLineBreaks | src/main/java/com/kpit/automation/utilities/ReporterUtility.java:49-59 | a row of line breaks only contributes the separator alone |
| Report.SingleRow | src/main/java/com/kpit/automation/utilities/ReporterUtility.java:44-62 | a one-row report is that row's block |
| Report.TwoPieceBody | src/main/java/com/kpit/automation/utilities/ReporterUtility.java:49-57 | a row of two pieces, the first not blank, gives the numbered line and one indented line |
| Report.FormatExample | src/main/java/com/kpit/automation/utilities/ReporterUtility.java:44-62 | "a\n b\n\n" gives "1. a", "   b" and the separator |
| Dom.AwaitClickable | src/main/java/com/kpit/automation/helpers/DatePickerHelper.java:58 | the wait returns exactly when the element is displayed, enabled and not stale; a stale element raises the stale-reference exception, a hidden or disabled one times out |
| Dom.Click | src/main/java/com/kpit/automation/helpers/DatePickerHelper.java:60 | a click succeeds exactly on a displayed element that is not stale, enabled or not; otherwise the stale-reference or not-interactable exception |
| Dom.Texts | src/main/java/com/kpit/automation/helpers/WebTableUtility.java:208 | the texts in order exactly when no element is stale; otherwise the stale-reference exception |
| Dom.TextOf | src/main/java/com/kpit/automation/helpers/WebTableUtility.java:208 | one text per element, entry i being the text of element i |
| DatePicker.ParseDate | src/main/java/com/kpit/automation/helpers/DatePickerHelper.java:73-79 | failures are index or number-format errors; parsed fields are `int`s; a date without a slash fails |
| DatePicker.ParseDateFields | src/main/java/com/kpit/automation/helpers/DatePickerHelper.java:73-79 | three `parseInt`-accepted fields joined by slashes, signed or zero-padded, optionally followed by a space and more, parse to their values with the month made zero-based in `int` arithmetic |
| DatePicker.ParseDateDigits | src/main/java/com/kpit/automation/helpers/DatePickerHelper.java:73-79 | three in-range runs of digits, zero-padded or not, parse to their decimal values, month minus one |
| DatePicker.ParseDateText | src/main/java/com/kpit/automation/helpers/DatePickerHelper.java:73-79 | round trip: a date written as `day/month/year` parses back to day, month - 1, year |
| DatePicker.ParseDateExample | src/main/java/com/kpit/automation/helpers/DatePickerHelper.java:73-79 | "15/03/2024 10:30" parses to day 15, month index 2, year 2024 |
| DatePicker.NumeralAvoids | src/main/java/com/kpit/automation/helpers/DatePickerHelper.java:75 | a string `parseInt` accepts is non-empty and holds only digits and signs |
| DatePicker.FirstInteractable | src/main/java/com/kpit/automation/helpers/DatePickerHelper.java:154-158 | the index of the first displayed, non-stale element, or the length |
| DatePicker.ClickVisible | src/main/java/com/kpit/automation/helpers/DatePickerHelper.java:153-165 | one abandoned click per displayed stale element before the first displayed non-stale one, then the click on it, if any |
| DatePicker.Navigate | src/main/java/com/kpit/automation/helpers/DatePickerHelper.java:102-110 | no call gives no events, and every event of the repeated calls is on the given target |
| DatePicker.ClickVisibleClicks | src/main/java/com/kpit/automation/helpers/DatePickerHelper.java:153-165 | one call clicks exactly once when some element is displayed and not stale, and never otherwise |
| DatePicker.NavigateClicks | src/main/java/com/kpit/automation/helpers/DatePickerHelper.java:102-110 | n calls click n times when some element is displayed and not stale, and never otherwise |
| DatePicker.NavigationEvents | src/main/java/com/kpit/automation/helpers/DatePickerHelper.java:84-112 | no difference gives no events; every event is a Next step for a positive difference and a Previous step otherwise, with `-yearDiff` taken in `int` arithmetic |
| DatePicker.FirstDisplayed | src/main/java/com/kpit/automation/helpers/DatePickerHelper.java:87-89 | the index of the first displayed element, or the length |
| DatePicker.TitleStep | src/main/java/com/kpit/automation/helpers/DatePickerHelper.java:87-98 | fails exactly when the first displayed title is not clickable: stale-reference when it is stale, timeout when it is disabled; otherwise clicks the first displayed title once, or nothing exactly when none is displayed |
| DatePicker.CurrentMonthDays | src/main/java/com/kpit/automation/helpers/DatePickerHelper.java:132-133 | one element per cell of the month itself, never more than the cells |
| DatePicker.CurrentMonthDaysFromMonth | src/main/java/com/kpit/automation/helpers/DatePickerHelper.java:132-133 | the k-th kept element is the element of the month cell that has exactly k month cells before it |
| DatePicker.CurrentMonthDaysToMonth | src/main/java/com/kpit/automation/helpers/DatePickerHelper.java:132-133 | every month cell is kept, at the position given by the number of month cells before it |
| DatePicker.DayStep | src/main/java/com/kpit/automation/helpers/DatePickerHelper.java:132-144 | selects the cell at index day - 1 exactly when some cell is displayed, the index is in range and the cell is not stale; `null` without error exactly when none is displayed |
| DatePicker.Resolve | src/main/java/com/kpit/automation/helpers/DatePickerHelper.java:54-151 | nothing happens exactly when the trigger is not clickable (stale-reference or timeout); otherwise the trigger click, then the parse error or the calendar steps |
| DatePicker.CalendarSteps | src/main/java/com/kpit/automation/helpers/DatePickerHelper.java:87-144 | when the month view is reached: title, year steps and month click, then the day step; otherwise aborted |
| DatePicker.TestDatePicker | src/main/java/com/kpit/automation/helpers/DatePickerHelper.java:54-151 | returns an element exactly when the run selects one; it is non-stale and is a cell of the month itself |
| DatePicker.SelectedDayCell | src/main/java/com/kpit/automation/helpers/DatePickerHelper.java:135-146 | a selected element is a non-stale cell of the month itself |
| DatePicker.DaySelected | src/main/java/com/kpit/automation/helpers/DatePickerHelper.java:135-144 | the day step selects only a non-stale cell of the month itself |
| DatePicker.TitleClickedAtMostOnce | src/main/java/com/kpit/automation/helpers/DatePickerHelper.java:87-98 | every run clicks the title at most once |
| DatePicker.NavigationCount | src/main/java/com/kpit/automation/helpers/DatePickerHelper.java:100-112 | without overflow, forward year - currentYear times or back currentYear - year times when that direction has a displayed, non-stale link; the other direction never |
| DatePicker.ForwardClicks | src/main/java/com/kpit/automation/helpers/DatePickerHelper.java:101-105 | a positive difference clicks Next that often and Previous never |
| DatePicker.BackwardClicks | src/main/java/com/kpit/automation/helpers/DatePickerHelper.java:106-111 | a negative difference clicks Previous its magnitude times and Next never |
| DatePicker.NavigationWrapsForward | src/main/java/com/kpit/automation/helpers/DatePickerHelper.java:84 | a difference below the smallest `int` wraps and steps forward |
| DatePicker.NavigationSmallestDifference | src/main/java/com/kpit/automation/helpers/DatePickerHelper.java:107 | for the smallest `int` difference, `-yearDiff` wraps and no step happens |
| DatePicker.ResolveFindsDay | src/main/java/com/kpit/automation/helpers/DatePickerHelper.java:54-151 | a well-formed date on an intact calendar selects the requested day's cell after one step per year of difference |
| DatePicker.ResolveFindsParsedDay | src/main/java/com/kpit/automation/helpers/DatePickerHelper.java:54-151 | the same for a date already known to parse |
| DatePicker.ResolveParsed | src/main/java/com/kpit/automation/helpers/DatePickerHelper.java:58-60 | after the trigger click the run selects and clicks what the calendar steps do |
| DatePicker.CalendarFindsDay | src/main/java/com/kpit/automation/helpers/DatePickerHelper.java:87-144 | an intact calendar selects the day's cell with one step per year of difference |
| DatePicker.CalendarYearSteps | src/main/java/com/kpit/automation/helpers/DatePickerHelper.java:100-129 | the calendar steps click Next and Previous exactly as the year navigation does |
| DatePicker.ClearDate | src/main/java/com/kpit/automation/helpers/DatePickerHelper.java:167-183 | nothing when the trigger is not clickable; otherwise the trigger click, then the Clear click exactly when the Clear link is clickable |
| DatePicker.ClearOnlyAfterOpening | src/main/java/com/kpit/automation/helpers/DatePickerHelper.java:167-183 | Clear is clicked at most once, and only after the picker was opened |
| Retry.Retry | src/main/java/com/kpit/automation/utilities/RetryUtility.java:15-27 | grants exactly when fewer than two runs were granted and the result can be read for the log; a grant raises the count by one, a refusal changes nothing |
| Retry.Run | src/main/java/com/kpit/automation/utilities/RetryUtility.java:15-27 | one answer per call |
| Retry.AfterKeepsInvariant | src/main/java/com/kpit/automation/utilities/RetryUtility.java:9-20 | the count never decreases and stays between 0 and 2 |
| Retry.RunFrom | src/main/java/com/kpit/automation/utilities/RetryUtility.java:15-27 | on readable results, call i is granted exactly when i < 2 - count |
| Retry.FreshRun | src/main/java/com/kpit/automation/utilities/RetryUtility.java:9-27 | a fresh analyser grants the first two calls and refuses every later one |
| Retry.GrantedCountFrom | src/main/java/com/kpit/automation/utilities/RetryUtility.java:15-27 | from count c, the grants number min(readable results, 2 - c) |
| Retry.FreshGrantedCount | src/main/java/com/kpit/automation/utilities/RetryUtility.java:9-27 | a fresh analyser grants min(readable results, 2): never more than two |
| Retry.ResultStatusName | src/main/java/com/kpit/automation/utilities/RetryUtility.java:29-43 | codes 1, 2 and 3 have a name, every other code has none, and each name maps back to its code |
| Retry.StatusNameRoundTrip | src/main/java/com/kpit/automation/utilities/RetryUtility.java:29-43 | every status name maps to a code that is named by it |

## Left out

- Logging, `Thread.sleep`, screenshots and the hand-off of the formatted lines to the Extent report are not modelled. This includes the unguarded `Listeners.extentTest.get()` in `logListOfReport` (ReporterUtility.java:64), which would throw when no test is attached to the thread. `FormatReport` stops at the formatted lines.
- Waits are modelled by their outcome only. A wait for elements that never appear is a `Timeout`, with no time passing.
- DatePicker.ClickVisible: `isDisplayed` is modelled as never failing, although on a stale element it would itself throw (DatePickerHelper.java:155).
- DatePicker.TitleStep: `isDisplayed` on a stale title link is modelled as never failing, so a stale link before the first displayed one is skipped where the source would throw (DatePickerHelper.java:89).
- DatePicker.DayStep: `isDisplayed` on a stale day cell is modelled as never failing, so a stale cell before the first displayed one is skipped where the source would throw (DatePickerHelper.java:138).
- DatePicker.Navigate: each element's displayed and stale flags stay fixed across the repeated calls. A re-render between year steps is not modelled.
- DatePicker.Resolve: the current year is a parameter standing for `Calendar.getInstance()`. Each element list of the widget is the snapshot found at its own look-up: the arrows and title links after the picker opens (DatePickerHelper.java:67-71), the month cells after the year steps (121-122), the day cells after the month click (132-133). Changes to a list after its look-up are not modelled.
- Grid.HeaderElementByName: staleness of header elements is ignored. A stale header's `getText` would throw (GridHelper.java:16).
- Grid.ColumnValuesByHeaderName: stale headers and cells are read as live. In the source their `getText` throws, and the catch returns the empty list (GridHelper.java:16, 37, 51-55).
- Grid.ColumnElementsByHeaderName: stale headers are read as live. In the source a stale header's `getText` throws, and the catch returns the empty list (GridHelper.java:16, 74-78).
- Grid.ColumnValuesByIndex: stale cells are read as live, although their `getText` would throw (GridHelper.java:37).
- Grid.ColumnElementsByIndex: with no headers and a start index inside the cell list, the source loops forever. This input is excluded by a precondition rather than modelled as divergence.
- Retry.Retry: the test result is reduced to whether `getName()` and `getStatus()` answer. The log line built from them is not modelled.
- JavaText.LowerChar: lower-cases ASCII letters only. Other Unicode case mappings are not modelled.
- JavaInt.ParseInt: accepts ASCII digits only. Other Unicode decimal digits are not modelled.
- JavaCompare.CompareTo: compares code points, not the UTF-16 units Java compares. The two orders agree on the Basic Multilingual Plane.
- The other helpers of the framework are outside this model: drop-downs, alerts, pop-ups, file upload, JavaScript, mouse actions, browser, Excel, database and page objects.

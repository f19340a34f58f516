# Watchkeeper timesheet extraction, modelled in Dafny

`extract_watchkeeper.py` reads "RECORD OF HOURS OF REST" timesheets exported
as PDF. Each page becomes a header (vessel, seafarer, position, period, first
and last day, page label), two lists of rest-hour figures ("in any 24h" and
"in any 7d"), and a 48-column work/rest chart decoded from the page image.
From the chart it derives the hours worked per day. The reports then count
rest-hour violations per month and sum hours worked and overtime per month,
per position, and per position and month.

This project models that pure core:

- `Chart` (`chart.dfy`): the pixel sampler that turns a page image into a chart.
- `Hours` (`hours.dfy`): hours worked per day, half an hour per work cell.
- `Text` (`text.dfy`): `str.split` on a delimiter with its inverse `Join`, and occurrence counting.
- `Record` (`record.dfy`): the regular-expression searches of one segment, one matcher per pattern. It also covers the conversion of rest-hour tokens and the parse of a whole segment with its error cases.
- `Extract` (`extract.dfy`): `read_pdf`. It splits the text into segments, parses each one, decodes the page image that goes with it and derives hours worked. The first failing page aborts the read.
- `Rest` (`rest.dfy`): `clean_anyhours`, which replaces the "N/A" sentinel.
- `Reports` (`reports.dfy`): the counting and summing in `plot_violations`, `report_violations` and the three overtime reports.
- `Outcomes` (`outcomes.dfy`): `Option`, `Result`, and collecting a sequence of results.

Conventions used throughout:

- A page image is a total function from coordinates to an RGB colour.
- Number parsing (`float`) is a parameter `num: string -> Option<real>`. `None` stands for the `ValueError` that `float` raises.
- Hours are `real`.
- Every exception the extractor can raise is an `ExtractError` carrying the index of the page that raised it. The cases are:
  - a regular expression that finds nothing, so `.group(1)` fails on `None`;
  - a token that `float` rejects;
  - a page with no image.

## Model

| member | source | states |
|---|---|---|
| Chart.Decode | extract_watchkeeper.py:24-42 | The decoded chart has one row per day. There are no rows when the day count is zero or negative. Every row has 48 cells, and each cell is 0 or 1. |
| Chart.DecodeGantt | extract_watchkeeper.py:24-42 | The loop with its running y coordinate produces a chart of the same shape. Cell (r, c) is 1 exactly when the pixel at column c's x and y = 348 + 26r has no channel equal to 255. The loop's result equals `Decode`. |
| Chart.ColumnsIncreasing | extract_watchkeeper.py:25 | There are 48 sample columns, ordered strictly left to right. |
| Chart.ColumnsStrictlyOrdered | extract_watchkeeper.py:25 | Any earlier column lies strictly left of any later one. Each half-hour slot is sampled at its own x. |
| Chart.SaturatedChannelIsRest | extract_watchkeeper.py:34-37 | One saturated channel is enough to read a pixel as rest. A pixel just below white in every channel reads as work. |
| Chart.SampleRow | extract_watchkeeper.py:30-38 | One sample line yields 48 cells, each 0 or 1. |
| Chart.DecodeRow | extract_watchkeeper.py:30-38 | The inner loop over the 48 x positions yields exactly the sample line of that y. |
| Chart.DecodeSamples | extract_watchkeeper.py:29-39 | Every cell of the decoded chart is the reading of the pixel at its column's x and its row's y. |
| Hours.Ones | extract_watchkeeper.py:158 | The count of work cells in a row is at most the row's length. |
| Hours.OnesCountsWorkSlots | extract_watchkeeper.py:158 | That count is the size of the set of slots that hold a 1, as `gantt[days][gantt[days] == 1].count()` counts them. |
| Hours.HoursWorked | extract_watchkeeper.py:152-160 | There is one figure per chart row. Each figure is non-negative and at most half the row's length. |
| Hours.HoursWorkedOfDecoded | extract_watchkeeper.py:149-160 | For a decoded chart, twice a day's hours is the number of work pixels on that day's sample line, so the hours lie between 0 and 24. |
| Text.Find | extract_watchkeeper.py:115 | The result is the leftmost occurrence of the delimiter, or none when it does not occur. |
| Text.Split | extract_watchkeeper.py:115 | `split` always yields at least one piece. |
| Text.SplitStep | extract_watchkeeper.py:115 | `split` yields the text before the first delimiter, then the pieces of the text after it. |
| Text.SplitPiecesAbsent | extract_watchkeeper.py:115 | No piece of `split` contains the delimiter. |
| Text.JoinSplit | extract_watchkeeper.py:115 | Joining the pieces of `split` with the delimiter gives back the text. |
| Text.SplitCount | extract_watchkeeper.py:115 | For a delimiter that cannot overlap itself, `split` yields one more piece than there are occurrences. |
| Text.OccurrencesFromFirst | extract_watchkeeper.py:115 | Counting from the first occurrence of a delimiter that cannot overlap itself gives that occurrence plus those after it ends. |
| Extract.DelimiterNoSelfOverlap | extract_watchkeeper.py:115 | "RECORD OF HOURS OF REST" cannot overlap itself. |
| Extract.Segments | extract_watchkeeper.py:115 | There is one segment per occurrence of the delimiter, and no segment contains it. |
| Extract.SegmentsRoundTrip | extract_watchkeeper.py:115 | The text before the first delimiter, followed by the segments rejoined with the delimiter, is the original text. |
| Record.FirstMatch | extract_watchkeeper.py:123-129 | The result is the leftmost start position at which the pattern matches, or none when it matches nowhere. |
| Record.SearchLeftmost | extract_watchkeeper.py:123-129 | `re.search` succeeds exactly when the pattern matches at some position. When it succeeds, its capture is the one at the leftmost such position. |
| Record.SearchFindsNothing | extract_watchkeeper.py:123-129 | A pattern that matches at no position makes `re.search` return nothing. |
| Record.SearchFindsFirst | extract_watchkeeper.py:123-129 | When the pattern first matches at position i, `re.search` returns the match at i. |
| Record.LineAfterAt | extract_watchkeeper.py:123-125 | A capture of `label\n\n(.*?)\n` holds no line break, and the text at the match position is the label, the capture, then a line break. Conversely, whenever the label sits at the position and a line break follows it somewhere, the match succeeds. |
| Record.LineAfterAtExactly | extract_watchkeeper.py:123-125 | When the label is followed by a text without line breaks and then a line break, the match captures exactly that text. |
| Record.LineSearchFirstLabel | extract_watchkeeper.py:123-125 | Searching for such a pattern yields the line after the first occurrence of the label. It fails exactly when the label is absent or that line never ends. |
| Record.LineSearchWithoutLabel | extract_watchkeeper.py:123-125 | When the label does not occur, the search finds nothing. |
| Record.LineSearchAtFirstLabel | extract_watchkeeper.py:123-125 | When the label first occurs at i, the search gives the line after that occurrence, or nothing when that line has no end. |
| Record.HeaderLinesFollowFirstLabel | extract_watchkeeper.py:123-125 | Vessel, seafarer and position are each the line after the first occurrence of their label. |
| Record.PeriodAt | extract_watchkeeper.py:126 | The period is a single line that sits between a line break and a blank line followed by "Periods". |
| Record.PeriodAtExactly | extract_watchkeeper.py:126 | When a line break, a text without line breaks, a blank line and "Periods" follow the position, the match captures exactly that text. |
| Record.TwoDigits | extract_watchkeeper.py:135-136 | `int` of two decimal digits is their decimal value: its tens are the first digit and its units the second, so it lies between 0 and 99. |
| Record.StartDayAt | extract_watchkeeper.py:127-135 | The start-day pattern `Date\n(\d\d)/` matches at a position exactly when its text fits there. The day is then the two-digit number of the captured digits. |
| Record.EndDayAt | extract_watchkeeper.py:128-136 | The end-day pattern `\n(\d\d)/\d\d/\d{4}\n\n` matches exactly when its text fits there. The day is then the two-digit number of the first two digits. |
| Record.SpacesFrom | extract_watchkeeper.py:129 | The number of spaces the greedy ` *` consumes is the length of the run of spaces. |
| Record.PageAt | extract_watchkeeper.py:129 | The label follows "Page" and the run of spaces, and holds neither a space nor a line break. When the label sits at the position, the match succeeds exactly when spaces follow it or a space comes before the next line break. The capture is then the text up to that space, or empty when the run of spaces itself ends the match. |
| Record.FirstSpaceOrBreak | extract_watchkeeper.py:129 | The first space or line break is a space exactly when a space comes before every line break. |
| Record.RestListAt | extract_watchkeeper.py:139-140 | A rest-hour list is at least one character long. It is followed by a blank line, and the lazy match stops at the first such blank line. Conversely, when the label sits at the position and a blank line follows its first character somewhere, the match succeeds. |
| Record.RestListAtExactly | extract_watchkeeper.py:139-140 | When the label is followed by a text of at least one character and then a blank line, and no earlier blank line, the match captures exactly that text. |
| Record.LabelledCaptureLayout | extract_watchkeeper.py:139-140 | When the label is followed by a text and a blank line, the text sits right after the label, and the text after its first character ends with the blank line. |
| Record.CaptureHasNoBlankLine | extract_watchkeeper.py:139-140 | The lazy capture, with the line break after it, holds no blank line. |
| Record.CaptureFollowedByBlankLine | extract_watchkeeper.py:139-140 | The text at the match position is the label, the capture, then a blank line. |
| Record.ToRestValues | extract_watchkeeper.py:145-147 | Conversion succeeds exactly when every token is "N/A" or a number. The sentinel stays a sentinel and every other token becomes its number. A failure names a token that is neither. |
| Record.StartDayInRange | extract_watchkeeper.py:127 | A start day that the search finds lies between 0 and 99. |
| Record.EndDayInRange | extract_watchkeeper.py:128 | An end day that the search finds lies between 0 and 99. |
| Record.Searches | extract_watchkeeper.py:123-140 | Of the nine searches of a segment, a day found lies between 0 and 99. |
| Record.ParseFound | extract_watchkeeper.py:131-147 | Given what the searches found, parsing succeeds exactly when all nine found something and both lists convert. The header then holds the found vessel, seafarer, position, period, days and page, and each list is the conversion of its found text's lines. A missing-field error names the first field not found, and a conversion error names the token of the first list that fails. |
| Record.ParsePage | extract_watchkeeper.py:123-147 | A segment parses exactly when every field is found and every rest-hour token converts. The header is then what the nine searches found, and each list is the conversion of the lines its search captured. A failure names its own page and is never a missing image. A missing-field error names the first field that is not found. |
| Record.ParsedListsFollowLines | extract_watchkeeper.py:139-147 | In a successful parse, each rest-hour list is the conversion of the lines its pattern captured, one value per line. |
| Record.ParsedHeaderFollowsSearches | extract_watchkeeper.py:123-136 | In a successful parse, each header field is what its own search of the segment found. |
| Outcomes.FirstFailure | extract_watchkeeper.py:122-150 | Gives the first page whose extraction fails; every earlier page succeeds. |
| Outcomes.Collect | extract_watchkeeper.py:122-150 | The pages collect exactly when every one succeeds, and then in order. Otherwise the error is that of a failing page with every earlier page succeeding. |
| Extract.CollectNamesFirstFailure | extract_watchkeeper.py:122-150 | When every failure carries its own page index, a failed collection names a page whose own outcome is that error, with every earlier page succeeding. |
| Extract.ExtractPage | extract_watchkeeper.py:122-150 | A page extracts exactly when its segment parses and an image exists for it. Its errors carry its own index. |
| Extract.ExtractPageFacts | extract_watchkeeper.py:131-149 | An extracted page's chart is decoded from its own image, with end day - start day + 1 rows, and its rest-hour lists are those of its segment's parse. |
| Extract.PageOutcomes | extract_watchkeeper.py:115-150 | There is one extraction attempt per segment, in the order of the segments. |
| Extract.ReadPdf | extract_watchkeeper.py:93-164 | The read succeeds exactly when every segment extracts. All result lists then have one entry per segment. A failure is the error of the first segment that fails, and every earlier segment extracts. |
| Extract.Assemble | extract_watchkeeper.py:131-160 | The result lists have one entry per page, in page order. Each page's chart, header, rest-hour lists and hours worked come from that page's own record. |
| Extract.FailureNamesAPage | extract_watchkeeper.py:122-150 | The error that stops a read is the first failing segment's own error, and every earlier segment extracts. |
| Extract.ReadPdfPages | extract_watchkeeper.py:131-160 | In a successful read, page i's segment parses, and its header and both rest-hour lists are that parse's. Its chart is image i decoded over its day span, with every row 48 cells of 0 or 1, and its hours are derived from that chart. |
| Extract.ReadPdfCoherent | extract_watchkeeper.py:131-160 | Every successful read is coherent. Its lists run in parallel, and each chart has one row per day its header covers (none when that count is not positive). Each chart's rows hold 48 cells of 0 or 1, and its hours are derived from that chart. |
| Extract.MissingFieldAborts | extract_watchkeeper.py:131-143 | A segment that lacks a field makes the whole read fail, at that page or an earlier one. |
| Extract.HoursWorkedInRange | extract_watchkeeper.py:152-160 | Every hours-worked figure of a successful read lies between 0 and 24. |
| Rest.FillList | extract_watchkeeper.py:344-347 | Each "N/A" becomes the fill value, every number is unchanged, and the length is kept. |
| Rest.FillPages | extract_watchkeeper.py:344-353 | The fill is applied to every page. |
| Rest.Clean | extract_watchkeeper.py:334-353 | After cleaning, every value is numeric. In the 24-hour lists "N/A" becomes 24 and in the 7-day lists it becomes 168. Numbers and lengths are kept. |
| Rest.FillListNumeric | extract_watchkeeper.py:346 | A list without the sentinel is left as it is. |
| Rest.CleanIdempotent | extract_watchkeeper.py:334-353 | Cleaning twice is the same as cleaning once. |
| Reports.SumRealSnoc | extract_watchkeeper.py:218 | Summing a list with one more entry adds that entry. |
| Reports.Matching | extract_watchkeeper.py:217 | The indices listed are pages whose key matches, in strictly increasing order. |
| Reports.MatchingComplete | extract_watchkeeper.py:217 | Every page whose key matches is listed. |
| Reports.SelectPicksMatching | extract_watchkeeper.py:217 | The selection holds one entry per page whose key matches, in page order: entry j is the entry of the j-th matching page. Repeated values are kept. |
| Reports.SelectMembers | extract_watchkeeper.py:217 | Every page whose key matches is selected. |
| Reports.PartitionSum | extract_watchkeeper.py:216-218 | When every page's key is among distinct group keys, the group sums add up to the overall sum. |
| Reports.SumOverGroupsSnoc | extract_watchkeeper.py:216-218 | Adding one page adds its value to the group sum only when its key is one of the groups. |
| Reports.EmptyGroups | extract_watchkeeper.py:216-218 | With no pages every group sums to zero. |
| Reports.SumOverGroupsLast | extract_watchkeeper.py:216-218 | The group sums are those over all pages but the last, plus the last page's value when its key is one of the groups. |
| Reports.SumIntAsReal | extract_watchkeeper.py:375-381 | Summing counts and then converting to a real gives the sum of the converted counts. |
| Reports.SelectAsReals | extract_watchkeeper.py:375-377 | Selecting the pages of a key commutes with converting counts to reals. |
| Reports.GroupCountsAsReal | extract_watchkeeper.py:375-381 | The per-key count sums, summed and converted, are the group sums of the converted counts. |
| Reports.CountsAddUp | extract_watchkeeper.py:375-381 | When the keys are distinct and cover every page, the per-key counts add up to the count over all pages. |
| Reports.SumIntNonNegative | extract_watchkeeper.py:378-380 | A sum of non-negative counts is non-negative. |
| Reports.MonthsCoverPages | extract_watchkeeper.py:212-217 | The twelve report months are distinct, and every page whose month is in 1..12 falls under one of them. |
| Reports.AtLeastSameOvertime | extract_watchkeeper.py:311 | Overtime over days `>= limit` equals overtime over days `> limit`, because a day exactly at the limit adds nothing. |
| Reports.OvertimeBounds | extract_watchkeeper.py:219-220 | With a non-negative limit and non-negative hours on the page, the page's overtime lies between 0 and its hours worked. |
| Reports.PageTotals | extract_watchkeeper.py:218 | There is one total per page. |
| Reports.PageOvertimes | extract_watchkeeper.py:219-220 | There is one overtime figure per page. |
| Reports.PageOvertimesAtLeast | extract_watchkeeper.py:311-312 | The by-position-and-month report's `>=` overtime per page equals the `>` overtime of the other reports. |
| Reports.GroupOvertimeBounds | extract_watchkeeper.py:217-220 | With a non-negative limit and non-negative hours, a group's overtime lies between 0 and its hours worked. |
| Reports.Group | extract_watchkeeper.py:217-220 | A report row carries its key. With a non-negative limit and non-negative hours, its overtime is non-negative and at most its total. |
| Reports.GroupNoPages | extract_watchkeeper.py:217-220 | With no pages, a group has no overtime and no hours worked. |
| Reports.GroupAddPage | extract_watchkeeper.py:217-220 | Adding a page adds its overtime and its hours worked to the group of its key, and leaves every other group unchanged. |
| Reports.OvertimesAddPage | extract_watchkeeper.py:219-220 | Adding a page adds its overtime to the overtime of the group of its key only. |
| Reports.TotalsAddPage | extract_watchkeeper.py:218 | Adding a page adds its hours worked to the hours worked of the group of its key only. |
| Reports.SelectSnocSum | extract_watchkeeper.py:217-218 | Adding a page adds its value to the selection's sum exactly when its key is the one selected. |
| Reports.NineHourPage | extract_watchkeeper.py:219-220 | A page of three 9-hour days has 3 hours of overtime over a limit of 8, out of 27 hours worked. |
| Reports.OvertimeExample | extract_watchkeeper.py:217-220 | Two January pages of three 9-hour days give 6 hours of overtime over a limit of 8, out of 54 hours worked. |
| Reports.TwoJanuaryPages | extract_watchkeeper.py:217-220 | Two such January pages give 6 hours of overtime out of 54 hours worked. |
| Reports.OvertimeByMonth | extract_watchkeeper.py:212-220 | There is one row per month 1..12, in order, and row m is the group of the pages of month m + 1: its overtime and hours worked are those of exactly those pages. With a non-negative limit and non-negative hours, each row's overtime lies between 0 and its total. |
| Reports.Unique | extract_watchkeeper.py:252 | The result lists each position once, and contains every position and only positions that occur. |
| Reports.IndexOf | extract_watchkeeper.py:252 | The index given is an occurrence of the value, and no earlier entry holds it. |
| Reports.IndexOfInPrefix | extract_watchkeeper.py:252 | A value met among the first n entries first occurs at the same index in the whole sequence. |
| Reports.UniqueFirstSeenOrder | extract_watchkeeper.py:252 | The distinct positions come in the order in which each first appears, as pandas `unique` lists them. |
| Reports.OvertimeByPosition | extract_watchkeeper.py:252-261 | There is one row per distinct position, in first-seen order (`Reports.UniqueFirstSeenOrder`), and row j is the group of the pages of that position: its overtime and hours worked are those of exactly those pages. With a non-negative limit and non-negative hours, each row's overtime lies between 0 and its total. |
| Reports.MonthAndPosition | extract_watchkeeper.py:309 | Each page's key pairs its month with its position. |
| Reports.OvertimeByPositionAndMonth | extract_watchkeeper.py:297-323 | There is one row per distinct position with twelve monthly figures. Each figure sums the pages of that month and position. |
| Reports.RowTotals | extract_watchkeeper.py:218 | There is one hours-worked figure per row, that row's total. |
| Reports.RowOvertimes | extract_watchkeeper.py:219-220 | There is one overtime figure per row, that row's overtime. |
| Reports.RowSumsAreGroupSums | extract_watchkeeper.py:216-220 | The rows of a report, one group per key, sum to the group sums over those keys, for hours worked and for overtime. |
| Reports.PositionRowsAddUp | extract_watchkeeper.py:252-259 | Summed over the per-position rows, hours worked and overtime equal those of all pages. |
| Reports.MonthlyRowsAddUp | extract_watchkeeper.py:212-220 | When every page's month is in 1..12, the twelve monthly rows' hours worked and overtime add up to those of all pages. |
| Reports.MonthlyFiguresAddUp | extract_watchkeeper.py:212-220 | When every month is in 1..12, the monthly group sums of hours worked and of overtime add up to those of all pages. |
| Reports.Below | extract_watchkeeper.py:379-380 | The count of violations on a page is at most its number of entries. |
| Reports.BelowCountsSlots | extract_watchkeeper.py:380 | That count is the number of positions whose value is a number below the limit. |
| Reports.FilledSentinelsNeverViolate | extract_watchkeeper.py:343-353 | Replacing "N/A" with a value at or above the limit does not change the violation count. |
| Reports.PageViolations | extract_watchkeeper.py:378-380 | There is one count per page: the number of positions of the page's list that hold a number strictly below the limit. |
| Reports.ViolationsByMonth | extract_watchkeeper.py:370-381 | There are twelve monthly counts. Month m's count sums the violations of the pages of month m, and is non-negative. Pages of those months must hold only numbers. |
| Reports.ViolationsAddUp | extract_watchkeeper.py:370-381 | When every page's month is in 1..12, the twelve monthly counts add up to the number of values below the limit on all pages. |
| Reports.GroupCounts | extract_watchkeeper.py:375-381 | There is one count per key, the sum of the entries of that key's pages. |
| Reports.PageDays | extract_watchkeeper.py:416-418 | There is one day span per page. |
| Reports.ReportViolations | extract_watchkeeper.py:409-419 | After cleaning, the monthly counts against 10 hours (24-hour window) and 77 hours (7-day window) equal those of the numbers read from the pages, sentinels ignored. Month m's days sum end day - start day + 1 over that month's pages. |
| Reports.ReportAddsUp | extract_watchkeeper.py:409-419 | When every page's month is in 1..12, each column of the violation report adds up over the months to its figure over all pages: the 24-hour and 7-day violations, and the days covered whatever the day spans. |
| Reports.ViolationExample | extract_watchkeeper.py:380 | Of rest figures 5, 12 and 24, only 5 violates the 10-hour rule. |
| Reports.ChartRows | extract_watchkeeper.py:149 | There is one row count per chart. |
| Reports.PageDaysAreChartRows | extract_watchkeeper.py:149 | In a coherent extraction where no page has a negative day span, each page's day span is its number of chart rows. |
| Reports.DaysMatchChartRows | extract_watchkeeper.py:414-419 | Under that condition, a month's violation report counts as days exactly the chart rows decoded for that month's pages. |

## Left out

- Rasterising the PDF (`convert_from_path`) and extracting its text (`extract_text`): these are library calls, so the page images and the text are inputs.
- `image.convert('RGB')` and `getpixel` raising for a coordinate outside the image: an image is a total function, so an image too small for the template is not modelled.
- General regular expressions: each of the seven header patterns and the two rest-list patterns has its own matcher, and `re.search` is the leftmost position at which that matcher succeeds.
- `\d` in Python also matches non-ASCII decimal digits, and `int` accepts them. The model's digits are ASCII `0`-`9` only.
- `float`: its parsing rules (signs, exponents, surrounding spaces) are a parameter. A `num: string -> Option<real>` cannot produce NaN or infinity, so the tokens `nan` and `inf` have no faithful image: a real stands in for them, or `None`. In the source NaN is never below a limit, so it never counts as a violation.
- `visualize`, `export`, and all plotting and Excel writing in the reports: these are presentation and file output.
- `report_average_hours` and `mean_std_per_seafarer`: they compute floating-point means and standard deviations, which are not part of this model.
- The padding with NaN that pandas does when pages have different numbers of days: the model sums each page's own list, which gives the same sums because `sum` skips NaN.
- The month of a page: the reports select pages with `header['Period'] == month`, where `Period` holds the string the period pattern matched (line 134) and `month` is an integer from 1 to 12 (lines 212 and 217). A string never equals an integer, so as written every selection is empty and every monthly figure the program produces is 0. The source has no conversion from a period string to a month. The model takes each page's month as an input sequence of integers and states the monthly figures for the selection the reports evidently intend.
- `clean_anyhours` mutates the dictionary in place: it is modelled as a pure function that returns the cleaned lists.
- `read_pdf` converts the rest-hour lists of all pages read so far again on every iteration (lines 145-147). Applying `float` to a number gives that number back, so only the current page's conversion is modelled.
- A page whose day span end day - start day + 1 is negative gives `get_ganttdata` a non-positive count and so no rows, while `report_violations` still adds its negative span. `Reports.DaysMatchChartRows` therefore assumes no page has a negative day span; a span of 0, where a page ends the day before it starts, is admitted, and gives 0 rows and 0 days.
- Reports.ViolationsByMonth: requires that the pages of months 1 to 12 hold no "N/A". In the source, comparing the string "N/A" with a number raises, which is why `report_violations` cleans first.

The comment in `clean_anyhours` says the 7-day sentinel becomes 77, but the code writes 168. The model follows the code (`Rest.Full7d`).

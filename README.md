# Library dashboard: record classification

A Dafny model of the data-transformation core of a Streamlit library dashboard
(`p2.py`). The dashboard loads a table of book records. It narrows the table with a
search box, then computes summary counts, the books that need attention, the
overdue books and the genres with few books. Each of these operations is a pure
function from a table to a new value. The model keeps them as functions and proves
what each result means.

- `wrappers.dfy` (`Wrappers`): `Option`, the type of a cell that may be missing (NaN or NaT).
- `text.dfy` (`Text`): ASCII lower-casing and a recursive substring test. The test is
  proved equal to a reference definition ("the query occurs at some offset").
- `dates.dfy` (`Dates`): timestamps as integer nanosecond ticks. `WholeDays` is the
  whole-days part of a time difference, rounded towards minus infinity, as a
  timedelta's `days` is.
- `frames.dfy` (`Frames`): the data frame. A `Table` has a set of column names
  (recognised or not) and its rows in file order. A `Record` holds one optional value
  per recognised column. `IsEmpty` means no rows or no columns. `EmptyFrame` is a
  freshly built frame with neither rows nor columns. A boolean row mask is a
  `Criterion`, and `Where` selects the rows where the mask holds. `WherePicks` proves
  that a selection keeps exactly those rows, in order. Order is stated with `Picks`:
  the rows at strictly increasing positions.
- `dashboard.dfy` (`Dashboard`): the five operations, `BookSummaryOf`, `FlaggedBooks`,
  `OverdueBooks`, `UnderrepresentedGenres` and `SearchBooks` (the search block of
  `main`). Each is stated against an independent reference predicate or count:
  `NeedsAttention`, `IsOverdue`, `CategoryCount` and `MatchesQuery`.
- `examples.dfy` (`Examples`): the dashboard's sample table and what each operation gives for it.
  It also holds the overdue cases of a book issued 45, 10 and 30½ days ago.

"Now" is an explicit parameter of `OverdueBooks`. The chosen search column and the
typed query are parameters of `SearchBooks`. Its precondition `ValidSearchField` says
what the select box guarantees: the field is one of the offered columns, whenever any
column is offered.

Points where the code is easy to misread:

- The search converts each cell with `astype(str)` before matching (p2.py:143). A
  missing cell therefore becomes the text "nan", and a query such as "na" matches
  it. `MissingCellMatchesNan` states this.
- `df.empty` is also true for a frame that has rows but no columns. `IsEmpty` models
  that case, so such a frame summarises to zeros.
- The flagged and overdue detectors return a frame with no columns (`EmptyFrame`) on
  their early exits, and the overdue detector also when no row is issued. Otherwise
  they return a frame with the input's columns, even when it has no rows.

## Model

| member | source | states |
|---|---|---|
| Frames.Where | p2.py:62 | selecting rows by a mask gives no more rows than the input; every selected row comes from the input and meets the mask; every input row meeting the mask is selected |
| Frames.WherePicks | p2.py:144 | the selected rows are the input rows at strictly increasing positions (order kept, nothing duplicated), and those positions are exactly the positions where the mask holds |
| Frames.WhereBoth | p2.py:71-84 | selecting the issued rows and then the late ones equals one selection by the conjunction of the two masks |
| Frames.WhereDisjointCounts | p2.py:47-52 | three masks that never hold together on one row select at most as many rows in total as the table has |
| Text.ContainsIsSubstring | p2.py:143 | the recursive substring test holds exactly when the query occurs in the text at some offset (both directions) |
| Text.LowerIdempotent | p2.py:140 | lower-casing an already lower-cased query changes nothing |
| Text.LowerKeepsLength | p2.py:140-142 | lower-casing keeps the length, so the lower-cased query is empty exactly when the typed one is |
| Text.MissingCharNotContained | p2.py:143 | a query with a character that the text lacks never occurs in the text |
| Text.LowerMember | p2.py:143 | a lower-case letter in lower-cased text comes from that letter or its upper-case form in the original |
| Dates.WholeDaysExceed | p2.py:79 | more than d whole days have elapsed exactly when the difference is at least d+1 full days of ticks |
| Dates.WholeDaysOfSpan | p2.py:83 | a difference between d and d+1 days is d whole days, fractions being dropped |
| Dashboard.BookSummaryBounds | p2.py:32-53 | an empty table (no rows or no columns) gives seven zeros; otherwise the total is the row count; every count is at most the total; Available+Issued+Returned and Damaged+Lost+To Be Replaced are each at most the total; a missing Status or Condition column gives 0 for its three counts |
| Dashboard.BookSummaryStatusCounts | p2.py:47-49 | in a non-empty table with a Status column, the Available, Issued and Returned counts are each the number of positions whose status is exactly that literal |
| Dashboard.BookSummaryConditionCounts | p2.py:50-52 | in a non-empty table with a Condition column, the Damaged, Lost and To Be Replaced counts are each the number of positions whose condition is exactly that literal |
| Dashboard.FlaggedBooksSpec | p2.py:56-62 | without rows, columns or a Condition column the result is the frame with nothing in it; otherwise it keeps the columns and holds, in input order, exactly the rows whose condition is Damaged, Lost or To Be Replaced |
| Dashboard.OverdueBooksSpec | p2.py:65-86 | without rows, columns, Status or Issue_Date the result is the frame with nothing in it; otherwise it holds, in input order, exactly the rows that are Issued, have an issue date at least 31 full days before now and, when the table has a Return_Date column, have no return date; when no row is Issued the result is the frame with nothing in it, and otherwise it keeps the columns, even with no rows |
| Dashboard.OverdueBoundary | p2.py:79-83 | an issued, unreturned book is overdue exactly when more than 30 whole days have elapsed, so a book out for 30 days and a fraction is not overdue |
| Dashboard.ValueCountsSpec | p2.py:94 | the tally of categories has exactly the categories that occur in some row, each mapped to its number of rows; missing categories are not counted |
| Dashboard.UnderrepresentedGenresSpec | p2.py:89-95 | a category is reported exactly when the table has rows, columns and a Category column and the category occurs at least once and fewer than threshold times; its value is its number of rows |
| Dashboard.SearchBooksSpec | p2.py:137-149 | an empty query or a table without Title and Authors returns the table unchanged; otherwise the result keeps the columns and holds, in input order, exactly the rows whose chosen field, lower-cased as text, contains the lower-cased query |
| Dashboard.SearchIgnoresCase | p2.py:140-143 | searching for a query and for its lower-cased form give the same result |
| Dashboard.MissingCellMatchesNan | p2.py:143 | a missing cell is searched as the text "nan": it matches a query exactly when the lower-cased query occurs in "nan" |
| Examples.SampleSummary | p2.py:216-225 | the sample table summarises to 3 books, 2 available, 1 issued, 0 returned, 1 damaged, 0 lost, 0 to be replaced |
| Examples.SampleFlagged | p2.py:216-225 | of the sample, only the damaged "1984" needs attention |
| Examples.SampleGenres | p2.py:216-225 | with the default threshold 5 the sample reports Fiction with 2 and Dystopian with 1; with threshold 2 only Dystopian |
| Examples.SampleSearch | p2.py:216-225 | searching the sample's authors for "orwell" in any letter case finds George Orwell's book alone; an empty query keeps every row |
| Examples.SampleOverdue | p2.py:216-225 | from 2024-03-03 on, the issued, unreturned "To Kill a Mockingbird" is the sample's only overdue book |
| Examples.OverdueExamples | p2.py:76-84 | a book issued 45 days ago and not returned is overdue; with a return date, or issued 10 or 30½ days ago, it is not |

## Left out

- Page configuration, injected CSS, widgets, metrics and messages (p2.py:9-29, 110-121, 154-183, 211-226) are presentation only.
- The bar and pie charts (p2.py:186-196) are rendering only.
- Excel export (p2.py:98-107, 199-206) produces opaque bytes in a foreign library.
- CSV reading and lenient date parsing (p2.py:123-129) are library parsing. Dates enter the model already parsed, with an unparseable date as None.
- The clock read `pd.Timestamp.now()` (p2.py:70) is the parameter `now` instead.
- SearchBooks: `str.contains` reads the query as a regular expression by default (p2.py:143). The model matches it as a literal substring, so queries with regex metacharacters are not modelled.
- Lower-casing covers ASCII letters only. Unicode case mapping is not modelled.
- UnderrepresentedGenres: `value_counts` orders its result by descending count (p2.py:94). The model returns a map, so that order is not captured.
- The catch-all exception handler (p2.py:208-209) is not modelled, and neither are the ways a modelled operation can raise into it; those known are listed next.
- SearchBooks: a query that is not a valid regular expression, such as "(" or "[", makes `str.contains` raise (p2.py:143); the model has no error result for it.
- OverdueBooks: timestamps are 64-bit nanosecond counts, and the subtraction `today - Issue_Date` (p2.py:79, p2.py:83) raises on overflow, for an issue date more than about 292 years before now. The model's ticks are unbounded integers, so it reports such a book as overdue instead of modelling that error path.
- OverdueBooks: issue dates that carry a time zone make the parsed column zone-aware (or, with mixed offsets, leave it as plain objects), and the subtraction from the zone-less `now` at p2.py:79 and p2.py:83 then raises. The model's ticks have no zone, so this error path is not modelled.
- Cells of unrecognised columns are carried opaquely in pandas. The model keeps only their names, in `Table.columns`, because no operation reads them.
- Cell values of other types are left out: a Status, Condition, Category, Title or Authors cell is either text or missing.

# DPE dashboard core, in Dafny

This project models the logic of the energy-performance (DPE) dashboard for
the Rhône department:

- the collection of DPE records from the ADEME data-fair API, one postal code
  at a time. This covers `call_API` (full load, records received up to
  2023-09-01) and `rafraichir_donnees` (refresh, records received from
  2024-09-02 on) in `models/contexte.py`;
- the merge of the existing-dwelling and new-dwelling tables on their common
  columns;
- the dashboard's filter logic in `models/contexte.py` and
  `models/donnees.py`:
  - unique values in order of first occurrence;
  - the default selections;
  - the `isin` row filter;
  - the row limit;
  - the value counts behind the charts;
  - the latitude/longitude check of the map page.

Modules:

- `Optional` (optional.dfy): an `Option` type.
- `Tables` (tables.dfy): pandas tables.
  - A table is a set of columns plus a sequence of rows, each row a map from column name to value.
  - Every row has exactly the table's columns. The subset type `Table` carries this invariant.
  - Operations: construction from records, projection, concatenation, `unique`, `isin`, `head` and `value_counts`.
- `AdemeApi` (ademe_api.dfy): the collection pass.
  - The network is a `Server`: a total function from a first-page request to a response.
  - A response is an HTTP status plus, for status 200, a finite chain of pages. Every page but the last carries a `next` link.
  - `Collect` is the loop over postal codes. It calls `FetchPostalCode` for the status dispatch, which calls `FollowLinks` for the `next` walk.
  - Each method is proved against the specification functions `Collected`, `Notices` and `Calls`.
  - The lemmas state ordering, completeness, failure isolation and "one first request per postal code".
- `Contexte` (contexte.dfy): the merge, the two ingestion buttons, and the contexte page's default selection and row limit.
- `Donnees` (donnees.dfy): the donnees page's default column and selection, the chart counts and the map check.

The two collection helpers differ only in their date range and in the text of
their 204 message. They are one routine with a `Mode` parameter.

Messages written with `st.write` are modelled as `Notice` values. A notice
records the postal code and the message category chosen by the status.

## Model

| member | source | states |
|---|---|---|
| AdemeApi.PartitionKeys | models/contexte.py:88 | The postal-code list is strictly ascending (sorted, no duplicates) and holds exactly the values of the `code_postal` column |
| AdemeApi.Sorted | models/contexte.py:99 | Sorting a duplicate-free list yields a strictly ascending list with the same members |
| AdemeApi.Insert | models/contexte.py:152 | Inserting a new value into a strictly ascending list keeps it strictly ascending and adds exactly that value |
| AdemeApi.Requests | models/contexte.py:102-108 | One first-page request per postal code, in order: page 1, size 10000, the code as `q` on field `Code_postal_(BAN)`, and the mode's date range |
| AdemeApi.FilterTexts | models/contexte.py:107 | The full-load range renders as `Date_réception_DPE:[* TO 2023-09-01]` and the refresh range as `Date_réception_DPE:[2024-09-02 TO *]` |
| AdemeApi.CutoffTexts | models/contexte.py:160 | The two bound dates render as `2023-09-01` and `2024-09-02` |
| AdemeApi.RangesDisjointWithGap | models/contexte.py:155-161 | The full-load range covers exactly the days up to 2023-09-01 and the refresh range the days from 2024-09-02. No day is in both, and days strictly between are in neither |
| AdemeApi.GapIsInhabited | models/contexte.py:107 | The gap between the two ranges is non-empty: 2024-01-01 is fetched by neither mode |
| AdemeApi.Classify | models/contexte.py:123-134 | A non-200 status picks one message category, each if and only if: 204 gives no data (with the mode, for its own text), 404 not found, 403 access denied, 500 internal error, 503 unavailable; any other status gives the generic failure carrying that status |
| AdemeApi.FollowLinks | models/contexte.py:117-122 | Following the first `next` unconditionally, then while the fetched page has `next`, yields the results of every later page in order and follows each link once. The loop stops at the first page without `next` |
| AdemeApi.FetchPostalCode | models/contexte.py:111-134 | Per postal code: on 200 with total ≤ 10000 exactly the first page's results and no further call, even if `next` is present; on 200 with total > 10000 every page's results in chain order; on another status nothing appended, exactly one notice and no further call |
| AdemeApi.AnswersWellFormed | models/contexte.py:111-122 | When the server answers every postal code's first request with a well-formed response, every response of the pass is well-formed |
| AdemeApi.Collect | models/contexte.py:96-143 | The whole pass, for both modes, returns the concatenation of the per-code contributions in ascending postal-code order, the notices of the failing codes, and the trace of calls made |
| AdemeApi.ContributionCases | models/contexte.py:112-122 | What one code contributes: nothing on failure; the first page when total ≤ 10000; otherwise the in-order concatenation of all pages of the chain |
| AdemeApi.WalkFlatten | models/contexte.py:120-122 | Walking `next` links from a page gives the concatenation of that page's and all later pages' results |
| AdemeApi.PaginationComplete | models/contexte.py:117-122 | When the pages of the chain together hold `total` records, a large result contributes exactly `total` records |
| AdemeApi.FollowsChain | models/contexte.py:118-121 | Walking a chain of n pages follows n - 1 links, the i-th being page i's `next` |
| AdemeApi.FollowsPrefix | models/contexte.py:120-121 | After k steps of the walk, the links followed are the `next` links of the first k pages |
| AdemeApi.CollectedSplit | models/contexte.py:101-136 | The records of a pass over a concatenation of code lists are the records of the first part followed by those of the second |
| AdemeApi.FailureIsolation | models/contexte.py:101-136 | Replacing any one code's response by a failure removes that code's records and changes no other code's records or their order |
| AdemeApi.OneNoticePerFailure | models/contexte.py:123-134 | Over the duplicate-free list of codes, each failing code gets exactly one notice, each succeeding code none, and codes outside the list none |
| AdemeApi.OneFirstRequestPerCode | models/contexte.py:111 | The first-page requests in the call trace are exactly the list of requests, one per code, in order; followed links add no first-page request |
| AdemeApi.PartitionFirstRequest | models/contexte.py:111-122 | The calls made for one postal code hold exactly one first-page request, whatever the status and however many links are followed |
| AdemeApi.FirstRequestsOfPass | models/contexte.py:101-111 | A pass sends exactly one first request per postal code, in order, with page 1, size 10000, the code and the mode's date range |
| Tables.FromRecords | models/contexte.py:136 | `pd.DataFrame(all_results)`: columns are the union of the record keys, one row per record with its values kept, and `Missing` where a record lacks a column |
| Tables.FromHomogeneousRecords | models/contexte.py:188 | Records sharing one key set become a table with that column set and exactly those rows |
| Contexte.Merge | models/contexte.py:216-217 | The merged columns are the intersection of the two column sets; the row count is the sum of both tables' row counts; existing rows come first; every value on a common column is unchanged |
| Contexte.MergeSameSchema | models/contexte.py:252-253 | When both tables have the same columns, the merge is the plain concatenation of their rows |
| Contexte.Ingest | models/contexte.py:203-254 | Both buttons collect existing then new dwellings, merge them on their common columns, and report the notices of the passes that ran. The full load always writes the merged table. The refresh stops with nothing merged or written when a collected table lacks one of the six preview columns or has fewer than 5 rows (lines 242, 249); a failing existing-dwelling preview also skips the new-dwelling pass. Otherwise the refresh writes the previously stored table it read |
| Contexte.MergedPreviewable | models/contexte.py:252-256 | When both collected tables pass their preview, the merged refresh table passes its preview too (line 256 cannot raise) |
| Tables.Unique | models/contexte.py:34 | The unique values are duplicate-free, each comes from the column, and every column value is among them |
| Tables.UniqueFirstOccurrenceOrder | models/donnees.py:40 | The unique values are in the order of their first occurrence in the column |
| Tables.UniqueHead | models/donnees.py:44 | The first unique value is the value in the first row |
| Tables.UniquePrefixFirstSeen | models/contexte.py:38 | A prefix of the unique values holds the values met first: any value outside it first occurs after all of them, and only when the prefix is not all the unique values |
| Contexte.DefaultSelection | models/contexte.py:38 | The default selection holds min(3, number of distinct values) values, all taken from the column |
| Contexte.DefaultSelectionIsFirstSeen | models/contexte.py:33-39 | The default selection is duplicate-free and in first-occurrence order. A value is left out only when three are already chosen, and it first occurs after all three |
| Tables.KeepRows | models/contexte.py:44-46 | `isin` keeps a subsequence of the rows (order kept) whose value is in the selection, each selected row as often as in the input |
| Tables.SelectRows | models/donnees.py:48-52 | With a filter column and a non-empty selection, the result is exactly the selected rows, in order, with every selected row's multiplicity kept. With an empty selection the data is unchanged |
| Tables.Head | models/contexte.py:62 | `head(n)` returns min(n, count) rows, the first ones |
| Contexte.DefaultLineCount | models/contexte.py:57 | The default row count is at most 100 and at most the row count. It equals the row count exactly when there are at most 100 rows, it is 100 when there are more, and it is a legal slider value when there is a row |
| Contexte.Displayed | models/contexte.py:52-62 | For a slider value n between 1 and the filtered count, the displayed table has n rows, the first n filtered rows, all of them selected |
| Donnees.DefaultFilter | models/donnees.py:32-36 | There is a preselected column exactly when the table has `Etiquette_DPE`, and it is then `Etiquette_DPE`; otherwise there is none (the source raises) |
| Donnees.DefaultSelection | models/donnees.py:44 | The default selection is the first row's value in the chosen column; there is none for an empty table (the source raises) |
| Donnees.DefaultSelectionKeepsFirstRow | models/donnees.py:44-52 | With the default selection, the filtered table starts with the first row, and every kept row shares its value |
| Donnees.KeepRowsFirst | models/donnees.py:50-52 | When the first row is selected, the filter keeps it first |
| Tables.ValueCounts | models/donnees.py:69 | Each listed value occurs in the column, the values are distinct, each count is the value's number of occurrences (positive), and every occurring value is listed |
| Tables.ValueCountsTotal | models/donnees.py:70 | The counts sum to the column's length |
| Tables.DropMissing | models/donnees.py:69 | Dropping the missing cells keeps every other value as often as it occurs and leaves exactly the cells that are not missing |
| Tables.PresentValueCounts | models/donnees.py:69 | `value_counts()` with its default `dropna`: the listed values are distinct and never missing, each count is the value's (positive) number of occurrences, and every value that is not missing is listed |
| Tables.PresentValueCountsTotal | models/donnees.py:70 | These counts sum to the number of cells that are not missing |
| Donnees.ChartData | models/donnees.py:69-70 | The chart pairs list each value of the filtered column once, never a missing one, each with its number of filtered rows; every filtered row whose value is not missing has its value listed |
| Donnees.ChartDataTotal | models/donnees.py:78-79 | The chart counts sum to the number of filtered rows whose value is not missing |
| Donnees.GeoPoints | models/donnees.py:112-116 | The map is shown exactly when both `lat` and `lon` are columns. It then holds exactly those two columns, one point per row with that row's coordinates |

## Left out

- HTTP and JSON decoding.
  - `requests.get` and `.json()` are replaced by the `Server` function and by decoded `Content` pages.
  - The URLs are kept only as `BaseUrl`.
  - Continuation pages are fetched without a status check in the source, and the model treats them as always successful.
- AdemeApi.WellFormed: the source reads `content['next']` without checking when total > 10000 and would raise `KeyError`. The model makes a `next` link on such a first page a precondition of the collection.
- Message texts: `st.write`, `st.dataframe`, `st.success` and the spinner are not modelled. Only the message category and its postal code are kept, as a `Notice`.
- CSV reads and writes are not modelled: the address file, the written merged file, its semicolon separator and UTF-8 BOM. The postal codes arrive as a parameter. The file the refresh button reads arrives as the `stored` table.
- The previews of the collected tables are not displayed in the model: `head()` and the random `.sample(5)` at models/contexte.py:242, 249 and 256. Only whether a refresh preview raises is modelled (Contexte.Previewable), since that decides whether the refresh reaches its write.
- The charts and their PNG export (`utils` is not part of this model). The histogram call at models/donnees.py:95-97 passes counts and labels in the opposite order to the other charts; only the data the charts receive is modelled.
- The counter `nb_ligne` is computed but never used, so it is not modelled.
- The column order of `list(set(...))` at models/contexte.py:216 is unspecified, so columns are a set. The order of `value_counts` (by decreasing count) is not modelled: ChartData states the pairs, not their order.
- The download button and the CSV encoding of the filtered table (models/contexte.py:66-72) are not modelled.
- The slider raises when the filtered table is empty. Contexte.Displayed requires a slider value between 1 and the filtered count, as the slider does.
- Postal codes are integers, as pandas reads them from the address file.
- Quirks kept, not fixed:
  - The refresh path writes `df_merged`, the table read at models/contexte.py:234, and not the merged refresh table (models/contexte.py:254). Contexte.Ingest models that: `written` is `Some(stored)` when the refresh reaches its write.
  - The comment at models/contexte.py:95 says the full load stops at 1 September 2024. The code uses 2023-09-01, and the model follows the code.
  - The messages at models/contexte.py:225-226 and 260-261 announce CSV files that no code writes. Line 227 names `sample_lon_lat.csv`, which line 218 does write. None of these messages is modelled.

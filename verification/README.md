# Business-owner dashboard: verified model of the table layer

The dashboard loads a five-column table of business-owner records
(Business Name, Owner Name, City, State, Mobile Number). At startup it checks
that the header has every expected column. It then cleans the table once:
every cell of the five expected columns is stripped, and the texts `""`,
`"nan"` and `"None"` become the missing marker anywhere in the frame. After that it answers four read-only queries over the cleaned
table:

- a summary of seven counts;
- the largest State groups;
- the largest (State, City) groups;
- a searchable, paged view of the rows.

This project models that layer in Dafny and proves properties of each step: the column check, the cleaning, the seven counts, the rankings (for every order of tied groups) and the search and paging.

| module | file | what it holds |
|---|---|---|
| `Wrappers` | `wrappers.dfy` | `Option` (the missing marker is `None`) and `Outcome` (pass or fail with an error) |
| `Text` | `text.dfy` | `str.strip()`, `str.lower()` and literal `in` on ASCII text |
| `Seqs` | `seqs.dfy` | counting, filtering, subsequences and multiplicities: the vocabulary for boolean masks, `sum()` and `duplicated()` |
| `Schema` | `schema.dfy` | the expected columns, the column check, the record types, and `clean_df` as a loop over the columns |
| `Summary` | `summary.dfy` | `api_summary`'s counts |
| `Ranking` | `ranking.dfy` | group, sort by count, `head(limit)` and the "Unknown" relabelling of `api_top_states` and `api_top_cities` |
| `Search` | `search.dfy` | `api_table`: term normalisation, the row mask, the page slice and the rendering of missing cells |
| `Scenarios` | `scenarios.dfy` | a three-row example table, with the summary, the ranking and the search proved about it |

A row of the canonical table is a `Record` of five `Option<string>`; the
table is a `seq<Record>`. A raw cell is the text that `astype(str)` gives
for it. The model follows pandas before 3.0, where `astype(str)` on an
object column calls `str()` on every cell: a missing cell turned back into
text reads `"<NA>"` (`MISSING_TEXT`), which is what `str(pd.NA)` prints.
The source does not pin a pandas version; "## Left out" says how 3.x differs.

## Model

| member | source | states |
|---|---|---|
| `Schema.MissingColumns` | app.py:27 | a column is reported exactly when it is expected and absent from the header, in the order of the expected columns |
| `Schema.CheckColumns` | app.py:26-29 | the check fails exactly when some expected column is absent, and the error lists exactly the absent columns in order |
| `Text.SkipSpace` | app.py:35 | the first non-space position at or after `i`, or the end of the text |
| `Text.SkipSpaceSkipsSpace` | app.py:35 | `SkipSpace` passes over whitespace only, so the dropped prefix is whitespace |
| `Text.SkipSpaceBack` | app.py:35 | the end of the text once trailing whitespace is dropped, never before the lower bound |
| `Text.SkipSpaceBackSkipsSpace` | app.py:35 | `SkipSpaceBack` passes over whitespace only, so the dropped suffix is whitespace |
| `Text.Strip` | app.py:35 | the result has no surrounding whitespace and is no longer than the input |
| `Text.StripRemovesSurroundingSpace` | app.py:35 | the input is the result with a run of whitespace on either side |
| `Text.StripKeepsStripped` | app.py:35 | stripping text with no surrounding whitespace returns it unchanged |
| `Text.StripIdempotent` | app.py:35 | stripping twice is stripping once |
| `Text.Lower` | app.py:110 | lower-casing keeps the length and maps every character on its own |
| `Text.LowerIsLower` | app.py:110 | the result has no upper-case letter, and lower-casing again changes nothing |
| `Text.LowerKeepsLower` | app.py:110 | text with no upper-case letter is its own lower-case form |
| `Text.LowerKeepsStripped` | app.py:110 | lower-casing a stripped text leaves it stripped |
| `Text.Contains` | app.py:115-119 | Python's literal `term in text` on one cell: the term is a prefix of the text or occurs in its tail (the positional meaning is stated by `Text.ContainsIff`) |
| `Text.ContainsIff` | app.py:115-119 | the literal substring test holds exactly when the term occurs at some position |
| `Schema.Replace` | app.py:36 | the whole-frame `replace` on one text: `""`, `"nan"` and `"None"` become missing, any other text is kept (its properties are stated by `Schema.CleanCellCases`) |
| `Schema.CleanCell` | app.py:35-36 | a cleaned cell is missing, or a non-empty stripped text that is not `"nan"` or `"None"` |
| `Schema.CleanCellCases` | app.py:35-36 | a cell becomes missing exactly when its stripped text is a null token; otherwise it keeps the raw text minus its surrounding whitespace |
| `Schema.CleanRow` | app.py:34-36 | every field of a cleaned row is a clean cell |
| `Schema.RawColumn` | app.py:35 | column `c` of the frame holds, row by row, that column's raw text |
| `Schema.StripAll` | app.py:35 | `.str.strip()` strips every cell of a column, keeping its length |
| `Schema.ReplaceStrippedColumns` | app.py:35-36 | replacing the null tokens of the five stripped columns, row by row, cleans each row |
| `Schema.StripColumns` | app.py:33-35 | after the loop over the expected columns, each of the five columns is its raw text stripped cell by cell |
| `Schema.ReplaceNullTokens` | app.py:36 | the whole-frame `replace` turns each row's five stripped texts into a record, null tokens becoming missing |
| `Schema.CleanDf` | app.py:31-37 | stripping the columns and then replacing the null tokens keeps row count and order, cleans each row on its own, and yields a clean table |
| `Schema.CleanPresentIdempotent` | app.py:35-36 | cleaning a present cleaned value again returns it unchanged |
| `Schema.CleanTwice` | app.py:35-36 | re-cleaning a cleaned cell keeps present values, but turns a missing cell into the text `"<NA>"` |
| `Seqs.Count` | app.py:56-60 | a boolean mask's `.sum()`: the number of rows the mask marks, never more than the rows; it is the size of the set of marked row indices (`Seqs.CountIsPositions`) |
| `Seqs.CountIsPositions` | app.py:56-60 | the mask's `.sum()` equals the number of row indices the mask marks |
| `Seqs.Filter` | app.py:121 | indexing by a mask keeps exactly the rows it marks, in order, as many as the mask counts |
| `Seqs.FilterUnique` | app.py:121 | any order-preserving selection of marked rows with as many rows as the mask counts is the masked frame |
| `Seqs.CountComplement` | app.py:56-57 | the rows that pass a mask and the rows that pass its negation add up to all rows |
| `Seqs.TwinIff` | app.py:60 | a row's key occurs at least twice exactly when another row has the same key |
| `Summary.PresentValues` | app.py:52-54 | the distinct values of a column are exactly its present values, and there are no more of them than rows |
| `Summary.NUnique` | app.py:52-54 | `nunique(dropna=True)`: the number of distinct present values of a column (`Summary.DistinctStates` and `Summary.UniqueWithMissing` state what it counts) |
| `Summary.DupKeyOf` | app.py:60 | the key `duplicated` compares, `subset=['Business Name', 'City', 'State']`: Owner Name and Mobile Number play no part, and a missing field compares equal to another missing field (used by `Summary.HasTwin` and `Summary.FlaggedIffTwin`) |
| `Summary.Duplicated` | app.py:60 | the `keep=False` mask: a key is flagged when it occurs at least twice (`Summary.FlaggedIffTwin` ties it to the rows) |
| `Summary.PotentialDuplicates` | app.py:60 | `duplicated(subset=[Business Name, City, State], keep=False).sum()` (stated by `Summary.DuplicatesAreRowsWithTwin` and `Summary.DuplicatesNeverOne`) |
| `Summary.Summarize` | app.py:50-60 | the total is the row count; phones present plus phones missing is the total; each distinct count is at most the total; potential duplicates are at most the total and never exactly 1 |
| `Summary.SummaryCountsRows` | app.py:51-60 | each count in terms of the rows: the distinct present States, Cities and Owners; the rows with and without a phone; the rows that have a twin |
| `Summary.DistinctStates` | app.py:52 | `nunique` on State counts the distinct present States of the rows |
| `Summary.DistinctCities` | app.py:53 | `nunique` on City counts the distinct present Cities of the rows |
| `Summary.DistinctOwners` | app.py:54 | `nunique` on Owner Name counts the distinct present owners of the rows |
| `Summary.PhoneRows` | app.py:56-57 | phones present and phones missing count the rows with and without a Mobile Number |
| `Summary.UniqueWithMissing` | app.py:52-54 | the distinct present values, plus one if some value is missing, is the number of distinct values with missing included |
| `Summary.FlaggedIffTwin` | app.py:60 | the `keep=False` mask flags a row exactly when another row has the same (Business Name, City, State) |
| `Summary.FlaggedRowsHaveTwins` | app.py:60 | the rows the `keep=False` mask flags are exactly the rows that have a twin |
| `Summary.DuplicatesAreRowsWithTwin` | app.py:60 | the duplicate count is the number of rows that have a twin, missing values comparing equal |
| `Summary.DuplicatesNeverOne` | app.py:60 | the duplicate count is never exactly 1 |
| `Ranking.DistinctKeys` | app.py:76 | the distinct keys, each once, exactly the keys of the rows |
| `Ranking.GroupSizes` | app.py:76-78 | one group per distinct key, missing included; each count is that key's number of rows, and every key has its group |
| `Ranking.GroupsOfDistinctKeys` | app.py:76-78 | one group per distinct key has unique keys and true counts, every key has its group, and there are as many groups as distinct keys |
| `Ranking.Insert` | app.py:79 | inserting into a count-descending list keeps it count-descending and adds exactly the one group |
| `Ranking.SortByCount` | app.py:79 | the sorted groups are a permutation of the groups with counts never increasing |
| `Ranking.HeadOfSortedIsTop` | app.py:79-80 | `head(limit)` of any count-descending permutation of the groups is a top ranking |
| `Ranking.SortedTrueCounts` | app.py:79 | sorting keeps each group's key and true count |
| `Ranking.SortedUniqueKeys` | app.py:79 | sorting keeps the keys unique |
| `Ranking.PrefixKeepsOrder` | app.py:80 | `head` keeps the keys unique and the counts non-increasing |
| `Ranking.SortedCoversKeys` | app.py:79 | sorting loses no group: every key still has its group |
| `Ranking.NothingLargerLeftOut` | app.py:79-80 | no group cut by `head` is larger than one kept |
| `Ranking.Ranked` | app.py:76-80 | group by the key, sort by count descending, `head(limit)` (stated by `Ranking.RankedIsTopRanking`) |
| `Ranking.RankedIsTopRanking` | app.py:75-81 | the ranking has `min(limit, #distinct keys)` groups with distinct keys and true counts; the counts never increase and sum to at most the row count; no larger group is cut; and when fewer than `limit` groups are kept, none is cut |
| `Ranking.SumBound` | app.py:76-80 | groups with unique keys and true counts hold at most all the rows |
| `Ranking.GroupsPartitionRows` | app.py:76-77 | with `dropna=False` the group sizes add up to the number of rows |
| `Ranking.Label` | app.py:82 | `fillna('Unknown')` on one key: a missing key reads "Unknown", a present one is kept |
| `Ranking.CityLabel` | app.py:95-96 | `fillna('Unknown')` on both parts of a (State, City) key |
| `Ranking.CityKeys` | app.py:89 | the (State, City) key of every row, in row order |
| `Ranking.Relabel` | app.py:82 | every group's key replaced by its label, counts and order kept (stated by `Ranking.RelabelKeepsCounts` and `Ranking.RelabelLabels`) |
| `Ranking.RelabelKeepsCounts` | app.py:82 | relabelling keeps the length, the order of the counts and their sum |
| `Ranking.RelabelLabels` | app.py:82 | after relabelling, each group carries the label of one of the rows' keys and that key's row count |
| `Ranking.RelabelKeepsLargest` | app.py:80-82 | after relabelling, every group larger than the smallest kept appears under its label, and so does every group when fewer than `limit` are kept |
| `Ranking.RelabelledRanking` | app.py:75-82 | the relabelled ranking has the size, order, count bound and labels of the ranking, keeps every larger group, and is the relabelling of some top ranking, so no two groups come from the same key |
| `Ranking.TopStates` | app.py:74-83 | `api_top_states`: `min(limit, #distinct States)` groups, counts never increasing and summing to at most the row count; each is a State's label with its row count; no larger State group is left out; and the result is the relabelling of some top ranking of the States, whatever the tie order |
| `Ranking.TopCities` | app.py:87-97 | `api_top_cities`: the same for (State, City) pairs, each missing part labelled "Unknown", the result being the relabelling of some top ranking of the pairs |
| `Ranking.UnknownAppearsTwice` | app.py:76-82 | because relabelling comes after ranking, a missing State and a literal "Unknown" State come out as two "Unknown" groups |
| `Search.NormalizeTerm` | app.py:110 | the term is `Lower(Strip(raw))`, i.e. `.strip().lower()`: it has no surrounding whitespace and no upper-case letter, and is no longer than the raw term; `Text.StripRemovesSurroundingSpace` and `Lower`'s pointwise ensures pin down which text that is |
| `Search.NormalizeTermIdempotent` | app.py:110 | normalising a normalised term changes nothing |
| `Search.SearchText` | app.py:115-119 | a cell as the search sees it, `astype(str).str.lower()`: a missing cell reads "<na>" (`Search.MissingSearchText`) |
| `Search.RowMatches` | app.py:114-120 | the row mask: some of the five columns' search text contains the term literally |
| `Search.Filtered` | app.py:112-121 | the filtered rows are an order-preserving subsequence of the table, no more than all rows, all matching when the term is non-empty |
| `Search.FilteredIsMatchingRows` | app.py:113-121 | with a non-empty term the filtered rows are one per matching row index, every matching row present, and no other order-preserving selection of that many matching rows exists |
| `Search.FilteredCount` | app.py:112-124 | `recordsFiltered` is the row count for the empty term and the number of matching rows otherwise |
| `Search.EmptyTermKeepsAll` | app.py:112-113 | the empty term keeps the whole table, and the mask would keep it too |
| `Search.MissingSearchText` | app.py:115-119 | a missing cell is searched as the text "<na>" |
| `Search.MissingCellMatches` | app.py:115-119 | a row with a missing cell matches every term that occurs in "<na>" |
| `Search.NaMatchesMissing` | app.py:115-119 | the term "na" matches every row without a Mobile Number |
| `Search.RenderCell` | app.py:126 | `fillna("")` on one cell: a missing cell is shown as the empty string |
| `Search.Render` | app.py:126-127 | one row of `data`: the five cells, each rendered (`Search.RenderRoundTrip` shows nothing is lost) |
| `Search.RenderRoundTrip` | app.py:126-127 | on a clean record, reading the empty strings of the rendered row back as missing gives the record back |
| `Search.Page` | app.py:126 | the page has `max(0, min(length, n - start))` rows for `n` filtered rows, row `k` being the rendering of filtered row `start + k` |
| `Search.PageShowsSelectedRows` | app.py:112-126 | every shown row renders a table row that the term selects |
| `Search.ApiTable` | app.py:108-133 | `recordsTotal` is the row count; `recordsFiltered` is the row count for the empty term and the number of matching rows otherwise; `data` has `max(0, min(length, recordsFiltered - start))` rows, row `k` being the rendering of selected row `start + k`, each a rendering of a table row the term selects |
| `Scenarios.SampleSummary` | app.py:50-60 | on the example table, 3 records, 1 phone missing and 2 potential duplicates |
| `Scenarios.SummaryOfPairAndSingle` | app.py:50-60 | any three rows of that shape (two twins, one single without a phone) give those counts |
| `Scenarios.SampleTopState` | app.py:75-82 | on the example table with limit 1, the ranking is TX with 2 rows |
| `Scenarios.TopOfPairAndSingle` | app.py:75-82 | with limit 1, a State held by two of three rows is the whole ranking |
| `Scenarios.SampleSearch` | app.py:108-127 | searching "beta" on the example table filters one row, shown with an empty phone number |
| `Scenarios.SearchOneMatch` | app.py:112-127 | when only the last of three rows matches, one row is filtered and shown |
| `Scenarios.SamplePageBeyondEnd` | app.py:123-126 | a page that starts past the end is empty while both totals are still reported |

## Left out

- Flask routing, `render_template`, `jsonify`, the CSV download and `app.run` are HTTP glue. The response is a Dafny datatype, not JSON.
- Argument parsing is not modelled. `int(request.args.get(...))` and the `ValueError` it can raise are left to the caller. `start`, `length` and `limit` are taken as `nat`, and the defaults (0, 25, 10, 20) are the caller's.
- Negative `start`, `length` or `limit` are not modelled. They would trigger Python's and pandas' negative-index slicing; the `nat` parameters exclude them.
- The file check and `pd.read_csv` (app.py:17-23) are file I/O. A raw cell is modelled as the text `astype(str)` gives it. read_csv's type inference is not modelled: for example, a phone number read as a float prints as "5551234.0".
- Columns other than the five expected ones are not modelled. `clean_df` copies them without stripping, and the whole-frame `replace` touches them. The summary and the rankings never read them. The search mask never reads them either.
- `Search.PageRow` carries only the five expected columns. In the source, `api_table` returns every column of the frame in `data` (app.py:126-127), extra columns included.
- `Search.RowMatches`: `str.contains` uses regular-expression matching by default. The model matches literally, so terms containing regex metacharacters behave differently, and some of them make pandas raise.
- `Text.Strip`, `Text.Lower`: only ASCII whitespace (codes 9-13 and 28-32) and ASCII letters are handled. Unicode `str.strip()` and `str.lower()` do more.
- `Ranking.TopStates`, `Ranking.TopCities`: the order of groups with equal counts is deliberately left open, because `sort_values` uses an unstable sort. The model's own insertion sort is just one of the admitted orders, and pandas' sorting of the `groupby` keys only affects that tie order.
- `Search.SearchText`, `Schema.CleanTwice`: both assume pandas before 3.0, where `astype(str)` turns a missing cell into the text "<NA>" (`MISSING_TEXT`). Under pandas 3.x's default string dtype, `astype(str)` leaves a missing cell missing. There, `str.contains(..., na=False)` at app.py:115-119 is False for a missing cell, so "na" does not match it, and cleaning twice leaves a missing cell missing. The model does not cover that behaviour.
- app.js, the browser page (charts, table wiring, the percentage it displays), is not part of this model.

## Behaviour worth knowing

- **Search and missing cells (pandas before 3.0).** `na=False` is passed to `str.contains`, but each column goes through `astype(str)` first, which on these versions turns a missing cell into the text "<NA>", so it is searched as "<na>". Terms such as "na", "a" or "<" therefore match every row with a missing cell (`Search.MissingCellMatches`, `Search.NaMatchesMissing`).
- **Cleaning is not idempotent on missing cells (pandas before 3.0).** Cleaning the cleaned table again turns a missing cell into the text "<NA>", because `astype(str)` prints it that way on these versions and "<NA>" is not a null token. Only present values survive a second pass unchanged (`Schema.CleanTwice`).
- **"Unknown" can appear twice.** The missing-key label is applied after ranking, so rows with no State and rows whose State is literally "Unknown" form two groups, both shown as "Unknown" (`Ranking.UnknownAppearsTwice`).

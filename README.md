# NBA season scrapers, modelled in Dafny

This project models two Python scripts. Both build player-season tables from basketball-reference.com.

- `nba_mvp_scraper.py` works season by season. It looks up the MVP award page, the per-game table and the advanced table, in that order, and gives up at the first failure. The two tables are normalised: data rows are kept, abbreviated labels are renamed, and the wanted columns are selected. They are then left-joined on `Player`, flagged with a 0/1 `MVP` column and stamped with `Season`. `scrape_all_seasons` runs this for 1981 to 2024 and concatenates the successful seasons. It fills missing cells with 0 and converts the numeric columns with `pd.to_numeric(errors='coerce')`. `main` moves `Season` to the first column.
- `nba_2025_scraper.py` does the same for the single season 2025, without the award lookup or the `MVP` column. Its `main` reorders the columns first, then fills, then converts.

## Data model

- A data frame is a `Table`: an ordered list of column labels and a sequence of rows.
- A row is a `map<string, Value>`. A label absent from a row is a missing cell (pandas NaN). A `Value` is text or a number (`real`).
- The `Frame` class models the places where the scripts assign a column in place: the `MVP` flags, the `Season` stamp, and each numeric column after conversion.
- The web site is a `Site` value. For each year it holds the award table's player cells, the per-game table and the advanced table, as `pd.read_html` would return them. A year missing from one of these maps stands for a failed request or a page without the table.
- Each scraping method also returns the list of pages it fetched, as `Request` values. This makes fetch order and short-circuiting part of the contracts.
- The float parser inside `pd.to_numeric` is a parameter, `parse: string -> Option<real>`.

Modules:
- `Seqs`, `Text` and `Tables` hold list, string and frame primitives.
- `Frames` holds the mutable frame.
- `Normalize` holds cleaning, renaming and column selection.
- `Merge` holds the left join.
- `Pages` holds the per-page lookups and the fetch log.
- `MvpScraper` and `Scraper2025` each model one of the two scripts.

## Model

| member | source | states |
|---|---|---|
| Seqs.Filter | nba_mvp_scraper.py:116 | The result is no longer than the input. It holds exactly the elements that are in the input and pass the test. |
| Seqs.DedupOnto | nba_mvp_scraper.py:241 | The result is distinct and starts with the accumulator. Its elements are those of the accumulator and of the input. |
| Seqs.DedupOntoFirstAppearance | nba_mvp_scraper.py:241 | The elements added after the accumulator come from the input, are new, and appear in order of their first occurrence in the input. |
| Seqs.IndexOf | nba_mvp_scraper.py:265 | The index points at `x`, and `x` does not occur before it. |
| Seqs.RemoveFirst | nba_mvp_scraper.py:265 | Removing one occurrence takes exactly one `x` out of the multiset. |
| Seqs.RemoveFirstDistinct | nba_mvp_scraper.py:265 | In a list without repeats, `list.remove(x)` keeps every other element in order. |
| Text.Contains | nba_mvp_scraper.py:86 | The substring test holds if and only if the pattern occurs at some position. |
| Text.Strip | nba_mvp_scraper.py:57 | `str.strip()` returns a slice of the input. Only whitespace is cut, from both ends. The result starts and ends with non-whitespace, or is empty. |
| Text.StripIdempotent | nba_mvp_scraper.py:57 | Stripping twice gives the same as stripping once. |
| Tables.Repeat | nba_mvp_scraper.py:216 | A broadcast scalar gives one copy per row. |
| Tables.WithColumn | nba_mvp_scraper.py:213-216 | `df[name] = values` overwrites an existing column in place or appends a new last column. Row `i` gets `values[i]`. Every other cell is unchanged. A well-formed frame stays well formed. |
| Tables.FillMissing | nba_mvp_scraper.py:244 | `fillna(0)` keeps the columns and the row count. Afterwards no cell is missing. Present cells are kept. Every filled cell is 0 and lies in a column of the table. |
| Tables.FillCompleteUnchanged | nba_mvp_scraper.py:244 | Filling a complete, well-formed frame changes nothing. |
| Tables.AllColumns | nba_mvp_scraper.py:241 | A label is listed exactly when some concatenated table has it. |
| Tables.RowsOrigin | nba_mvp_scraper.py:241 | Every concatenated row is a row of one of the tables. |
| Tables.Concat | nba_mvp_scraper.py:241 | `pd.concat` stacks the rows table after table. The columns are the de-duplicated labels of the tables, each once: exactly the labels of the input tables. Well-formed inputs give a well-formed result. |
| Tables.ConcatColumnsInFirstAppearanceOrder | nba_mvp_scraper.py:241 | The concatenated columns appear in order of each label's first appearance, table after table, as in pandas' unsorted union. |
| Tables.MoveToFront | nba_mvp_scraper.py:264-267 | The result has the same length and starts with the label. It is a permutation of the labels. For distinct labels it is the label followed by the others in their order. |
| Tables.ToNumeric | nba_mvp_scraper.py:254 | Conversion of one cell: a number stays as it is, and parseable text becomes its number. The result is missing exactly when the cell is text the parser rejects. |
| Tables.CoerceRow | nba_mvp_scraper.py:254 | Converting adds no cell. Columns that are not converted are unchanged. Converted cells are numbers, and numbers are kept. |
| Tables.Coerce | nba_mvp_scraper.py:252-254 | The columns and row count are kept. Cells outside the listed columns are unchanged. In a listed column the frame has, each cell is `ToNumeric` of the old cell: a number stays, parseable text becomes its number, and other text becomes missing. |
| Tables.CoerceRowStep | nba_mvp_scraper.py:254 | Converting one more column after a set of columns equals converting the union. |
| Tables.CoerceStep | nba_mvp_scraper.py:252-254 | One more pass of the conversion loop extends the converted list by that name. |
| Tables.CoerceIdempotent | nba_mvp_scraper.py:252-254 | Converting already converted columns changes nothing. |
| Frames.Frame.constructor | nba_mvp_scraper.py:210 | A new frame holds the given table. |
| Frames.Frame.SetColumn | nba_mvp_scraper.py:213 | The new state is `WithColumn` of the old state. |
| Frames.Frame.Broadcast | nba_mvp_scraper.py:216 | The new state is the old one with the scalar repeated in the named column. |
| Frames.Frame.ToNumericColumn | nba_mvp_scraper.py:254 | The new state is the old one with that one column converted. |
| Frames.CoerceNumeric | nba_mvp_scraper.py:252-254 | After the loop the frame is `Coerce` of the frame before it. The loop invariant is that the prefix of names seen so far is converted. |
| Normalize.Clean | nba_mvp_scraper.py:85-86 | Cleaning fails exactly when there is no `Player` column, when there are rows but none has a `Player` cell (the column is then numeric and the string accessor raises), or when a present `Player` cell is not text. Otherwise the columns are kept and the rows are exactly the data rows. |
| Normalize.TwoMasks | nba_mvp_scraper.py:85-86 | The not-null mask followed by the header mask equals one filter for data rows. |
| Normalize.CleanKeepsDataRowsInOrder | nba_mvp_scraper.py:85-86 | The cleaned rows are the data rows in source order. |
| Normalize.CleanIdempotent | nba_mvp_scraper.py:85-86 | Cleaning a cleaned table changes nothing. |
| Normalize.Rename | nba_mvp_scraper.py:108 | One rename keeps the number of columns and rows. `RenameStep` states what it does to labels and cells. |
| Normalize.Renamed | nba_mvp_scraper.py:106-108 | The rename loop keeps the number of columns and rows. |
| Normalize.RenameColumns | nba_mvp_scraper.py:106-108 | The loop that rebinds `df` once per existing source label computes `Renamed`. |
| Normalize.RelabelOther | nba_mvp_scraper.py:106-108 | A label that is no entry's source keeps its name. |
| Normalize.RenameStep | nba_mvp_scraper.py:106-108 | One pass renames when the source label exists and does nothing otherwise. It keeps the frame well formed, keeps each column's cells under the column's new label, and keeps the relabelling consistent with the rest of the map. |
| Normalize.RenamedRelabels | nba_mvp_scraper.py:89-108 | When renames do not chain or merge columns, column `i` ends up labelled `Relabel(mapping, column i)` and keeps its cells. The frame stays well formed. |
| Normalize.RenamedKeeps | nba_mvp_scraper.py:106-108 | A label that the map neither renames nor produces keeps its column and every cell. |
| Normalize.Available | nba_mvp_scraper.py:116 | A desired label is kept exactly when the frame has it. The result is distinct when the desired list is. |
| Normalize.Select | nba_mvp_scraper.py:116-121 | Selection fails exactly when no desired label is present. Otherwise the columns are the available labels, the row count is kept, the selected cells are unchanged, and the result is well formed. |
| Normalize.NormalizeTable | nba_mvp_scraper.py:85-121 | Cleaning, the rename loop and selection, run in order, compute `Normalized`. |
| Normalize.NormalizedShape | nba_mvp_scraper.py:85-121 | When the map leaves `Player` alone, normalising fails exactly when cleaning fails, so the "no matching columns" branch is dead. On success the result is well formed, has `Player` and only desired labels, and its rows are the data rows in order with their `Player` cells. |
| Normalize.ConstantsWellChosen | nba_mvp_scraper.py:89-113 | Both maps leave `Player` alone and never chain renames. Both desired lists are distinct and contain `Player`. |
| Normalize.DesiredListsShareOnlyPlayer | nba_mvp_scraper.py:111-171 | The per-game and advanced desired lists share only `Player`. |
| Normalize.AddedLabelsAreFresh | nba_mvp_scraper.py:247-250 | `MVP`, and `Season` in the advanced table, are never selected. None of `MVP`, `Season` or `Player` is converted to numbers. |
| Merge.Merged | nba_mvp_scraper.py:210 | A joined row keeps every basic cell. It adds the advanced cells other than `Player`, and nothing else. |
| Merge.JoinRow | nba_mvp_scraper.py:210 | Without an advanced match, a basic row yields itself alone. Otherwise output `j` is the row merged with the `j`-th match in advanced order. Every advanced row with the same key is merged into some output row, and every output row is such a merge. Every output row keeps the basic cells. |
| Merge.JoinRows | nba_mvp_scraper.py:210 | The join has at least one row per basic row. |
| Merge.LeftJoin | nba_mvp_scraper.py:210 | The columns are the basic ones, then the advanced ones other than `Player`, with no suffixes. The rows are the per-row outputs of `JoinRow`, in basic order, so there is at least one row per basic row. Well-formed inputs give a well-formed result. |
| Merge.JoinRowsBlock | nba_mvp_scraper.py:210 | The output block of basic row `p` sits between the blocks of the rows before it and those of the rows after it. |
| Merge.JoinRowsOrigin | nba_mvp_scraper.py:210 | Every output row is a basic row, or a basic row merged with an advanced row that has the same key. |
| Merge.JoinRowsAppend | nba_mvp_scraper.py:210 | Joining `a + b` gives the output for `a`, then the output for `b`, so the basic order is kept. |
| Merge.JoinRowsLength | nba_mvp_scraper.py:210 | The join keeps the row count if and only if no basic row has two or more matches. |
| Merge.UniqueMatch | nba_mvp_scraper.py:210 | With unique advanced keys, a key has at most one match: the advanced row that carries it. |
| Merge.LeftJoinUniqueKeys | nba_mvp_scraper.py:210 | With unique advanced keys the join is row for row. Output row `i` is basic row `i` merged with its match, or basic row `i` alone. |
| Pages.GetBasicStats | nba_mvp_scraper.py:64-126 | The method computes `BasicStats`. |
| Pages.GetAdvancedStats | nba_mvp_scraper.py:128-184 | The method computes `AdvancedStats`. |
| Pages.MvpWinner | nba_mvp_scraper.py:37-62 | A winner exists exactly when the award page has a first body row with a player cell. The winner's name neither starts nor ends with whitespace. |
| Pages.MvpWinnerIsTrimmedFirstRow | nba_mvp_scraper.py:57 | The winner's name is the first row's player cell with only whitespace removed, and only from its two ends. |
| Pages.FetchLog | nba_mvp_scraper.py:186-206 | No more pages are fetched than are looked up. |
| Pages.FetchLogStopsAtFailure | nba_mvp_scraper.py:186-206 | The fetched pages are a prefix of the lookups, and there is at least one when there are lookups. Every fetched page but the last succeeded. A short log ends at a failure. The log is complete and ends with a success if and only if every lookup succeeds. |
| Pages.BasicStatsShape | nba_mvp_scraper.py:64-126 | The per-game lookup fails exactly when the page is missing or cleaning fails. On success the table is well formed, has `Player` and only desired labels, and has one row per data row of the page, in order. |
| Pages.AdvancedStatsShape | nba_mvp_scraper.py:128-184 | The same for the advanced lookup. |
| Pages.StatsJoinable | nba_mvp_scraper.py:210 | A season's two normalised tables can be joined without suffixes. They are well formed, hold only data rows and lack `MVP`. Only the per-game one may have `Season`. |
| MvpScraper.MvpFlags | nba_mvp_scraper.py:213 | There is one flag per row. |
| MvpScraper.Combined | nba_mvp_scraper.py:208-219 | The season table has at least one row per per-game row and has the `MVP` and `Season` columns. |
| MvpScraper.CombinedContents | nba_mvp_scraper.py:208-219 | The season table is well formed. Its columns are the per-game ones, the advanced ones other than `Player`, `MVP`, then `Season` unless already present. Every row is a data row with `Season` equal to the year. `MVP` is 1 if and only if the row's `Player` equals the winner, and 0 otherwise. |
| MvpScraper.CombinedRows | nba_mvp_scraper.py:210-216 | There is at least one row per per-game row. With unique advanced players there is exactly one, and it keeps that row's cells, except `Season`. |
| MvpScraper.ScrapedSeason | nba_mvp_scraper.py:186-222 | A season is scraped if and only if all three lookups succeed: the merge itself never fails. |
| MvpScraper.SeasonLogCases | nba_mvp_scraper.py:186-206 | The fetch log of the three lookups, case by case. |
| MvpScraper.ScrapeSeason | nba_mvp_scraper.py:186-222 | The method returns `ScrapedSeason` and fetches the pages up to the first failure. |
| MvpScraper.SeasonContents | nba_mvp_scraper.py:186-222 | `CombinedContents` for the site's tables: the columns formula, data rows only, `Season` equal to the year, and `MVP` 1 exactly for the winner's rows. |
| MvpScraper.SeasonRowCount | nba_mvp_scraper.py:186-222 | There are at least as many rows as data rows on the per-game page. With unique advanced players the counts are equal, in order, and the per-game cells are kept. |
| MvpScraper.Successes | nba_mvp_scraper.py:228-231 | At most one table is collected per year of the range. |
| MvpScraper.Aggregate | nba_mvp_scraper.py:236-254 | When some season succeeded, the aggregate has one row per collected row. |
| MvpScraper.AllSeasons | nba_mvp_scraper.py:224-256 | `scrape_all_seasons` returns `None` if and only if every season from the start to the end year, inclusive, fails. |
| MvpScraper.RangeStep | nba_mvp_scraper.py:228-231 | One pass of the loop appends that season's table, when there is one, to the collected list, and its pages to the fetched ones. |
| MvpScraper.RangeEnd | nba_mvp_scraper.py:228 | When the loop stops, the collected list and the fetched pages cover the whole range, including an empty range. |
| MvpScraper.ScrapeAllSeasons | nba_mvp_scraper.py:224-256 | The loop computes `AllSeasons` and fetches the seasons' pages in year order. Its invariant is that the collected list is the successful seasons so far. |
| MvpScraper.SuccessesEmpty | nba_mvp_scraper.py:228-238 | Nothing is collected if and only if every season in the range fails. |
| MvpScraper.ScrapedSeasonsStamped | nba_mvp_scraper.py:213-216 | Every scraped season has the `Season` and `MVP` columns, `Season` equal to its year in every row, and a 0/1 flag in every row. |
| MvpScraper.SeasonStamped | nba_mvp_scraper.py:213-216 | The same for one season. |
| MvpScraper.CombinedStamped | nba_mvp_scraper.py:213-216 | The same for a combined table. |
| MvpScraper.SuccessRowsStep | nba_mvp_scraper.py:228-231 | The collected rows are those of the earlier seasons, followed by the rows of the last season if it succeeded. |
| MvpScraper.RowSeason | nba_mvp_scraper.py:228-241 | A collected row comes from a successful season in the range whose year it carries. |
| MvpScraper.SuccessRowsInRange | nba_mvp_scraper.py:228-241 | Every collected row carries the year of a successful season in the range. |
| MvpScraper.SuccessRowsFlagged | nba_mvp_scraper.py:228-241 | Every collected row has an `MVP` flag of 0 or 1. |
| MvpScraper.LastSeasonRows | nba_mvp_scraper.py:228-231 | The rows collected up to a year keep the earlier rows in place. They carry years no later than that year, and the rows it appends carry exactly that year. |
| MvpScraper.SuccessRowsAscending | nba_mvp_scraper.py:228-241 | The years never decrease along the collected rows. |
| MvpScraper.AggregateKeepsRows | nba_mvp_scraper.py:241-254 | Concatenating, filling and converting gives the labels of all seasons and one row per collected row. Outside the numeric columns, cells are kept and none is missing. |
| MvpScraper.SuccessesLabelled | nba_mvp_scraper.py:228-231 | Every collected table has `Season` and `MVP`. |
| MvpScraper.AggregateNone | nba_mvp_scraper.py:236-238 | The result is `None` if and only if every season in the range fails. |
| MvpScraper.AggregateCell | nba_mvp_scraper.py:241-254 | A collected non-numeric cell is the aggregate's cell in the same row. |
| MvpScraper.AggregateLabelled | nba_mvp_scraper.py:241 | The aggregate has the `Season` and `MVP` columns. |
| MvpScraper.AggregateSeasons | nba_mvp_scraper.py:224-256 | The aggregate has one row per collected row. Years never decrease. Every `MVP` flag is 0 or 1. |
| MvpScraper.AggregateFromSeasons | nba_mvp_scraper.py:224-256 | Every aggregate row has a `Season` cell: the year of a successful season in the range. |
| MvpScraper.AggregateRowSeason | nba_mvp_scraper.py:224-256 | This names, for one aggregate row, that season. |
| MvpScraper.Run | nba_mvp_scraper.py:258-271 | `main` fetches the pages of 1981 to 2024 in order. It writes nothing exactly when no season succeeds. Otherwise the rows are unchanged and the columns are `Season`, then the others in order: a permutation. |
| Scraper2025.Combined | nba_2025_scraper.py:173-181 | The season table has at least one row per per-game row and has the `Season` column. |
| Scraper2025.CombinedContents | nba_2025_scraper.py:173-181 | The season table is well formed. Its columns are the per-game ones, the advanced ones other than `Player`, then `Season` unless already present. Every row is a data row with `Season` equal to the year. |
| Scraper2025.CombinedRows | nba_2025_scraper.py:175-178 | There is at least one row per per-game row. With unique advanced players there is exactly one, keeping that row's cells, except `Season`. |
| Scraper2025.ScrapedSeason | nba_2025_scraper.py:157-184 | A season is scraped if and only if both lookups succeed. |
| Scraper2025.SeasonLogCases | nba_2025_scraper.py:157-171 | The fetch log of the two lookups, case by case. |
| Scraper2025.ScrapeSeason | nba_2025_scraper.py:157-184 | The method returns `ScrapedSeason` and fetches the pages up to the first failure. |
| Scraper2025.SeasonContents | nba_2025_scraper.py:157-184 | A scraped season has the columns formula, including `Season`, and every row is a data row with `Season` equal to the year. |
| Scraper2025.SeasonRowCount | nba_2025_scraper.py:157-184 | There are at least as many rows as data rows on the per-game page. With unique advanced players the counts are equal and the per-game cells are kept. |
| Scraper2025.Written | nba_2025_scraper.py:192-209 | The written table has `Season` first, the same columns as a multiset, and one row per scraped row. |
| Scraper2025.Run | nba_2025_scraper.py:186-213 | `main` fetches the 2025 pages. It writes nothing exactly when the season fails. Otherwise it writes `Written` of the season: reordered, then filled, then converted. |
| Scraper2025.WrittenShape | nba_2025_scraper.py:192-209 | The written columns are `Season`, then the others in order: a permutation. There is one row per scraped row. Every `Season` cell is the year, and every row keeps its `Player` cell and stays a data row. |
| Scraper2025.WrittenCells | nba_2025_scraper.py:198-209 | Outside the numeric columns no cell is missing and scraped cells are kept. In a numeric column each cell is the conversion of the scraped cell, or of 0 when that cell was missing. |

## Left out

- HTTP requests, the User-Agent header, the 3-second sleep and the URLs (`get_page_content`) are not modelled. A page is a value of `Site`, and a year absent from a map is a failed request. `Request` records only which page of which year is fetched.
- HTML parsing (BeautifulSoup's `find`, `pd.read_html`) is not modelled: tables arrive already read. For the award page, the player cell of each body row arrives as text, or `None` when the row lacks one. That stands for the `AttributeError` the code catches.
- Logging, `tqdm` progress, writing the CSV files, and the statistics printed at the end of `main` are left out. They do not affect the data.
- `pd.to_numeric`'s float parser is a parameter (`parse`), because Python's float syntax is not part of the model.
- pandas dtypes are not modelled: integer versus float columns, the year as `int`, and whether `fillna(0)` gives `0` or `0.0`. Every number is a `real`.
- Merge.LeftJoin: duplicate labels and pandas' `_x`/`_y` suffixes are not modelled. The join requires the two tables to share only `Player`. `Pages.StatsJoinable` proves this for every pair of tables the scrapers join.
- Normalize.RenamedRelabels: a rename that makes two columns share a label is not modelled, because a row holds one cell per label. The lemma assumes the map does not merge the frame's columns.
- `str.contains` is modelled as a plain substring test. The pattern `Player` has no regular-expression syntax.
- MvpScraper.Run: the contract covers column order and rows only. The cell facts of the written table are `AggregateKeepsRows`, `AggregateSeasons` and `AggregateFromSeasons`, applied through `ScrapedSeasonsStamped`.
- The `except` branches around the merge are not modelled. The join never fails when both tables have `Player`, and the lookups guarantee that.

Three consequences of the code as written, which the model keeps:
- **Unparseable numeric text.** The conversion runs after `fillna(0)`, so unparseable text in a numeric column ends up missing (NaN) in the result, not 0 (`Tables.Coerce`, `Scraper2025.WrittenCells`).
- **Header and empty rows.** A row is dropped when its `Player` cell is missing or contains `Player` anywhere. A player cell holding the empty string is kept.
- **No matching columns.** The "no matching columns" failure can never happen, because `Player` always survives cleaning and renaming (`Normalize.NormalizedShape`).

# Indian Unicorn Startups Dashboard: the filter and count pipeline in Dafny

The dashboard (`InStartup/inspds.py`) loads a table of Indian unicorn startups.
It keeps the rows that match three sidebar selections: a list of sectors, an
inclusive year range and a list of locations. From the kept rows (the *view*)
it computes the tables its charts draw:

- the ten most frequent locations;
- the ten and the five most frequent sectors;
- the number of new unicorns per year, in ascending year order;
- the investor names joined into one text for the word cloud.

The word-cloud branch is taken only when that text is not blank.

This project models that pipeline as pure Dafny functions over a sequence of
rows and proves what each step promises.

- `wrappers.dfy` (`Wrappers`): `Option`, used for a missing cell (pandas NaN).
- `seqs.dfy` (`Seqs`): distinctness, subsequences, occurrence counts, `unique()`, `min()`/`max()`.
- `startups.dfy` (`Startups`): the row, the selection, the boolean-mask filter and the sidebar defaults.
- `tallies.dfy` (`Tallies`): `value_counts()` and `groupby().size()`, each modelled as a one-pass counter followed by a stable insertion sort, plus `head(n)`.
- `charts.dfy` (`Charts`): the location, sector and yearly tables of the dashboard.
- `investors.dfy` (`Investors`): `' '.join(...dropna())`, Python's `str.strip()` and the word-cloud test.

A row is `Row(sector, location, year, investors)`. `year` is the already
derived `Year` column: `None` where `Entry` did not parse as a date. The
sidebar's multiselects return lists, and `isin` tests membership in them, so
the two category selections are `seq<string>`. The year slider gives an
inclusive pair `fromYear`, `toYear`.

## Model

| member | source | states |
|---|---|---|
| `Startups.Filter` | InStartup/inspds.py:36-40 | the result is a subsequence of the rows in their order; every kept row passes all three tests; each row occurs as often as in the input if it passes them and not at all otherwise; never longer than the input |
| `Startups.Keeps` | InStartup/inspds.py:36-40 | the mask is false for a row without a year, and for every row when a category list is empty or the year range is empty |
| `Startups.InYears` | InStartup/inspds.py:38 | `between` is false on NaN and on an empty range, and both ends are inclusive |
| `Startups.FilterIdempotent` | InStartup/inspds.py:36-40 | filtering an already filtered view with the same selection returns it unchanged |
| `Startups.UndatedRowsNeverKept` | InStartup/inspds.py:38 | a row with a missing year never passes `between`, whatever the range: filtering the rows gives the same view as filtering only the dated rows |
| `Startups.EmptySelectionKeepsNothing` | InStartup/inspds.py:36-40 | an empty sector list or an empty location list gives an empty view |
| `Startups.DefaultSelection` | InStartup/inspds.py:31-33 | no default exists exactly when no row has a year (`int(NaN)` fails); otherwise every row's sector and location is selected, only values of those columns are offered, and the slider spans a present minimum to a present maximum year, covering every present year |
| `Startups.DefaultKeepsDated` | InStartup/inspds.py:31-40 | under the default selection the filter keeps exactly the rows that have a year |
| `Startups.AllSelectedKeepsDated` | InStartup/inspds.py:36-40 | if every row's sector and location are selected and every present year is in range, the view is the dated rows |
| `Startups.Dated` | InStartup/inspds.py:38 | the rows with a present year, in their order, each as often as in the input; rows without a year occur not at all |
| `Startups.Years` | InStartup/inspds.py:32 | the `Year` column with NaN dropped: in row order, one entry per dated row, each year as often as rows carry it, and a year is among them exactly when some row carries it |
| `Startups.YearsOfDated` | InStartup/inspds.py:32 | dropping the missing years leaves exactly one year per dated row |
| `Seqs.DropMissing` | InStartup/inspds.py:107 | `dropna()` keeps the present values in their order, each as often as its present cells, and nothing else |
| `Seqs.Unique` | InStartup/inspds.py:31 | `unique()` holds no repeats, and a value is in it exactly when it is in the column |
| `Seqs.Min` | InStartup/inspds.py:32 | `min()` is a member of the years and no larger than any of them |
| `Seqs.Max` | InStartup/inspds.py:32 | `max()` is a member of the years and no smaller than any of them |
| `Tallies.Bump` | InStartup/inspds.py:68 | counting one more `x` adds one to the total and to `x`'s count only, and adds `x` to the values if new, keeping them distinct |
| `Tallies.Tallying` | InStartup/inspds.py:68 | the counter lists each value of the column exactly once and nothing else, and its counts add up to the column's length |
| `Tallies.TallyingCounts` | InStartup/inspds.py:68 | the counter lists each value of the column once, with its number of occurrences, and its counts add up to the column's length |
| `Tallies.CountOfEntry` | InStartup/inspds.py:68 | in a table without repeated values each line holds the count recorded for its value |
| `Tallies.InsertByKeys` | InStartup/inspds.py:68 | inserting a line adds its value to the table's values |
| `Tallies.InsertByTotal` | InStartup/inspds.py:68 | inserting a line adds its count to the table's total |
| `Tallies.InsertByDistinct` | InStartup/inspds.py:68 | inserting a line for a new value keeps the values distinct |
| `Tallies.InsertBySorted` | InStartup/inspds.py:68 | inserting into a sorted table keeps it sorted |
| `Tallies.SortBy` | InStartup/inspds.py:68 | the sorted table holds the same lines as its input, as a multiset |
| `Tallies.SortBySorted` | InStartup/inspds.py:68 | the sorted table is in key order |
| `Tallies.SortByKeys` | InStartup/inspds.py:68 | sorting keeps the set of values |
| `Tallies.SortByTotal` | InStartup/inspds.py:68 | sorting keeps the total count |
| `Tallies.SortByDistinct` | InStartup/inspds.py:68 | sorting keeps distinct values distinct |
| `Tallies.SortedCounter` | InStartup/inspds.py:68 | the sorted counter is in key order, lists each value of the column exactly once, and its counts add up to the column's length |
| `Tallies.SortedCounterLines` | InStartup/inspds.py:68 | each line of the sorted counter holds a value of the column and its positive number of occurrences |
| `Tallies.ValueCounts` | InStartup/inspds.py:68 | `value_counts()` lists every distinct value once and nothing else, each with its number of occurrences, with counts non-increasing and summing to the column's length |
| `Tallies.TopN` | InStartup/inspds.py:68 | `head(n)` has at most `n` lines and is a prefix of the full ranking; its values are distinct values of the column with their exact counts, non-increasing; with fewer than `n` lines it lists every value |
| `Tallies.TopNLeavesOutNoMoreFrequent` | InStartup/inspds.py:68 | no value left out of the top `n` occurs more often than any value shown |
| `Tallies.TopNPrefix` | InStartup/inspds.py:85-91 | a shorter head of the ranking is a prefix of a longer one |
| `Tallies.StrictlyAscending` | InStartup/inspds.py:98 | a table sorted by value with distinct values is strictly ascending |
| `Tallies.TotalBoundsLength` | InStartup/inspds.py:68 | a table of positive counts has no more lines than its total |
| `Charts.TopLocations` | InStartup/inspds.py:68 | at most ten bars, each a location of some row of the view with the positive number of its rows there, tallest first; with fewer than ten bars every location of the view is shown; distinct locations, and no location left out has more rows than a bar shown |
| `Charts.TopSectors` | InStartup/inspds.py:85 | at most ten bars, each a sector of some row of the view with the positive number of its rows, tallest first; with fewer than ten bars every sector of the view is shown; distinct sectors, and no sector left out has more rows than a bar shown |
| `Charts.SectorDistribution` | InStartup/inspds.py:91 | at most five slices, each a sector of the view with its positive number of rows, largest first; with fewer than five slices every sector is shown; distinct sectors, and no sector left out has more rows than a slice shown |
| `Charts.SectorDistributionIsHeadOfTopSectors` | InStartup/inspds.py:85-91 | the five-slice sector pie is the first five lines (or all, if fewer) of the ten-bar sector chart |
| `Charts.YearlyCounts` | InStartup/inspds.py:98 | one line per year carried by some row of the view, years strictly ascending, each count positive and equal to the number of rows of that year, the counts summing to the number of dated rows |
| `Charts.YearlyCountsExample` | InStartup/inspds.py:98 | a view with years 2021, 2021, missing, 2022 gives the series (2021, 2), (2022, 1) |
| `Charts.ExampleYears` | InStartup/inspds.py:98 | the missing year of that view is dropped, leaving 2021, 2021, 2022 |
| `Charts.ExampleCounter` | InStartup/inspds.py:98 | counting 2021, 2021, 2022 and sorting by year gives (2021, 2), (2022, 1) |
| `Investors.InvestorNames` | InStartup/inspds.py:107 | `dropna()` on the investor column: the present cells in row order, each string as often as rows hold it; a string is among them exactly when some row holds it |
| `Investors.Join` | InStartup/inspds.py:107 | joining nothing gives `""`; otherwise the text starts with the first part, and its length is the parts' lengths plus one separator between each pair |
| `Investors.JoinAppend` | InStartup/inspds.py:107 | the join of two lists is their joins with one space between, so parts stay in order |
| `Investors.InvestorText` | InStartup/inspds.py:107 | the text is `""` when every investor cell of the view is missing, and holds a non-whitespace character exactly when some present cell does |
| `Investors.NamesOfRows` | InStartup/inspds.py:107 | no investor names when every cell is missing; some name has a non-whitespace character exactly when some row's cell has |
| `Investors.StripStart` | InStartup/inspds.py:109 | `lstrip()` is a suffix that does not start with whitespace, and everything dropped is whitespace |
| `Investors.StripEnd` | InStartup/inspds.py:109 | `rstrip()` is a prefix that does not end with whitespace, and everything dropped is whitespace |
| `Investors.Strip` | InStartup/inspds.py:109 | `strip()` is a contiguous slice of its input; everything before and after the slice is whitespace, and the slice, if not empty, starts and ends with non-whitespace |
| `Investors.StripNonEmptyIffWord` | InStartup/inspds.py:109 | `strip()` is non-empty exactly when the text has a non-whitespace character |
| `Investors.ShowsWordCloud` | InStartup/inspds.py:109 | the `if investors.strip():` test holds exactly when the text has a non-whitespace character |
| `Investors.JoinHasWord` | InStartup/inspds.py:107-109 | the joined text has a non-whitespace character exactly when one of its parts does |
| `Investors.WordCloudShownIffSomeInvestor` | InStartup/inspds.py:107-109 | the word-cloud branch is taken exactly when some row of the view has an investor cell with a non-whitespace character |

## Left out

- Page setup, sidebar widgets, metrics display, plotly charts, the word-cloud image and matplotlib figures (lines 9-14, 43-51, 70-71, 77-78, 87-88, 93-94, 99-100, 110-123): rendering through foreign libraries. The "Total Unicorns" metric (line 51) is the length of the view, which `Startups.Filter` bounds.
- The CSV read and the column rename in `load_data` (lines 19-23): file I/O.
- Parsing `Entry` with `pd.to_datetime(..., errors='coerce').dt.year` (line 24): foreign date parsing. The derived year is an input of the model, `None` where parsing failed.
- The valuation sum, mean and median with `round` (lines 54-60), and the valuation sum per location (lines 75-76): floating-point arithmetic.
- Missing `Sector` or `Location` cells: these columns are modelled as strings that are always present.
- `Tallies.ValueCounts`: does not fix the order among values with equal counts, because pandas' `value_counts` tie order depends on its version. The model's stable sort happens to keep first-seen order.
- `Startups.DefaultSelection`: the Streamlit slider's own checks on its bounds are not modelled. The model accepts any `fromYear`, `toYear`, including `fromYear > toYear`, which keeps nothing.
- Whitespace for `strip()` is Python's `str.isspace()` character set (`Investors.IsSpace`).
- `WordCloud(...).generate` (line 110): a text that passes the `strip()` test can still make it raise, when its tokenizer keeps no word (only punctuation, digits or stop words). The model decides only which branch line 109 takes, not whether a cloud is then drawn.
- `Seqs.Unique`: does not state pandas' first-seen order of `unique()`, because the filter only tests membership in the selection lists.

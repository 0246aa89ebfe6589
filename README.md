# Stack Overflow tag trends: a verified model of `process_csv`

`app.py` serves a small dashboard of programming-tag popularity. Its
computational core is `process_csv` together with `generate_growth_pattern`.
The pipeline works in these steps:

- It reads the rows of a scraped CSV file and resolves each row's tag from
  the first present column among `Tag`, `tag`, `Tags`, `tags`, `TAG`.
- It counts the tags in a `defaultdict`, along with `total_rows` and
  `processed_rows`.
- It raises "CSV file is empty" or "No valid rows found" when the counts call
  for it.
- It keeps the ten most frequent tags, using a stable sort by count,
  descending.
- It synthesises three yearly counts per tag, for 2023 to 2025. The formula
  is chosen by a bracket of the tag's base count.
- It sums every year and turns each count into a percentage of its year's
  total. A year whose total is 0 raises a division by zero.
- It ranks the tags by the average of their percentages, again with a stable
  sort, descending.

This project models that pipeline in Dafny, module by module:

| module | file | models |
|---|---|---|
| `Wrappers` | wrappers.dfy | `Option` and `Result` |
| `Tables` | tables.dfy | duplicate-free key orders and `sum(d.values())` over a key order |
| `StableSort` | stable_sort.dfy | Python's stable `sorted(..., reverse=True)` and `list.sort(..., reverse=True)` |
| `Records` | records.dfy | the `(tag, count)` pairs, the report entries, the report, the three failures |
| `TagCounting` | tag_counting.dfy | the row loop (lines 75-97) |
| `TopTags` | top_tags.dfy | the top-10 selection (line 109) |
| `Growth` | growth.dfy | `generate_growth_pattern` (lines 12-32) |
| `Yearly` | yearly.dfy | the yearly table, totals and percentages (lines 112-132) |
| `Ranking` | ranking.dfy | `tags_data` and its sort (lines 134-145) |
| `Pipeline` | pipeline.dfy | `process_csv` end to end (lines 69-161) |

The loops are imperative methods, each proved equal to a specification
function:

- `CountTags` is proved equal to `TallyOf`.
- `BuildYearlyData` is proved to fill the table that `Filled` describes.
- `ComputePercentages` is proved against the year sums.
- `RankTags` is proved equal to `SortDesc` of the unranked entries.
- `ProcessCsv` is proved equal to `ProcessSpec`.

The properties of the source are lemmas about those functions.

Things the source takes from outside become parameters:

- `model: GrowthModel` is the count that a bracket's formula yields for a
  base count, a year index and the index of the `random.uniform` sample it
  consumes.
- `percentOf` stands for `round(count / total * 100, 2)`.
- `averageOf` stands for `round(sum(p) / len(p), 2)`.

Percentages and averages are therefore opaque integers. Percentages are
stored in each entry's `data` and passed to `averageOf`; only the average is
a sort key.

A row is a map from column name to `Option<string>`. `csv.DictReader` fills
the missing cells of a short row with `None`. The source stops its column
search at the first present column even when that column's cell is `None`,
and the row is then skipped. The model does the same.

The model follows the code in two places where a higher-level description of
the program might suggest otherwise:

- Cells are `Option<string>` rather than plain strings, for the reason above.
- The division at line 131 is not guarded. A year whose total is 0, while
  tags are selected, makes the whole computation fail with
  `DivisionByZero`, which is the `ZeroDivisionError` that the outer handler
  re-raises. A year with no entries never divides, but such a year cannot
  occur, because every year holds every selected tag.

## Model

| member | source | states |
|---|---|---|
| Growth.BracketMonotone | app.py:16-27 | a larger base count never falls into a lower bracket |
| Growth.BracketBoundaries | app.py:16-27 | 1500 and 800 themselves belong to the lower bracket; 1501 and 801 to the upper one |
| Growth.Pattern | app.py:12-32 | the shape promise only: every call yields exactly three counts (what each count is, `Growth.GenerateGrowthPattern` states) |
| Growth.GenerateGrowthPattern | app.py:12-32 | returns exactly three counts; count yi is the formula of the bracket of `base_count` (`> 1500`, else `> 800`, else the third) at year index yi with the yi-th sample of the call; `years` has no influence |
| TagCounting.TagFromColumn | app.py:83-86 | when column i is the first listed column present in the row, the search yields that column's cell |
| TagCounting.TagFromAbsent | app.py:82-86 | a row with none of the columns yields no tag |
| TagCounting.TagFromFirstPresent | app.py:82-90 | the tag is the cell of the first present listed column, even when that cell is missing; no present column means the row is skipped |
| TagCounting.ResolveTag | app.py:82-86 | the column loop with its `break` computes exactly that tag |
| TagCounting.CountOldKey | app.py:92-93 | incrementing an existing tag keeps the tally consistent |
| TagCounting.CountNewKey | app.py:92-93 | a first-seen tag is appended to the key order with count 1, and the tally stays consistent |
| TagCounting.StepWellFormed | app.py:76-93 | every iteration keeps the keys distinct and equal to the dictionary's, every count positive, the counts summing to `processed_rows`, and `processed_rows <= total_rows` |
| TagCounting.TallyWellFormed | app.py:75-97 | after the loop the tally is consistent in that sense and `total_rows` is the number of rows |
| TagCounting.CountTags | app.py:75-97 | the row loop computes `TallyOf(rows)` |
| TagCounting.SkippedRow | app.py:88-90 | a row without a tag adds one to `total_rows` and changes nothing else |
| TagCounting.CountedRow | app.py:92-93 | a row with a tag adds one to that tag's count (from 0 when new) and one to each counter |
| TagCounting.StepCount | app.py:92 | one iteration changes only its own tag's count, by one |
| TagCounting.RowsTaggedLast | app.py:92 | the last row adds exactly its own position to its tag's rows, so that count grows by one; every other tag's rows are unchanged |
| TagCounting.CountsAreOccurrences | app.py:92 | a tag is a key exactly when some row names it, and its count is the number of rows naming it |
| TagCounting.ProcessedAreTagged | app.py:93 | `processed_rows` is the number of rows that have a tag |
| TagCounting.NoneProcessed | app.py:88-93 | `processed_rows == 0` exactly when no row has a tag |
| TagCounting.SeenBeforeLater | app.py:75-92 | reading more rows keeps an earlier first-seen order |
| TagCounting.SeenBeforeNewKey | app.py:92 | every key already present was seen before the key the current row adds |
| TagCounting.KeysInFirstSeenOrder | app.py:92 | the dictionary's key order is the order in which the rows first name the tags |
| StableSort.Filter | app.py:109 | keeps at most the input's elements |
| StableSort.FilterHas | app.py:109 | `Filter(s, key, k)` holds exactly the elements of s with key k |
| StableSort.Insert | app.py:109 | insertion adds exactly one element |
| StableSort.InsertSorted | app.py:109 | insertion keeps a sequence in non-increasing key order |
| StableSort.InsertStable | app.py:109 | insertion puts the new element before the elements of s that share its key |
| StableSort.SortDesc | app.py:109 | the sort is a permutation in non-increasing key order |
| StableSort.SortDescStable | app.py:109 | the sort keeps equal keys in input order |
| StableSort.FilterCons | app.py:109 | how Filter treats a new first element |
| StableSort.HeadKeyBound | app.py:109 | a non-increasing b holding the same elements of key(a[0]) as a is non-empty, and its head's key is at least key(a[0]) |
| StableSort.TailFilters | app.py:109 | two sequences with equal heads and equal per-key filters have tails with equal per-key filters |
| StableSort.SortedStableEqual | app.py:109 | two non-increasing sequences with the same elements per key, in the same order, are equal |
| StableSort.StableSortIsUnique | app.py:145 | every stable non-increasing arrangement equals `SortDesc`, so the choice of stable algorithm does not matter |
| StableSort.FilterPrefix | app.py:109 | the first n elements hold, for each key, a prefix of that key's elements |
| Tables.SumOverAgree | app.py:127 | a sum over keys depends only on those keys' entries |
| Tables.SumOverIncrement | app.py:92 | incrementing one listed key adds one to the sum |
| Tables.SumOverZero | app.py:127 | a sum of naturals is 0 exactly when every summand is |
| Tables.DistinctCardinality | app.py:109 | a duplicate-free key order has as many distinct keys as positions |
| Tables.DistinctMultiset | app.py:145 | a sequence is duplicate-free exactly when no element occurs twice in its multiset |
| Tables.DistinctPermutation | app.py:145 | a permutation of a duplicate-free sequence is duplicate-free |
| TopTags.PrefixMultiset | app.py:109 | a prefix holds no element more often than the whole |
| TopTags.SortedFilter | app.py:109 | sorting by count keeps each count's pairs in order |
| TopTags.PrefixOfSorted | app.py:109 | the first n sorted pairs come from the input, and for each count they are a prefix of that count's pairs |
| TopTags.SelectTop | app.py:109 | the selection has min(10, n) pairs in non-increasing count order |
| TopTags.LeftOutNotLarger | app.py:109 | a pair left out has a count no larger than any selected pair's |
| TopTags.FilterKeepsPositions | app.py:109 | two equal-key elements keep their order in the filter |
| TopTags.FilterFromPositions | app.py:109 | two filter positions come from two input positions in the same order |
| TopTags.SelectedTiePositions | app.py:109 | two selected pairs of equal count stand in `items` in selection order |
| TopTags.SelectedComeFirst | app.py:109 | the selected pairs of a count are a prefix of that count's pairs, and a pair left out stands after them |
| TopTags.LeftOutTiePosition | app.py:109 | a pair left out at a selected pair's count stands after it in `items` |
| TopTags.SelectTopKeepsTies | app.py:109 | ties among the selected pairs keep the items order, and a tie that is left out comes after every selected pair of that count |
| TopTags.ItemsOfTally | app.py:109 | the items are the tally's distinct pairs, one per tag with its count |
| TopTags.SelectTopFromTally | app.py:109 | the selection has min(10, number of distinct tags) pairs, each a tag of `tag_counts` with its count |
| TopTags.SelectTopDistinct | app.py:109 | no tag is selected twice |
| TopTags.SelectTopIsTop | app.py:109 | no tag left out has a larger count than a selected one |
| Yearly.YearsInOrder | app.py:113 | `years` is 2023, 2024, 2025 in order, and its entries are exactly the years of the range |
| Yearly.YearTotalZero | app.py:127-131 | a year's total is 0 exactly when every selected tag's count in that year is 0 |
| Yearly.SumOfEntries | app.py:127 | `sum(yearly_data[year].values())` over a table filled from the selection is the year's total |
| Yearly.StoreCounts | app.py:119-120 | the inner loop stores count yi under the tag in year yi, keeps the years, and changes nothing else |
| Yearly.StoreNextTag | app.py:117-120 | each outer iteration extends the table by one tag, in every year |
| Yearly.BuildYearlyData | app.py:113-120 | every year holds exactly the selected tags, each with its synthesised count |
| Yearly.YearPercentages | app.py:130-132 | a year's loop fails exactly when it has an entry and its total is 0; otherwise the year's map has exactly the year's tags as keys, and every entry gets `percentOf(count, total)` |
| Yearly.ComputePercentages | app.py:123-132 | fails exactly when some year's entries sum to 0 and tags exist; otherwise the totals and the percentages have exactly the three years as keys, each year's percentages have exactly the tags as keys, each year's total is its sum and every entry has its percentage |
| Ranking.Unranked | app.py:135-143 | the shape promise only: one entry per selected tag (which tags, `Pipeline.ReportedAreSelected` states) |
| Ranking.RankTags | app.py:135-145 | `tags_data` after the in-place sort is the stable descending sort of the entries in selection order |
| Pipeline.Top | app.py:109 | `top_tags` has min(10, number of distinct tags) pairs |
| Pipeline.TrendData | app.py:137 | the shape promise only: three percentages per tag (what they are, `Pipeline.PercentagesOfTable` and `Pipeline.TrendsOfPercentages` state) |
| Pipeline.Trends | app.py:135-143 | one entry per selected tag, named after it, in selection order |
| Pipeline.TotalsOf | app.py:123-128 | any map with the three years and their totals is `yearly_totals` |
| Pipeline.PercentagesOfTable | app.py:130-132 | every percentage is the tag's count as a share of its year's total |
| Pipeline.CoversOfPercentages | app.py:137 | every selected tag has a percentage in every year |
| Pipeline.TrendsOfPercentages | app.py:135-143 | the entries built from the percentages are `Trends` |
| Pipeline.TotalsOfTable | app.py:126-128 | the year sums of the filled table are `yearly_totals` |
| Pipeline.ColumnTotals | app.py:126-131 | each year's sum is its total, so the division fails exactly when some year's total is 0 |
| Pipeline.BuildReport | app.py:112-151 | the table, percentages and ranking give `ReportOf` of the selection |
| Pipeline.ProcessCsv | app.py:69-161 | the whole computation returns or raises what `ProcessSpec` says |
| Pipeline.TopNonEmpty | app.py:105-109 | some tag is selected exactly when some row was processed |
| Pipeline.EmptyCsvIff | app.py:102-103 | "CSV file is empty" is raised exactly when there are no rows |
| Pipeline.NoValidRowsIff | app.py:105-106 | "No valid rows found" is raised exactly when there are rows and none has a tag |
| Pipeline.DivisionByZeroIff | app.py:126-131 | the division fails exactly when some row has a tag and, in some year, every selected tag's count is 0 |
| Pipeline.SuccessOf | app.py:102-154 | a returned report comes from a non-empty selection with positive yearly totals |
| Pipeline.ReportTotals | app.py:147-151 | the report's years are 2023-2025, and each total is the year's sum and positive; it has min(10, distinct tags) entries |
| Pipeline.ReportRanking | app.py:145 | the report's entries are a permutation of the unranked entries, in non-increasing average, with ties in selection order |
| Pipeline.TopOccurs | app.py:92-109 | a selected tag's count is its number of rows, which is positive |
| Pipeline.TopLeftOut | app.py:92-109 | a tag left out names no more rows than a selected one |
| Pipeline.TopDistinct | app.py:109 | no tag is selected twice |
| Pipeline.TopFromRows | app.py:92-109 | the selection has the most frequent tags with their row counts, each once |
| Pipeline.RearrangedNames | app.py:145 | a permutation of one entry per distinct tag names each tag exactly once |
| Pipeline.ReportedAreSelected | app.py:135-145 | the report names exactly the selected tags, each once |
| Pipeline.RankedMostFrequent | app.py:109-145 | entries naming each selected tag once name the most frequent tags |
| Pipeline.ReportMostFrequent | app.py:109-145 | every reported tag names a row; none is reported twice; no tag left out names more rows than a reported one |
| Pipeline.SelectedTieFirstSeen | app.py:109 | selected tags of equal count appear in the order the rows first name them |
| Pipeline.LeftOutTiePositions | app.py:109 | a tag left out at a selected tag's count stands after it in the key order |
| Pipeline.LeftOutTieFirstSeen | app.py:109 | a tag left out at a selected tag's count was first named after it |

## Left out

- File handling is not modelled: the existence check and `FileNotFoundError`, the byte peek, the encoding probe and the reading with utf-8. This is I/O. The probe's outcome is unused in the source.
- `csv.DictReader` is not modelled, because it is a foreign library. The model starts from the rows as maps.
- `print` logging and traceback formatting are left out, because they are output. The outer `except` re-raises the same exception, so the modelled failures are what the caller sees. A `print` that raises is not modelled. The prints of row or tag content at line 62 (the first row, during the encoding probe), line 110 (`top_tags`) and line 153 (the result) raise, for instance with `UnicodeEncodeError`, when stdout cannot encode a tag. `process_csv` then raises where the model returns a report.
- The per-row `try`/`except` (lines 77-97) is left out. The warning at line 89 is printed for a row that is skipped anyway. The first row's content was already printed at line 62, so an encoding failure ends the call there, before the loop. The `print` of the first row at line 79 can therefore raise only through a transient failure of stdout itself, such as an `OSError`. The source then skips row 1: it counts in `total_rows` but not in `tag_counts` or `processed_rows`. The model always counts row 1 as its tag says, because output failures are not modelled.
- The growth formulas, `math.log`, `random.uniform` and `int(...)` truncation (lines 18-30) are injected as `GrowthModel`, because they are floating point and randomness. Only the bracket dispatch and the three-count shape are modelled. The sample index assumes each call draws one sample per year, which holds for all three branches.
- The percentage and average arithmetic with `round(..., 2)` (lines 131-142) is injected as `percentOf` and `averageOf`, because it is floating point. The model relates the values only through these parameters and the order of the averages.
- Python's Timsort is modelled by an insertion sort. `StableSort.StableSortIsUnique` shows that any stable descending sort gives the same list.
- The Flask app, CORS and the routes are left out, because they are HTTP plumbing.

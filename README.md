# Flood-control project reports, modelled in Dafny

This project models the aggregation engine of a Kotlin program that analyses public
flood-control projects (`ReportGenerator`). Given the list of validated projects, the
engine computes four things:

- **Report 1, regional efficiency summary.** There is one row per (region, mainIsland)
  pair. A row holds the total approved budget, the median cost savings, the mean
  completion delay, the share of projects delayed more than 30 days and an efficiency
  score held to [0, 100]. Rows are sorted by score, highest first.
- **Report 2, contractor ranking.** Only contractors with at least five projects are
  ranked. Each gets a total cost, a reliability index held to [0, 100] and a risk flag.
  Rows are sorted by total cost, highest first, cut to fifteen and ranked 1, 2, ….
- **Report 3, annual trends.** There is one row per (fundingYear, typeOfWork) pair. A row
  holds the average savings and the overrun rate, which is the share of projects with
  negative savings. Each row also has a year-over-year change against the 2021 row of
  the same type of work. Rows are sorted by year, then by average savings, highest first.
- **The summary digest.** It holds the project count, the distinct contractor and
  province counts, the mean delay and the total savings truncated to a `Long`.

Everything in the engine is an expression over collections, so the model is pure
functions and lemmas. The library pieces the engine relies on are modelled as well:

- Kotlin's `groupBy` fills a `LinkedHashMap`, so groups come out in the order their keys
  first occur. It is the fold `Grouping.GroupBy`. `Grouping.GroupByIsPartition` proves
  it equal to an independent description: the distinct keys in order (`Keys`) and, per
  key, the elements that carry it (`Select`).
- Kotlin's stable sorts are modelled as an insertion sort, `Sorting.SortBy`. It is
  proved sorted, a permutation, and stable: elements that compare equal keep their
  input order.
- `median()` is `Stats.Median`.

Amounts are exact `real`s. `Int` and `Long` fields are unbounded `int`s. The engine
converts to a fixed-width integer in two places. The digest's `toLong()` is modelled as
`SummaryDigest.ToLong`: truncation toward zero, saturating at the Long bounds. The
`toInt()` of report 3's year text is not modelled (see "## Left out").

Modules, one file each: `Wrappers` (Option), `Projects` (the record and field
accessors), `Stats`, `Grouping`, `Sorting`, `RegionalReport`, `ContractorReport`,
`AnnualReport`, `SummaryDigest`, `ConsoleColumn` (the contractor-name column, measured in UTF-16 code units as a Kotlin `String` is) and
`KeyText` (the joined text keys of reports 1 and 3; see Findings).

## Model

| member | source | states |
|---|---|---|
| Stats.MedianOfEmpty | ReportGenerator.kt:369-370 | the median of an empty list is 0 |
| Stats.MedianOfAscending | ReportGenerator.kt:367-376 | on a sorted list the median is the middle element (odd size) or the mean of the two middle elements (even size) |
| Stats.MedianOddExample | ReportGenerator.kt:373-374 | three values lo ≤ mid ≤ hi, in any order, have median mid (so [3, 1, 2] gives 2) |
| Stats.MedianEvenExample | ReportGenerator.kt:371-372 | four values a ≤ b ≤ c ≤ d, in any order, have median (b + c) / 2 (so [1, 2, 3, 4] gives 2.5) |
| Stats.MedianBounds | ReportGenerator.kt:367-376 | a nonempty list's median lies between its minimum and its maximum |
| Stats.MedianPermutationInvariant | ReportGenerator.kt:368 | lists with the same elements in any order have the same median |
| Stats.MedianOfConstant | ReportGenerator.kt:367-376 | the median of a list of equal values is that value |
| Stats.SortAscendingFacts | ReportGenerator.kt:368 | `sorted()` returns an ascending permutation of its input |
| Stats.AscendingUnique | ReportGenerator.kt:368 | two ascending lists with the same elements are equal, so the sorted list is unique |
| Stats.Percent | ReportGenerator.kt:38 | k·100/n with k ≤ n lies in [0, 100]; it is 0 exactly when k = 0 and 100 exactly when k = n |
| Stats.Clamp | ReportGenerator.kt:47 | `coerceIn(lo, hi)` returns x inside the range, lo below it and hi above it |
| Stats.Count | ReportGenerator.kt:37 | `count` never exceeds the list length |
| Grouping.GroupByIsPartition | ReportGenerator.kt:13-15 | `groupBy` yields one group per distinct key, in first-occurrence order, holding exactly that key's elements in input order |
| Grouping.KeysMembership | ReportGenerator.kt:13-15 | a key heads a group iff some element carries it |
| Grouping.KeysDistinct | ReportGenerator.kt:13-15 | no key heads two groups |
| Grouping.SelectMembership | ReportGenerator.kt:13-15 | an element is in the group of k iff it is in the input and its key is k |
| Grouping.SelectEmpty | ReportGenerator.kt:13-15 | the group of k is empty iff k is not a key |
| Grouping.GroupMembers | ReportGenerator.kt:28 | each group holds exactly the input elements whose key is the group's key |
| Grouping.SingleGroup | ReportGenerator.kt:13-15 | input whose elements all share one key forms a single group, the whole input |
| Grouping.Lookup | ReportGenerator.kt:271 | a map lookup is absent iff no group has the key, and otherwise returns that key's group |
| Grouping.LookupGroupBy | ReportGenerator.kt:271 | looking k up in the grouped map returns k's elements if k occurs, and nothing otherwise |
| Grouping.KeysCount | ReportGenerator.kt:346-347 | `distinct().size` equals the size of the set of keys, is at most the list length and is positive for a nonempty list |
| Sorting.SortBy | ReportGenerator.kt:60 | the sort returns a permutation of its input |
| Sorting.SortBySorted | ReportGenerator.kt:60 | under a strict weak order, no later row comes before an earlier one |
| Sorting.SortByStable | ReportGenerator.kt:60 | rows that compare equal keep their input order (the sort is stable) |
| Sorting.PermutationKeepsDistinct | ReportGenerator.kt:60 | sorting keeps distinct keys distinct |
| RegionalReport.EfficiencyScore | ReportGenerator.kt:41-47 | the score lies in [0, 100]. It is 0 when avgDelay ≤ 0. Otherwise it is medianSavings/avgDelay·100, raised to 0 or capped at 100 |
| RegionalReport.Summarize | ReportGenerator.kt:28-56 | a row carries its group's key; highDelayPct lies in [0, 100] and is 0 iff no project is delayed more than 30 days; the score lies in [0, 100] |
| RegionalReport.GroupRowsSpec | ReportGenerator.kt:13-56 | before sorting, row i summarises the i-th distinct (region, mainIsland) pair's projects |
| RegionalReport.RowTotals | ReportGenerator.kt:34-35 | every row's group is exactly its pair's projects; totalBudget is their budget sum and medianSavings the median of their savings |
| RegionalReport.ReportCoversPairs | ReportGenerator.kt:13-60 | there are as many rows as distinct pairs, and every project's pair has a row |
| RegionalReport.ReportRowsFromInput | ReportGenerator.kt:13-60 | every row's pair is the pair of some project |
| RegionalReport.ReportPairsDistinct | ReportGenerator.kt:13-60 | no pair has two rows |
| RegionalReport.ReportPercentagesBounded | ReportGenerator.kt:37-47 | every row's highDelayPct and efficiencyScore lie in [0, 100] |
| RegionalReport.ReportOrder | ReportGenerator.kt:60 | the rows are a permutation of the grouped rows, efficiencyScore is non-increasing, and rows with equal scores keep group first-appearance order |
| RegionalReport.TiedMeansEqualScore | ReportGenerator.kt:60 | two rows tie under the sort exactly when their scores are equal |
| RegionalReport.UniformUndelayedRegion | ReportGenerator.kt:13-60 | n undelayed projects with one pair, budget b and savings s give the single row (n·b, s, 0, 0, 0) |
| RegionalReport.FiveProjectExample | ReportGenerator.kt:13-60 | five equal projects with budget 100 and savings 20 give the one row ("A", "Luzon", 500, 20, 0, 0, 0) |
| ContractorReport.ReliabilityIndex | ReportGenerator.kt:135-144 | the index lies in [0, 100] and is 0 when totalCost ≤ 0. Otherwise it is (1−avgDelay/90)·(totalSavings/totalCost)·100, raised to 0 or capped at 100 |
| ContractorReport.Risk | ReportGenerator.kt:146-150 | the flag is "High Risk" exactly when the index is below 50, and "Low Risk" otherwise |
| ContractorReport.Summarize | ReportGenerator.kt:128-161 | a row has rank 0, its contractor and project count, an index in [0, 100] and the matching flag |
| ContractorReport.Qualifying | ReportGenerator.kt:112-114 | a group survives the filter iff it has at least five projects |
| ContractorReport.QualifiesIff | ReportGenerator.kt:109-114 | a contractor is ranked-eligible iff it has at least five projects |
| ContractorReport.QualifyingRowsSpec | ReportGenerator.kt:109-161 | the summaries are those of the eligible contractors, in first-appearance order, each over exactly its own projects |
| ContractorReport.SortedRowsSpec | ReportGenerator.kt:165 | the sorted rows are a permutation of the summaries with non-increasing totalCost, and rows with equal cost keep first-appearance order |
| ContractorReport.SortedRowFacts | ReportGenerator.kt:128-165 | every sorted row is the summary of an eligible contractor's own projects |
| ContractorReport.ReportIsRankedPrefix | ReportGenerator.kt:165-170 | the ranking is the first min(15, N) cost-sorted rows, the row at position i carrying rank i + 1 and otherwise unchanged |
| ContractorReport.RankingShape | ReportGenerator.kt:165-170 | there are min(15, N) rows for N eligible contractors, ranks run 1..min(15, N), and totalCost does not increase with rank |
| ContractorReport.RankedRowFacts | ReportGenerator.kt:112-170 | every ranked contractor has at least five projects; numProjects and totalCost are its project count and cost sum |
| ContractorReport.RankedContractorsDistinct | ReportGenerator.kt:109-170 | no contractor is ranked twice |
| ContractorReport.SmallContractorExcluded | ReportGenerator.kt:112-114 | a contractor with fewer than five projects is not ranked |
| ContractorReport.LargeContractorRankedOrOutspent | ReportGenerator.kt:165 | an eligible contractor is either ranked, or the table is full and its total cost is at most that of the 15th row |
| ContractorReport.FewContractorsAllRanked | ReportGenerator.kt:165 | with at most fifteen eligible contractors, every one of them is ranked |
| ContractorReport.TiedMeansEqualCost | ReportGenerator.kt:165 | two rows tie under the sort exactly when their total costs are equal |
| AnnualReport.Summarize | ReportGenerator.kt:243-262 | a row carries its group's year and type of work and the group size; overrunRate lies in [0, 100] and is 0 iff no project has negative savings; yoyChange starts at 0 |
| AnnualReport.TrendsSpec | ReportGenerator.kt:229-263 | row i summarises the i-th distinct (year, typeOfWork) pair's projects |
| AnnualReport.TrendKeysDistinct | ReportGenerator.kt:229-263 | no (year, typeOfWork) pair has two rows |
| AnnualReport.FindBaselineYear | ReportGenerator.kt:272 | `firstOrNull { fundingYear == 2021 }` returns the first 2021 row of the group (no earlier row is from 2021), or nothing when the group has no 2021 row |
| AnnualReport.YoYChange | ReportGenerator.kt:281-291 | the change is 0 for a 2021 row and for a zero baseline |
| AnnualReport.BaselineFound | ReportGenerator.kt:267-278 | when the type of work has a 2021 row, the baseline is that row's average savings |
| AnnualReport.BaselineMissing | ReportGenerator.kt:267-278 | when the type of work has no 2021 row, the baseline is 0 |
| AnnualReport.WithYoYAt | ReportGenerator.kt:269-294 | filling in the change alters only yoyChange, which is taken against the type's 2021 row, or is 0 without one |
| AnnualReport.ReportYoY | ReportGenerator.kt:267-294 | in the output, 2021 rows have change 0. Another row with a same-type 2021 row of savings b has 0 if b = 0, else (avgSavings−b)/b·100. A row without one has 0 |
| AnnualReport.ReportIsPermutation | ReportGenerator.kt:297-300 | the output is a permutation of the rows with their changes, one per (year, typeOfWork) pair |
| AnnualReport.ReportOrder | ReportGenerator.kt:297-300 | fundingYear never decreases, and within one year avgSavings never increases |
| AnnualReport.RowOrigin | ReportGenerator.kt:269-300 | every output row is one of the rows with their changes |
| AnnualReport.ReportRowFacts | ReportGenerator.kt:248-253 | every output row's group is nonempty. totalProjects is its size, avgSavings its mean savings, and overrunRate 100·#(savings<0)/size |
| AnnualReport.ReportPairsDistinct | ReportGenerator.kt:229-300 | no (year, typeOfWork) pair appears twice in the output |
| SummaryDigest.ToLong | ReportGenerator.kt:357 | `toLong()` truncates toward zero within the Long range and saturates outside it |
| SummaryDigest.TruncateTowardZero | ReportGenerator.kt:357 | the result is the integer part, never farther from zero than x and within 1 of it |
| SummaryDigest.TruncationLosesLessThanOne | ReportGenerator.kt:357 | truncation moves toward zero and loses less than one |
| SummaryDigest.SummaryCounts | ReportGenerator.kt:345-347 | the digest counts the projects and the distinct contractors and provinces. These counts are at most the project count and positive for nonempty input |
| SummaryDigest.SummaryAverageDelay | ReportGenerator.kt:348 | the mean delay is absent exactly for empty input, and otherwise lies between the smallest and the largest delay |
| SummaryDigest.SummaryTotalSavings | ReportGenerator.kt:349-357 | the total savings lie within one of the savings sum, on the zero side of it; a whole-number sum is kept exactly; a sum beyond the Long range gives that bound |
| Stats.SumBounds | ReportGenerator.kt:349 | n values between lo and hi sum to between n·lo and n·hi |
| Stats.MeanBounds | ReportGenerator.kt:348 | `average()` of nonempty values between lo and hi lies between lo and hi |
| ConsoleColumn.ShortName | ReportGenerator.kt:204-208 | a name of at most 68 UTF-16 code units is kept. A longer one becomes its first 65 units plus "...", exactly 68 units |
| ConsoleColumn.EncodeChar | ReportGenerator.kt:204-205 | a character of the Basic Multilingual Plane is one code unit equal to it, any other is a high and a low surrogate |
| ConsoleColumn.Utf16Length | ReportGenerator.kt:204 | `length` counts one unit per character plus one more per character outside the Basic Multilingual Plane |
| ConsoleColumn.BmpNameKept | ReportGenerator.kt:204-208 | a name of Basic Multilingual Plane characters is kept exactly when it has at most 68 characters |
| ConsoleColumn.AstralNameSplitsPair | ReportGenerator.kt:204-205 | a name of at least 35 characters outside the plane is cut after the high surrogate of its 33rd character, then "..." follows |
| ConsoleColumn.ShortNameIdempotent | ReportGenerator.kt:204-208 | shortening a shortened name changes nothing |
| ConsoleColumn.ShortNamesDiffer | ReportGenerator.kt:204-208 | distinct names stay distinct when both fit, or when they differ within their first 65 code units |
| KeyText.Split | ReportGenerator.kt:30 | `split("&#124;")` always yields at least one piece |
| KeyText.SplitJoinPieces | ReportGenerator.kt:30 | joining the pieces of a split back with the separator restores the text |
| KeyText.SplitPiecesFree | ReportGenerator.kt:30 | no piece holds the separator |
| KeyText.SplitNoSeparator | ReportGenerator.kt:30 | text without a separator is one piece |
| KeyText.SplitAfterFree | ReportGenerator.kt:30-32 | a separator-free first field comes off as the first piece |
| KeyText.DecodeJoinKey | ReportGenerator.kt:14-32 | a joined key always has two pieces, and reads back as its own fields iff neither holds a '&#124;' |
| KeyText.JoinKeyInjective | ReportGenerator.kt:14 | on '&#124;'-free fields, equal keys mean equal fields |
| KeyText.DecodeTruncatesSecond | ReportGenerator.kt:244-246 | with a '&#124;'-free first field, the second field reads back cut at its first '&#124;' |
| KeyText.JoinedKeysMirrorPairs | ReportGenerator.kt:13-15 | on '&#124;'-free input, grouping by the text key gives the joined pair keys in the same order |
| KeyText.AsWrittenAgrees | ReportGenerator.kt:13-32 | on '&#124;'-free input, the pairs read back from the text keys are exactly the row keys of the pair-grouped rows, in order |
| KeyText.SelectJoined | ReportGenerator.kt:13-15 | on '&#124;'-free input, the projects under a joined text key are exactly those under its pair |
| KeyText.AsWrittenGroupsAgree | ReportGenerator.kt:13-15 | on '&#124;'-free input, the text groups match the pair groups one for one, in order, holding the same projects |
| KeyText.AsWrittenRowsAgree | ReportGenerator.kt:13-58 | on '&#124;'-free input, each row the text route builds (decoded label plus the figures of its group) is the pair-grouped row at the same position |
| KeyText.RegionKeyCollision | ReportGenerator.kt:13-32 | for separator-free a, b, c, the projects (a&#124;b, c) and (a, b&#124;c) have different pairs but one text key, so the text route gives one row labelled (a, b) while the pair grouping gives two rows (e.g. "A&#124;B"/"C" and "A"/"B&#124;C" give ("A", "B")) |
| KeyText.TypeOfWorkCut | ReportGenerator.kt:229-246 | two types of work sharing a stem before a '&#124;' get distinct text keys that both read back as the stem |

## Left out

- File output: the CSV writers, the console tables and the JSON text are not modelled. This covers ReportGenerator.kt:63-101, 173-221, 303-339 and 351-363. Only their values are modelled: the rows and the digest fields. The name shortening of the console table is modelled as `ConsoleColumn.ShortName`.
- `format2Decimals` (`"%.2f"`, ReportGenerator.kt:378-380): decimal formatting is I/O and is not modelled.
- IEEE doubles: amounts are exact reals, so rounding, infinities and NaN are not modelled. The one NaN the engine can produce is the digest's average of an empty list (ReportGenerator.kt:348). `SummaryDigest.Summary` models it as `None`. The report averages are always over nonempty groups.
- DataIngestion.kt: the CSV reading, the parse helpers and the 2021..2023 funding-year filter are not part of this model; the reports take the validated projects as given. Main.kt's interactive menu is not modelled either.
- Derived fields: `costSavings` and `completionDelayDays` are taken as given record fields. The date arithmetic behind them is not modelled. The dates stay as optional fields that no report reads.
- `Int` and `Long` arithmetic is unbounded in the model. The counts and years involved stay far below 2^31.
- The `toInt()` of report 3's year text (ReportGenerator.kt:245) is not modelled, because the model groups by the year itself. A decimal year contains no '|', so it always reads back unchanged.
- AnnualReport.YoYChange: its own contract states only the zero cases. The percentage formula for the remaining case is stated by `AnnualReport.ReportYoY`.

## Findings

| source | as written | input that shows it | evidently intended | confidence | as-written member | corrected member |
|---|---|---|---|---|---|---|
| ReportGenerator.kt:13-15, 30-32 | regional groups are keyed by the text `region + "&#124;" + mainIsland` and split back on '&#124;', taking pieces 0 and 1 | two projects, one with region "A&#124;B" and island "C", the other with region "A" and island "B&#124;C": both get the key "A&#124;B&#124;C". They share one row, labelled region "A", island "B", a pair neither project has | one row per (region, mainIsland) pair, labelled with that pair | not executed | KeyText.RegionKeyCollision | RegionalReport.ReportCoversPairs |
| ReportGenerator.kt:229-231, 244-246 | annual groups are keyed by `fundingYear + "&#124;" + typeOfWork`, and typeOfWork is read back as piece 1 | types of work "Dike&#124;North" and "Dike&#124;South" in the same year: two groups whose rows are both labelled "Dike", and the 2021 baseline is then looked up under "Dike" | one row per (year, typeOfWork) pair, labelled with the full type of work | not executed | KeyText.TypeOfWorkCut | AnnualReport.TrendsSpec |

The model's reports group by the pair itself (`RegionalReport.RegionKey`, `AnnualReport.YearTypeKey`).
`KeyText.AsWrittenRowsAgree` proves that the text route gives the same rows, labels and
figures alike, whenever no region or main island holds a '|'.

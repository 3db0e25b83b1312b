/**
 * Report 1, the regional flood-mitigation efficiency summary: one row per
 * (region, mainIsland) pair, ordered by efficiency score, highest first.
 */
module RegionalReport {
  import opened Projects
  import opened Stats
  import opened Grouping
  import opened Sorting
  import opened Wrappers

  /** A project counts as highly delayed above this many days. */
  const HighDelayDays := 30

  datatype RegionalSummary = RegionalSummary(
    region: string,
    mainIsland: string,
    totalBudget: real,
    medianSavings: real,
    avgDelay: real,
    highDelayPct: real,
    efficiencyScore: real)

  function RegionKey(p: Project): (string, string)
  {
    (p.region, p.mainIsland)
  }

  predicate HighlyDelayed(p: Project)
  {
    p.completionDelayDays > HighDelayDays
  }

  /**
   * Median savings per day of average delay, in percent, held to [0, 100];
   * 0 when the average delay is not positive.
   */
  function EfficiencyScore(medianSavings: real, avgDelay: real): (r: real)
    ensures 0.0 <= r <= 100.0
    ensures avgDelay <= 0.0 ==> r == 0.0
    ensures avgDelay > 0.0 ==>
      var ratio := medianSavings / avgDelay * 100.0;
      && (0.0 <= ratio <= 100.0 ==> r == ratio)
      && (ratio < 0.0 ==> r == 0.0)
      && (ratio > 100.0 ==> r == 100.0)
  {
    var raw := if avgDelay > 0.0 then (medianSavings / avgDelay) * 100.0 else 0.0;
    Clamp(raw, 0.0, 100.0)
  }

  /** The row of one group; the grouping never produces an empty group. */
  function Summarize(key: (string, string), g: seq<Project>): (s: RegionalSummary)
    requires |g| > 0
    ensures s.region == key.0 && s.mainIsland == key.1
    ensures 0.0 <= s.highDelayPct <= 100.0
    ensures s.highDelayPct == 0.0 <==> Count(g, HighlyDelayed) == 0
    ensures 0.0 <= s.efficiencyScore <= 100.0
  {
    var medianSavings := Median(SavingsList(g));
    var avgDelay := Mean(g, DelayDays);
    RegionalSummary(
      key.0,
      key.1,
      Sum(g, ApprovedBudget),
      medianSavings,
      avgDelay,
      Percent(Count(g, HighlyDelayed), |g|),
      EfficiencyScore(medianSavings, avgDelay))
  }

  /** The rows before sorting, in the order `groupBy` yields the groups. */
  function GroupRows(projects: seq<Project>): seq<RegionalSummary>
  {
    var gs := GroupBy(projects, RegionKey);
    seq(|gs|, i requires 0 <= i < |gs| => Summarize(gs[i].0, gs[i].1))
  }

  /** `sortedByDescending { it.efficiencyScore }` */
  function ScoreBefore(a: RegionalSummary, b: RegionalSummary): bool
  {
    a.efficiencyScore > b.efficiencyScore
  }

  function Report(projects: seq<Project>): seq<RegionalSummary>
  {
    SortBy(GroupRows(projects), ScoreBefore)
  }

  lemma ScoreBeforeIsStrictWeakOrder()
    ensures StrictWeakOrder(ScoreBefore)
  {
  }

  /**
   * Before sorting there is exactly one row per distinct (region, mainIsland) pair, in
   * order of first appearance, aggregating exactly the projects carrying that pair.
   */
  lemma GroupRowsSpec(projects: seq<Project>)
    ensures var ks := Keys(projects, RegionKey);
      && |GroupRows(projects)| == |ks|
      && forall i :: 0 <= i < |ks| ==>
           && |Select(projects, RegionKey, ks[i])| > 0
           && GroupRows(projects)[i] == Summarize(ks[i], Select(projects, RegionKey, ks[i]))
  {
    GroupByIsPartition(projects, RegionKey);
  }

  /** The row of a pair adds up the budgets and counts the delayed projects of exactly that pair. */
  lemma RowTotals(projects: seq<Project>, i: nat)
    requires i < |Report(projects)|
    ensures var r := Report(projects)[i];
      var g := Select(projects, RegionKey, (r.region, r.mainIsland));
      && |g| > 0
      && (forall p :: p in g <==> p in projects && RegionKey(p) == (r.region, r.mainIsland))
      && r.totalBudget == Sum(g, ApprovedBudget)
      && r.medianSavings == Median(SavingsList(g))
      && r.avgDelay == Mean(g, DelayDays)
      && r.highDelayPct == Percent(Count(g, HighlyDelayed), |g|)
      && r.efficiencyScore == EfficiencyScore(r.medianSavings, r.avgDelay)
  {
    var r := Report(projects)[i];
    GroupRowsSpec(projects);
    assert r in multiset(GroupRows(projects));
    var k :| 0 <= k < |GroupRows(projects)| && GroupRows(projects)[k] == r;
    var key := (r.region, r.mainIsland);
    var g := Select(projects, RegionKey, key);
    forall p ensures p in g <==> p in projects && RegionKey(p) == key {
      SelectMembership(projects, RegionKey, key, p);
    }
  }

  lemma GroupRowKeys(projects: seq<Project>)
    ensures |GroupRows(projects)| == |Keys(projects, RegionKey)|
    ensures forall i :: 0 <= i < |GroupRows(projects)| ==> RowKey(GroupRows(projects)[i]) == Keys(projects, RegionKey)[i]
  {
    GroupRowsSpec(projects);
  }

  /** No (region, mainIsland) pair has two rows. */
  lemma ReportPairsDistinct(projects: seq<Project>)
    ensures forall i, j :: 0 <= i < j < |Report(projects)| ==>
      RowKey(Report(projects)[i]) != RowKey(Report(projects)[j])
  {
    var rows := GroupRows(projects);
    var ks := Keys(projects, RegionKey);
    GroupRowKeys(projects);
    KeysDistinct(projects, RegionKey);
    forall i, j | 0 <= i < j < |rows| ensures RowKey(rows[i]) != RowKey(rows[j]) {
      assert RowKey(rows[i]) == ks[i] && RowKey(rows[j]) == ks[j];
    }
    PermutationKeepsDistinct(Report(projects), rows, RowKey);
  }

  /** A reordering of rows keyed by `ks` has one row per key of `ks` and no other keys. */
  lemma PermutedRowKeys(sorted: seq<RegionalSummary>, rows: seq<RegionalSummary>, ks: seq<(string, string)>)
    requires multiset(sorted) == multiset(rows)
    requires |rows| == |ks| && forall i :: 0 <= i < |rows| ==> RowKey(rows[i]) == ks[i]
    ensures |sorted| == |ks|
    ensures forall k :: 0 <= k < |ks| ==> exists i :: 0 <= i < |sorted| && RowKey(sorted[i]) == ks[k]
    ensures forall i :: 0 <= i < |sorted| ==> RowKey(sorted[i]) in ks
  {
    assert |sorted| == |multiset(sorted)| == |multiset(rows)| == |rows|;
    forall k | 0 <= k < |ks| ensures exists i :: 0 <= i < |sorted| && RowKey(sorted[i]) == ks[k] {
      assert rows[k] in multiset(sorted);
      var i :| 0 <= i < |sorted| && sorted[i] == rows[k];
    }
    forall i | 0 <= i < |sorted| ensures RowKey(sorted[i]) in ks {
      assert sorted[i] in multiset(rows);
      var k :| 0 <= k < |rows| && rows[k] == sorted[i];
    }
  }

  /** Every pair of the input has a row. */
  lemma ReportCoversPairs(projects: seq<Project>)
    ensures |Report(projects)| == |Keys(projects, RegionKey)|
    ensures forall n :: 0 <= n < |projects| ==>
      exists i :: 0 <= i < |Report(projects)| && RowKey(Report(projects)[i]) == RegionKey(projects[n])
  {
    var rows, sorted := GroupRows(projects), Report(projects);
    var ks := Keys(projects, RegionKey);
    GroupRowKeys(projects);
    PermutedRowKeys(sorted, rows, ks);
    KeyedRowsCoverInput(projects, sorted);
  }

  lemma KeyedRowsCoverInput(projects: seq<Project>, sorted: seq<RegionalSummary>)
    requires forall k :: 0 <= k < |Keys(projects, RegionKey)| ==>
      exists i :: 0 <= i < |sorted| && RowKey(sorted[i]) == Keys(projects, RegionKey)[k]
    ensures forall n :: 0 <= n < |projects| ==>
      exists i :: 0 <= i < |sorted| && RowKey(sorted[i]) == RegionKey(projects[n])
  {
    var ks := Keys(projects, RegionKey);
    forall n | 0 <= n < |projects|
      ensures exists i :: 0 <= i < |sorted| && RowKey(sorted[i]) == RegionKey(projects[n])
    {
      KeysMembership(projects, RegionKey, RegionKey(projects[n]));
      var k :| 0 <= k < |ks| && ks[k] == RegionKey(projects[n]);
    }
  }

  /** Every row is the pair of some project of the input. */
  lemma ReportRowsFromInput(projects: seq<Project>)
    ensures forall i :: 0 <= i < |Report(projects)| ==>
      exists n :: 0 <= n < |projects| && RegionKey(projects[n]) == RowKey(Report(projects)[i])
  {
    var rows, sorted := GroupRows(projects), Report(projects);
    var ks := Keys(projects, RegionKey);
    GroupRowKeys(projects);
    PermutedRowKeys(sorted, rows, ks);
    forall i | 0 <= i < |sorted|
      ensures exists n :: 0 <= n < |projects| && RegionKey(projects[n]) == RowKey(sorted[i])
    {
      KeysMembership(projects, RegionKey, RowKey(sorted[i]));
    }
  }

  /** Every efficiency score and every high-delay share is a percentage in [0, 100]. */
  lemma ReportPercentagesBounded(projects: seq<Project>)
    ensures forall i :: 0 <= i < |Report(projects)| ==>
      0.0 <= Report(projects)[i].efficiencyScore <= 100.0 && 0.0 <= Report(projects)[i].highDelayPct <= 100.0
  {
    var rows, sorted := GroupRows(projects), Report(projects);
    GroupRowsSpec(projects);
    forall i | 0 <= i < |sorted|
      ensures 0.0 <= sorted[i].efficiencyScore <= 100.0 && 0.0 <= sorted[i].highDelayPct <= 100.0
    {
      assert sorted[i] in multiset(rows);
      var k :| 0 <= k < |rows| && rows[k] == sorted[i];
    }
  }

  function RowKey(r: RegionalSummary): (string, string)
  {
    (r.region, r.mainIsland)
  }

  /**
   * Rows come out in non-increasing efficiency score, as a reordering of the group rows;
   * rows with equal scores keep the order in which their pairs first appeared.
   */
  lemma ReportOrder(projects: seq<Project>)
    ensures multiset(Report(projects)) == multiset(GroupRows(projects))
    ensures forall i, j :: 0 <= i < j < |Report(projects)| ==>
      Report(projects)[i].efficiencyScore >= Report(projects)[j].efficiencyScore
    ensures StablyOrdered(Report(projects), GroupRows(projects), ScoreBefore)
  {
    ScoreBeforeIsStrictWeakOrder();
    SortBySorted(GroupRows(projects), ScoreBefore);
    SortByStable(GroupRows(projects), ScoreBefore);
  }

  /** Under this order two rows are tied exactly when their scores are equal. */
  lemma TiedMeansEqualScore(a: RegionalSummary, b: RegionalSummary)
    ensures Equivalent(ScoreBefore, a, b) <==> a.efficiencyScore == b.efficiencyScore
  {
  }

  /**
   * Projects that share one pair, one budget, one saving and have no delay give a single
   * row: the budgets summed, that saving as median, no delay and, because the average
   * delay is 0, an efficiency score of 0.
   */
  lemma UniformUndelayedRegion(xs: seq<Project>, region: string, island: string, budget: real, savings: real)
    requires |xs| > 0
    requires forall i :: 0 <= i < |xs| ==>
      && xs[i].region == region && xs[i].mainIsland == island
      && xs[i].approvedBudgetForContract == budget && xs[i].costSavings == savings
      && xs[i].completionDelayDays == 0
    ensures Report(xs) == [RegionalSummary(region, island, (|xs| as real) * budget, savings, 0.0, 0.0, 0.0)]
  {
    var row := RegionalSummary(region, island, (|xs| as real) * budget, savings, 0.0, 0.0, 0.0);
    SingleGroup(xs, RegionKey, (region, island));
    assert GroupRows(xs) == [Summarize((region, island), xs)];
    UniformUndelayedRow(xs, region, island, budget, savings);
    assert GroupRows(xs) == [row];
    assert [row][..0] == [];
  }

  lemma UniformUndelayedRow(xs: seq<Project>, region: string, island: string, budget: real, savings: real)
    requires |xs| > 0
    requires forall i :: 0 <= i < |xs| ==>
      && xs[i].approvedBudgetForContract == budget && xs[i].costSavings == savings
      && xs[i].completionDelayDays == 0
    ensures Summarize((region, island), xs) == RegionalSummary(region, island, (|xs| as real) * budget, savings, 0.0, 0.0, 0.0)
  {
    MedianOfConstant(SavingsList(xs), savings);
    SumConstant(xs, ApprovedBudget, budget);
    SumConstant(xs, DelayDays, 0.0);
    CountNone(xs, HighlyDelayed);
  }

  /** Five projects of region A, budget 100, cost 80 and no delay. */
  lemma FiveProjectExample(p: Project)
    requires p == Project("A", "Luzon", "Cagayan", 100.0, 80.0, None, None, 2022, "Flood Control", "C", 20.0, 0)
    ensures Report([p, p, p, p, p]) == [RegionalSummary("A", "Luzon", 500.0, 20.0, 0.0, 0.0, 0.0)]
  {
    UniformUndelayedRegion([p, p, p, p, p], "A", "Luzon", 100.0, 20.0);
  }
}

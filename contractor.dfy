/**
 * Report 2, the top contractors performance ranking: contractors with at least five
 * projects, ranked by total contract cost, highest first, cut to the top fifteen.
 */
module ContractorReport {
  import opened Projects
  import opened Stats
  import opened Grouping
  import opened Sorting

  /** Smallest number of projects for a contractor to be ranked. */
  const MinProjects := 5
  /** Number of ranked rows kept. */
  const TopCount := 15
  /** Delay, in days, at which the delay factor of the reliability index reaches 0. */
  const DelayNormalizationDays := 90.0
  /** Reliability below this is flagged as high risk. */
  const RiskThreshold := 50.0

  datatype RiskFlag = HighRisk | LowRisk
  {
    function Label(): string
    {
      if HighRisk? then "High Risk" else "Low Risk"
    }
  }

  datatype ContractorSummary = ContractorSummary(
    rank: int,
    contractor: string,
    totalCost: real,
    numProjects: int,
    avgDelay: real,
    totalSavings: real,
    reliabilityIndex: real,
    riskFlag: RiskFlag)

  function ContractorKey(p: Project): string
  {
    p.contractor
  }

  /**
   * `(1 - avgDelay / 90) * (totalSavings / totalCost) * 100` held to [0, 100];
   * 0 when the total cost is not positive.
   */
  function ReliabilityIndex(totalCost: real, avgDelay: real, totalSavings: real): (r: real)
    ensures 0.0 <= r <= 100.0
    ensures totalCost <= 0.0 ==> r == 0.0
    ensures totalCost > 0.0 ==>
      var raw := (1.0 - avgDelay / DelayNormalizationDays) * (totalSavings / totalCost) * 100.0;
      && (0.0 <= raw <= 100.0 ==> r == raw)
      && (raw < 0.0 ==> r == 0.0)
      && (raw > 100.0 ==> r == 100.0)
  {
    if totalCost > 0.0 then
      var delayFactor := 1.0 - avgDelay / DelayNormalizationDays;
      var savingsRatio := totalSavings / totalCost;
      Clamp(delayFactor * savingsRatio * 100.0, 0.0, 100.0)
    else
      0.0
  }

  function Risk(reliabilityIndex: real): (f: RiskFlag)
    ensures f == HighRisk <==> reliabilityIndex < RiskThreshold
    ensures f.Label() == "High Risk" <==> reliabilityIndex < RiskThreshold
  {
    if reliabilityIndex < RiskThreshold then HighRisk else LowRisk
  }

  /** The (not yet ranked) row of one contractor's projects. */
  function Summarize(contractor: string, g: seq<Project>): (s: ContractorSummary)
    requires |g| > 0
    ensures s.rank == 0 && s.contractor == contractor && s.numProjects == |g|
    ensures 0.0 <= s.reliabilityIndex <= 100.0
    ensures s.riskFlag == HighRisk <==> s.reliabilityIndex < RiskThreshold
  {
    var totalCost := Sum(g, ContractCost);
    var avgDelay := Mean(g, DelayDays);
    var totalSavings := Sum(g, CostSavings);
    var index := ReliabilityIndex(totalCost, avgDelay, totalSavings);
    ContractorSummary(0, contractor, totalCost, |g|, avgDelay, totalSavings, index, Risk(index))
  }

  /** The groups large enough to be ranked, in their original order. */
  function Qualifying(gs: seq<(string, seq<Project>)>): (r: seq<(string, seq<Project>)>)
    ensures forall g :: g in r <==> g in gs && |g.1| >= MinProjects
  {
    if gs == [] then []
    else (if |gs[0].1| >= MinProjects then [gs[0]] else []) + Qualifying(gs[1..])
  }

  function QualifyingRows(projects: seq<Project>): seq<ContractorSummary>
  {
    var gs := Qualifying(GroupBy(projects, ContractorKey));
    seq(|gs|, i requires 0 <= i < |gs| => Summarize(gs[i].0, gs[i].1))
  }

  /** `sortedByDescending { it.totalCost }` */
  function CostBefore(a: ContractorSummary, b: ContractorSummary): bool
  {
    a.totalCost > b.totalCost
  }

  function SortedRows(projects: seq<Project>): seq<ContractorSummary>
  {
    SortBy(QualifyingRows(projects), CostBefore)
  }

  /** `mapIndexed { index, s -> s.copy(rank = index + 1) }` */
  function Ranked(rows: seq<ContractorSummary>): (r: seq<ContractorSummary>)
    ensures |r| == |rows|
    ensures forall i :: 0 <= i < |r| ==> r[i] == rows[i].(rank := i + 1)
  {
    seq(|rows|, i requires 0 <= i < |rows| => rows[i].(rank := i + 1))
  }

  function Report(projects: seq<Project>): seq<ContractorSummary>
  {
    var sorted := SortedRows(projects);
    Ranked(sorted[..if |sorted| < TopCount then |sorted| else TopCount])
  }

  /** The contractors with at least five projects, in order of first appearance. */
  function QualifyingContractors(projects: seq<Project>): seq<string>
  {
    FilterLarge(projects, Keys(projects, ContractorKey))
  }

  function FilterLarge(projects: seq<Project>, cs: seq<string>): seq<string>
  {
    if cs == [] then []
    else (if |Select(projects, ContractorKey, cs[0])| >= MinProjects then [cs[0]] else [])
         + FilterLarge(projects, cs[1..])
  }

  function RowContractor(r: ContractorSummary): string
  {
    r.contractor
  }

  lemma CostBeforeIsStrictWeakOrder()
    ensures StrictWeakOrder(CostBefore)
  {
  }

  /** Each group is the contractor at the same place together with that contractor's projects. */
  ghost predicate PairedWith(projects: seq<Project>, gs: seq<(string, seq<Project>)>, cs: seq<string>)
  {
    |gs| == |cs| && forall i :: 0 <= i < |gs| ==> gs[i] == (cs[i], Select(projects, ContractorKey, cs[i]))
  }

  lemma PairedCons(projects: seq<Project>, g: (string, seq<Project>), c: string, gs: seq<(string, seq<Project>)>, cs: seq<string>)
    requires g == (c, Select(projects, ContractorKey, c)) && PairedWith(projects, gs, cs)
    ensures PairedWith(projects, [g] + gs, [c] + cs)
  {
    forall i | 0 <= i < |gs| + 1
      ensures ([g] + gs)[i] == (([c] + cs)[i], Select(projects, ContractorKey, ([c] + cs)[i]))
    {
      if i > 0 {
        assert ([g] + gs)[i] == gs[i - 1] && ([c] + cs)[i] == cs[i - 1];
      }
    }
  }

  /** Filtering the groups by size matches filtering the contractors by their number of projects. */
  lemma {:induction false} QualifyingOfGroups(projects: seq<Project>, gs: seq<(string, seq<Project>)>, cs: seq<string>)
    requires PairedWith(projects, gs, cs)
    ensures PairedWith(projects, Qualifying(gs), FilterLarge(projects, cs))
  {
    if gs != [] {
      var q, f := Qualifying(gs[1..]), FilterLarge(projects, cs[1..]);
      assert PairedWith(projects, gs[1..], cs[1..]) by {
        forall i | 0 <= i < |gs| - 1 ensures gs[1..][i] == (cs[1..][i], Select(projects, ContractorKey, cs[1..][i])) {
          assert gs[1..][i] == gs[i + 1] && cs[1..][i] == cs[i + 1];
        }
      }
      QualifyingOfGroups(projects, gs[1..], cs[1..]);
      assert gs[0] == (cs[0], Select(projects, ContractorKey, cs[0]));
      if |gs[0].1| >= MinProjects {
        assert Qualifying(gs) == [gs[0]] + q;
        assert FilterLarge(projects, cs) == [cs[0]] + f;
        PairedCons(projects, gs[0], cs[0], q, f);
      } else {
        assert Qualifying(gs) == q;
        assert FilterLarge(projects, cs) == f;
      }
    }
  }

  /**
   * Before sorting there is one row per contractor with at least five projects, in order
   * of first appearance, summarizing exactly that contractor's projects.
   */
  lemma QualifyingRowsSpec(projects: seq<Project>)
    ensures var cs := QualifyingContractors(projects);
      && |QualifyingRows(projects)| == |cs|
      && forall i :: 0 <= i < |cs| ==>
           && |Select(projects, ContractorKey, cs[i])| >= MinProjects
           && QualifyingRows(projects)[i] == Summarize(cs[i], Select(projects, ContractorKey, cs[i]))
  {
    var gs := GroupBy(projects, ContractorKey);
    GroupByIsPartition(projects, ContractorKey);
    assert PairedWith(projects, gs, Keys(projects, ContractorKey));
    QualifyingOfGroups(projects, gs, Keys(projects, ContractorKey));
    var q := Qualifying(gs);
    forall i | 0 <= i < |q| ensures |q[i].1| >= MinProjects {
      assert q[i] in q;
    }
  }

  lemma {:induction false} FilterLargeSpec(projects: seq<Project>, cs: seq<string>, c: string)
    ensures c in FilterLarge(projects, cs) <==> c in cs && |Select(projects, ContractorKey, c)| >= MinProjects
  {
    if cs != [] {
      FilterLargeSpec(projects, cs[1..], c);
    }
  }

  lemma {:induction false} FilterLargeDistinct(projects: seq<Project>, cs: seq<string>)
    requires Distinct(cs)
    ensures Distinct(FilterLarge(projects, cs))
  {
    if cs != [] {
      FilterLargeDistinct(projects, cs[1..]);
      FilterLargeSpec(projects, cs[1..], cs[0]);
      assert cs[0] !in cs[1..];
    }
  }

  /** A contractor qualifies exactly when it has at least five projects. */
  lemma QualifiesIff(projects: seq<Project>, c: string)
    ensures c in QualifyingContractors(projects) <==> |Select(projects, ContractorKey, c)| >= MinProjects
  {
    FilterLargeSpec(projects, Keys(projects, ContractorKey), c);
    SelectEmpty(projects, ContractorKey, c);
  }

  /** The sorted rows: a reordering of the qualifying rows by non-increasing total cost. */
  lemma SortedRowsSpec(projects: seq<Project>)
    ensures multiset(SortedRows(projects)) == multiset(QualifyingRows(projects))
    ensures |SortedRows(projects)| == |QualifyingContractors(projects)|
    ensures forall i, j :: 0 <= i < j < |SortedRows(projects)| ==>
      SortedRows(projects)[i].totalCost >= SortedRows(projects)[j].totalCost
    ensures StablyOrdered(SortedRows(projects), QualifyingRows(projects), CostBefore)
  {
    QualifyingRowsSpec(projects);
    CostBeforeIsStrictWeakOrder();
    SortBySorted(QualifyingRows(projects), CostBefore);
    SortByStable(QualifyingRows(projects), CostBefore);
  }

  /** Every sorted row is the summary of a contractor with at least five projects. */
  lemma SortedRowFacts(projects: seq<Project>, i: nat)
    requires i < |SortedRows(projects)|
    ensures var r := SortedRows(projects)[i];
      && r.contractor in QualifyingContractors(projects)
      && |Select(projects, ContractorKey, r.contractor)| >= MinProjects
      && r == Summarize(r.contractor, Select(projects, ContractorKey, r.contractor))
  {
    var rows := QualifyingRows(projects);
    QualifyingRowsSpec(projects);
    SortedRowsSpec(projects);
    assert SortedRows(projects)[i] in multiset(rows);
    var k :| 0 <= k < |rows| && rows[k] == SortedRows(projects)[i];
  }

  /**
   * The ranking has min(15, N) rows for N qualifying contractors, ranks 1, 2, ... in order
   * and non-increasing total cost.
   */
  lemma RankingShape(projects: seq<Project>)
    ensures var n := |QualifyingContractors(projects)|;
      |Report(projects)| == if n < TopCount then n else TopCount
    ensures forall i :: 0 <= i < |Report(projects)| ==> Report(projects)[i].rank == i + 1
    ensures forall i, j :: 0 <= i < j < |Report(projects)| ==>
      Report(projects)[i].totalCost >= Report(projects)[j].totalCost
  {
    SortedRowsSpec(projects);
  }

  /**
   * Each ranked row summarizes exactly one contractor with at least five projects: its
   * project count, total cost and savings, and a reliability index in [0, 100] with the
   * high-risk flag set exactly below 50.
   */
  lemma RankedRowFacts(projects: seq<Project>, i: nat)
    requires i < |Report(projects)|
    ensures var r := Report(projects)[i];
      var g := Select(projects, ContractorKey, r.contractor);
      && |g| >= MinProjects
      && r.numProjects == |g|
      && r.totalCost == Sum(g, ContractCost)
      && r.totalSavings == Sum(g, CostSavings)
      && r.avgDelay == Mean(g, DelayDays)
      && r.reliabilityIndex == ReliabilityIndex(r.totalCost, r.avgDelay, r.totalSavings)
      && 0.0 <= r.reliabilityIndex <= 100.0
      && (r.riskFlag == HighRisk <==> r.reliabilityIndex < RiskThreshold)
  {
    SortedRowsSpec(projects);
    SortedRowFacts(projects, i);
  }

  /** No contractor is ranked twice. */
  lemma RankedContractorsDistinct(projects: seq<Project>)
    ensures forall i, j :: 0 <= i < j < |Report(projects)| ==>
      Report(projects)[i].contractor != Report(projects)[j].contractor
  {
    var rows, sorted := QualifyingRows(projects), SortedRows(projects);
    var cs := QualifyingContractors(projects);
    QualifyingRowsSpec(projects);
    SortedRowsSpec(projects);
    KeysDistinct(projects, ContractorKey);
    FilterLargeDistinct(projects, Keys(projects, ContractorKey));
    forall i, j | 0 <= i < j < |rows| ensures RowContractor(rows[i]) != RowContractor(rows[j]) {
      assert RowContractor(rows[i]) == cs[i] && RowContractor(rows[j]) == cs[j];
    }
    PermutationKeepsDistinct(sorted, rows, RowContractor);
    forall i, j | 0 <= i < j < |Report(projects)|
      ensures Report(projects)[i].contractor != Report(projects)[j].contractor
    {
      assert RowContractor(sorted[i]) != RowContractor(sorted[j]);
    }
  }

  /** A contractor with fewer than five projects is never ranked. */
  lemma SmallContractorExcluded(projects: seq<Project>, c: string)
    requires |Select(projects, ContractorKey, c)| < MinProjects
    ensures forall i :: 0 <= i < |Report(projects)| ==> Report(projects)[i].contractor != c
  {
    forall i | 0 <= i < |Report(projects)|
      ensures Report(projects)[i].contractor != c
    {
      SortedRowsSpec(projects);
      SortedRowFacts(projects, i);
    }
  }

  /** The sorted rows hold the summary of every contractor with at least five projects. */
  lemma SortedRowOf(projects: seq<Project>, c: string) returns (j: nat)
    requires |Select(projects, ContractorKey, c)| >= MinProjects
    ensures j < |SortedRows(projects)|
    ensures SortedRows(projects)[j] == Summarize(c, Select(projects, ContractorKey, c))
  {
    var rows, sorted, cs := QualifyingRows(projects), SortedRows(projects), QualifyingContractors(projects);
    QualifiesIff(projects, c);
    QualifyingRowsSpec(projects);
    assert multiset(sorted) == multiset(rows);
    var k :| 0 <= k < |cs| && cs[k] == c;
    assert rows[k] in multiset(sorted);
    j :| 0 <= j < |sorted| && sorted[j] == rows[k];
  }

  /** The report is the first fifteen sorted rows, ranked by position. */
  lemma ReportIsRankedPrefix(projects: seq<Project>)
    ensures var n := |SortedRows(projects)|;
      |Report(projects)| == if n < TopCount then n else TopCount
    ensures forall i :: 0 <= i < |Report(projects)| ==>
      Report(projects)[i] == SortedRows(projects)[i].(rank := i + 1)
  {
  }

  /**
   * A contractor with at least five projects is either ranked, or fifteen contractors are
   * ranked and its total cost is at most that of the last ranked one.
   */
  lemma LargeContractorRankedOrOutspent(projects: seq<Project>, c: string)
    requires |Select(projects, ContractorKey, c)| >= MinProjects
    ensures var r := Report(projects);
      || (exists i :: 0 <= i < |r| && r[i].contractor == c)
      || (|r| == TopCount && Sum(Select(projects, ContractorKey, c), ContractCost) <= r[TopCount - 1].totalCost)
  {
    var sorted, r := SortedRows(projects), Report(projects);
    var j := SortedRowOf(projects, c);
    ReportIsRankedPrefix(projects);
    if j < |r| {
      assert r[j].contractor == c;
    } else {
      SortedRowsSpec(projects);
      assert sorted[TopCount - 1].totalCost >= sorted[j].totalCost;
      assert r[TopCount - 1].totalCost == sorted[TopCount - 1].totalCost;
    }
  }

  /** With at most fifteen qualifying contractors, every one of them is ranked. */
  lemma FewContractorsAllRanked(projects: seq<Project>, c: string)
    requires |QualifyingContractors(projects)| <= TopCount
    requires |Select(projects, ContractorKey, c)| >= MinProjects
    ensures exists i :: 0 <= i < |Report(projects)| && Report(projects)[i].contractor == c
  {
    var j := SortedRowOf(projects, c);
    SortedRowsSpec(projects);
    ReportIsRankedPrefix(projects);
    assert Report(projects)[j].contractor == c;
  }

  /** Tied total costs keep the contractors' order of first appearance. */
  lemma TiedMeansEqualCost(a: ContractorSummary, b: ContractorSummary)
    ensures Equivalent(CostBefore, a, b) <==> a.totalCost == b.totalCost
  {
  }
}

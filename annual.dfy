/**
 * Report 3, the annual project-type cost overrun trends: one row per (fundingYear,
 * typeOfWork) pair with a year-over-year change of average savings against the 2021
 * row of the same type of work, ordered by year and then by average savings, highest first.
 */
module AnnualReport {
  import opened Wrappers
  import opened Projects
  import opened Stats
  import opened Grouping
  import opened Sorting

  /** The year every other year is compared against. */
  const BaselineYear := 2021

  datatype AnnualTrend = AnnualTrend(
    fundingYear: int,
    typeOfWork: string,
    totalProjects: int,
    avgSavings: real,
    overrunRate: real,
    yoyChange: real)

  function YearTypeKey(p: Project): (int, string)
  {
    (p.fundingYear, p.typeOfWork)
  }

  predicate Overrun(p: Project)
  {
    p.costSavings < 0.0
  }

  /** The row of one group, before the year-over-year change is filled in. */
  function Summarize(key: (int, string), g: seq<Project>): (t: AnnualTrend)
    requires |g| > 0
    ensures t.fundingYear == key.0 && t.typeOfWork == key.1 && t.totalProjects == |g|
    ensures 0.0 <= t.overrunRate <= 100.0
    ensures t.overrunRate == 0.0 <==> Count(g, Overrun) == 0
    ensures t.yoyChange == 0.0
  {
    AnnualTrend(key.0, key.1, |g|, Mean(g, CostSavings), Percent(Count(g, Overrun), |g|), 0.0)
  }

  /** The rows in the order `groupBy` yields the groups. */
  function Trends(projects: seq<Project>): seq<AnnualTrend>
  {
    var gs := GroupBy(projects, YearTypeKey);
    seq(|gs|, i requires 0 <= i < |gs| => Summarize(gs[i].0, gs[i].1))
  }

  function TrendType(t: AnnualTrend): string
  {
    t.typeOfWork
  }

  function TrendKey(t: AnnualTrend): (int, string)
  {
    (t.fundingYear, t.typeOfWork)
  }

  /** Position `i` holds the first 2021 row of `g`. */
  ghost predicate FirstBaselineAt(g: seq<AnnualTrend>, i: int)
  {
    0 <= i < |g| && g[i].fundingYear == BaselineYear && forall j :: 0 <= j < i ==> g[j].fundingYear != BaselineYear
  }

  /** `firstOrNull { it.fundingYear == 2021 }` */
  function FindBaselineYear(g: seq<AnnualTrend>): (r: Option<AnnualTrend>)
    ensures r.Some? ==> r.value in g && r.value.fundingYear == BaselineYear
    ensures r.Some? ==> exists i :: FirstBaselineAt(g, i) && g[i] == r.value
    ensures r.None? ==> forall t :: t in g ==> t.fundingYear != BaselineYear
  {
    if g == [] then None
    else if g[0].fundingYear == BaselineYear then
      assert FirstBaselineAt(g, 0);
      Some(g[0])
    else
      var r := FindBaselineYear(g[1..]);
      assert forall t :: t in g ==> t == g[0] || t in g[1..];
      assert r.Some? ==> exists i :: FirstBaselineAt(g, i) && g[i] == r.value by {
        if r.Some? {
          var i :| FirstBaselineAt(g[1..], i) && g[1..][i] == r.value;
          assert FirstBaselineAt(g, i + 1) by {
            forall j | 0 <= j < i + 1 ensures g[j].fundingYear != BaselineYear {
              if j > 0 { assert g[j] == g[1..][j - 1]; }
            }
          }
        }
      }
      r
  }

  /** The 2021 average savings of a type of work, looked up in the rows grouped by type; 0.0 when absent. */
  function Baseline(byType: seq<(string, seq<AnnualTrend>)>, typeOfWork: string): real
  {
    match Lookup(byType, typeOfWork)
    case None => 0.0
    case Some(g) =>
      match FindBaselineYear(g)
      case None => 0.0
      case Some(t) => t.avgSavings
  }

  /** Percentage change of average savings from the baseline; 0 for the baseline year itself and for a zero baseline. */
  function YoYChange(t: AnnualTrend, baseline: real): (r: real)
    ensures t.fundingYear == BaselineYear ==> r == 0.0
    ensures baseline == 0.0 ==> r == 0.0
    ensures r != 0.0 ==> t.avgSavings != baseline
  {
    if t.fundingYear == BaselineYear then 0.0
    else if baseline == 0.0 then 0.0
    else ((t.avgSavings - baseline) / baseline) * 100.0
  }

  function WithYoY(trends: seq<AnnualTrend>): (r: seq<AnnualTrend>)
    ensures |r| == |trends|
    ensures forall i :: 0 <= i < |r| ==> r[i] == trends[i].(yoyChange := r[i].yoyChange)
  {
    var byType := GroupBy(trends, TrendType);
    seq(|trends|, i requires 0 <= i < |trends| =>
      trends[i].(yoyChange := YoYChange(trends[i], Baseline(byType, trends[i].typeOfWork))))
  }

  /** `compareBy { it.fundingYear }.thenByDescending { it.avgSavings }` */
  function TrendBefore(a: AnnualTrend, b: AnnualTrend): bool
  {
    a.fundingYear < b.fundingYear || (a.fundingYear == b.fundingYear && a.avgSavings > b.avgSavings)
  }

  function Report(projects: seq<Project>): seq<AnnualTrend>
  {
    SortBy(WithYoY(Trends(projects)), TrendBefore)
  }

  lemma TrendBeforeIsStrictWeakOrder()
    ensures StrictWeakOrder(TrendBefore)
  {
  }

  /**
   * Before sorting there is exactly one row per distinct (fundingYear, typeOfWork) pair,
   * in order of first appearance, summarizing exactly the projects carrying that pair.
   */
  lemma TrendsSpec(projects: seq<Project>)
    ensures var ks := Keys(projects, YearTypeKey);
      && |Trends(projects)| == |ks|
      && forall i :: 0 <= i < |ks| ==>
           && |Select(projects, YearTypeKey, ks[i])| > 0
           && Trends(projects)[i] == Summarize(ks[i], Select(projects, YearTypeKey, ks[i]))
  {
    GroupByIsPartition(projects, YearTypeKey);
  }

  lemma TrendKeysDistinct(projects: seq<Project>)
    ensures forall i, j :: 0 <= i < j < |Trends(projects)| ==>
      TrendKey(Trends(projects)[i]) != TrendKey(Trends(projects)[j])
  {
    var ks := Keys(projects, YearTypeKey);
    TrendsSpec(projects);
    KeysDistinct(projects, YearTypeKey);
    forall i, j | 0 <= i < j < |Trends(projects)|
      ensures TrendKey(Trends(projects)[i]) != TrendKey(Trends(projects)[j])
    {
      assert TrendKey(Trends(projects)[i]) == ks[i] && TrendKey(Trends(projects)[j]) == ks[j];
    }
  }

  ghost predicate IsBaselineOf(b: AnnualTrend, typeOfWork: string)
  {
    b.fundingYear == BaselineYear && b.typeOfWork == typeOfWork
  }

  /** When the type of work has a 2021 row, the lookup by type finds that row's average savings. */
  lemma BaselineFound(trends: seq<AnnualTrend>, typeOfWork: string, k: nat)
    requires forall i, j :: 0 <= i < j < |trends| ==> TrendKey(trends[i]) != TrendKey(trends[j])
    requires k < |trends| && IsBaselineOf(trends[k], typeOfWork)
    ensures Baseline(GroupBy(trends, TrendType), typeOfWork) == trends[k].avgSavings
  {
    var g := Select(trends, TrendType, typeOfWork);
    KeysMembership(trends, TrendType, typeOfWork);
    LookupGroupBy(trends, TrendType, typeOfWork);
    SelectMembership(trends, TrendType, typeOfWork, trends[k]);
    var found := FindBaselineYear(g);
    if found.Some? {
      var t := found.value;
      SelectMembership(trends, TrendType, typeOfWork, t);
      var k' :| 0 <= k' < |trends| && trends[k'] == t;
      assert TrendKey(trends[k]) == TrendKey(trends[k']);
    }
  }

  /** When the type of work has no 2021 row, the baseline is 0.0. */
  lemma BaselineMissing(trends: seq<AnnualTrend>, typeOfWork: string)
    requires forall k :: 0 <= k < |trends| ==> !IsBaselineOf(trends[k], typeOfWork)
    ensures Baseline(GroupBy(trends, TrendType), typeOfWork) == 0.0
  {
    LookupGroupBy(trends, TrendType, typeOfWork);
    var g := Select(trends, TrendType, typeOfWork);
    var found := FindBaselineYear(g);
    if found.Some? {
      SelectMembership(trends, TrendType, typeOfWork, found.value);
    }
  }

  /** The year-over-year change of each unsorted row, in terms of the 2021 row of its type. */
  lemma WithYoYAt(trends: seq<AnnualTrend>, i: nat)
    requires forall i, j :: 0 <= i < j < |trends| ==> TrendKey(trends[i]) != TrendKey(trends[j])
    requires i < |trends|
    ensures WithYoY(trends)[i] == trends[i].(yoyChange := WithYoY(trends)[i].yoyChange)
    ensures forall k :: 0 <= k < |trends| && IsBaselineOf(trends[k], trends[i].typeOfWork) ==>
      WithYoY(trends)[i].yoyChange == YoYChange(trends[i], trends[k].avgSavings)
    ensures (forall k :: 0 <= k < |trends| ==> !IsBaselineOf(trends[k], trends[i].typeOfWork)) ==>
      WithYoY(trends)[i].yoyChange == 0.0
  {
    var tw := trends[i].typeOfWork;
    forall k | 0 <= k < |trends| && IsBaselineOf(trends[k], tw)
      ensures WithYoY(trends)[i].yoyChange == YoYChange(trends[i], trends[k].avgSavings)
    {
      BaselineFound(trends, tw, k);
    }
    if forall k :: 0 <= k < |trends| ==> !IsBaselineOf(trends[k], tw) {
      BaselineMissing(trends, tw);
    }
  }

  /** The sorted rows are the unsorted rows, each carrying its year-over-year change. */
  lemma ReportIsPermutation(projects: seq<Project>)
    ensures multiset(Report(projects)) == multiset(WithYoY(Trends(projects)))
    ensures |Report(projects)| == |Keys(projects, YearTypeKey)|
  {
    TrendsSpec(projects);
  }

  /** Rows are ordered by funding year ascending and, within a year, by average savings descending. */
  lemma ReportOrder(projects: seq<Project>)
    ensures forall i, j :: 0 <= i < j < |Report(projects)| ==>
      && Report(projects)[i].fundingYear <= Report(projects)[j].fundingYear
      && (Report(projects)[i].fundingYear == Report(projects)[j].fundingYear ==>
            Report(projects)[i].avgSavings >= Report(projects)[j].avgSavings)
  {
    TrendBeforeIsStrictWeakOrder();
    SortBySorted(WithYoY(Trends(projects)), TrendBefore);
  }

  /** Each output row, traced back to its position among the unsorted rows. */
  lemma RowOrigin(projects: seq<Project>, i: nat) returns (k: nat)
    requires i < |Report(projects)|
    ensures k < |Trends(projects)|
    ensures Report(projects)[i] == WithYoY(Trends(projects))[k]
  {
    var w := WithYoY(Trends(projects));
    assert Report(projects)[i] in multiset(w);
    k :| 0 <= k < |w| && w[k] == Report(projects)[i];
  }

  ghost predicate NoBaselineIn(rows: seq<AnnualTrend>, typeOfWork: string)
  {
    forall j :: 0 <= j < |rows| ==> !IsBaselineOf(rows[j], typeOfWork)
  }

  /** Within `rows`, every change is taken against the 2021 row of the same type, or is 0 when there is none. */
  ghost predicate ChangesAgainstBaselines(rows: seq<AnnualTrend>)
  {
    && (forall i, j :: 0 <= i < |rows| && 0 <= j < |rows| && IsBaselineOf(rows[j], rows[i].typeOfWork) ==>
          rows[i].yoyChange == YoYChange(rows[i], rows[j].avgSavings))
    && (forall i :: 0 <= i < |rows| && NoBaselineIn(rows, rows[i].typeOfWork) ==> rows[i].yoyChange == 0.0)
  }

  lemma WithYoYChangesAgainstBaselines(trends: seq<AnnualTrend>)
    requires forall i, j :: 0 <= i < j < |trends| ==> TrendKey(trends[i]) != TrendKey(trends[j])
    ensures ChangesAgainstBaselines(WithYoY(trends))
  {
    var w := WithYoY(trends);
    forall i, j | 0 <= i < |w| && 0 <= j < |w| && IsBaselineOf(w[j], w[i].typeOfWork)
      ensures w[i].yoyChange == YoYChange(w[i], w[j].avgSavings)
    {
      WithYoYAt(trends, i);
      assert IsBaselineOf(trends[j], trends[i].typeOfWork);
    }
    forall i | 0 <= i < |w| && NoBaselineIn(w, w[i].typeOfWork)
      ensures w[i].yoyChange == 0.0
    {
      WithYoYAt(trends, i);
      forall k | 0 <= k < |trends| ensures !IsBaselineOf(trends[k], trends[i].typeOfWork) {
        assert !IsBaselineOf(w[k], w[i].typeOfWork);
      }
    }
  }

  lemma PermutationKeepsChanges(rows: seq<AnnualTrend>, w: seq<AnnualTrend>)
    requires multiset(rows) == multiset(w)
    requires ChangesAgainstBaselines(w)
    ensures ChangesAgainstBaselines(rows)
  {
    forall i | 0 <= i < |rows|
      ensures forall j :: 0 <= j < |rows| && IsBaselineOf(rows[j], rows[i].typeOfWork) ==> rows[i].yoyChange == YoYChange(rows[i], rows[j].avgSavings)
      ensures NoBaselineIn(rows, rows[i].typeOfWork) ==> rows[i].yoyChange == 0.0
    {
      assert rows[i] in multiset(w);
      var k :| 0 <= k < |w| && w[k] == rows[i];
      forall j | 0 <= j < |rows| && IsBaselineOf(rows[j], rows[i].typeOfWork)
        ensures rows[i].yoyChange == YoYChange(rows[i], rows[j].avgSavings)
      {
        assert rows[j] in multiset(w);
        var k' :| 0 <= k' < |w| && w[k'] == rows[j];
      }
      if NoBaselineIn(rows, rows[i].typeOfWork) {
        forall k' | 0 <= k' < |w| ensures !IsBaselineOf(w[k'], w[k].typeOfWork) {
          assert w[k'] in multiset(rows);
        }
      }
    }
  }

  /**
   * The year-over-year change of every row: 0 for a 2021 row; measured against the 2021 row
   * of the same type of work when there is one, and 0 when that row's average savings is 0;
   * and 0 when the type of work has no 2021 row.
   */
  lemma ReportYoY(projects: seq<Project>)
    ensures var rows := Report(projects);
      forall i :: 0 <= i < |rows| && rows[i].fundingYear == BaselineYear ==> rows[i].yoyChange == 0.0
    ensures var rows := Report(projects);
      forall i, j ::
        (0 <= i < |rows| && 0 <= j < |rows| && rows[i].fundingYear != BaselineYear && IsBaselineOf(rows[j], rows[i].typeOfWork)) ==>
        var b := rows[j].avgSavings;
        rows[i].yoyChange == if b == 0.0 then 0.0 else (rows[i].avgSavings - b) / b * 100.0
    ensures var rows := Report(projects);
      forall i :: 0 <= i < |rows| && NoBaselineIn(rows, rows[i].typeOfWork) ==> rows[i].yoyChange == 0.0
  {
    var trends, rows := Trends(projects), Report(projects);
    TrendKeysDistinct(projects);
    WithYoYChangesAgainstBaselines(trends);
    PermutationKeepsChanges(rows, WithYoY(trends));
    forall i | 0 <= i < |rows| && rows[i].fundingYear == BaselineYear
      ensures rows[i].yoyChange == 0.0
    {
      var k := RowOrigin(projects, i);
    }
  }

  /**
   * Each row summarizes exactly the projects of its (fundingYear, typeOfWork) pair: their
   * number, their average savings, and the share with negative savings, in [0, 100].
   */
  lemma ReportRowFacts(projects: seq<Project>, i: nat)
    requires i < |Report(projects)|
    ensures var r := Report(projects)[i];
      var g := Select(projects, YearTypeKey, (r.fundingYear, r.typeOfWork));
      && |g| > 0
      && r.totalProjects == |g|
      && r.avgSavings == Mean(g, CostSavings)
      && r.overrunRate == Percent(Count(g, Overrun), |g|)
      && 0.0 <= r.overrunRate <= 100.0
  {
    var k := RowOrigin(projects, i);
    TrendsSpec(projects);
  }

  /** No (fundingYear, typeOfWork) pair has two rows. */
  lemma ReportPairsDistinct(projects: seq<Project>)
    ensures forall i, j :: 0 <= i < j < |Report(projects)| ==>
      TrendKey(Report(projects)[i]) != TrendKey(Report(projects)[j])
  {
    var trends := Trends(projects);
    var w := WithYoY(trends);
    TrendKeysDistinct(projects);
    forall i, j | 0 <= i < j < |w| ensures TrendKey(w[i]) != TrendKey(w[j]) {
      assert TrendKey(w[i]) == TrendKey(trends[i]) && TrendKey(w[j]) == TrendKey(trends[j]);
    }
    PermutationKeepsDistinct(Report(projects), w, TrendKey);
  }
}

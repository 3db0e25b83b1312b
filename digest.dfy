/** The summary digest: counts, distinct counts, the mean delay and the truncated total savings. */
module SummaryDigest {
  import opened Wrappers
  import opened Projects
  import opened Stats
  import opened Grouping
  import ContractorReport

  const LongMin := -0x8000_0000_0000_0000
  const LongMax := 0x7FFF_FFFF_FFFF_FFFF

  /** `globalAvgDelay` is None where Kotlin's `average()` of an empty list gives NaN. */
  datatype Digest = Digest(
    totalProjects: int,
    totalContractors: int,
    totalProvinces: int,
    globalAvgDelay: Option<real>,
    totalSavings: int)

  /** Drops the fraction, rounding toward zero. */
  function TruncateTowardZero(x: real): (r: int)
    ensures x >= 0.0 ==> 0 <= r && r as real <= x < r as real + 1.0
    ensures x < 0.0 ==> r <= 0 && r as real - 1.0 < x <= r as real
  {
    if x >= 0.0 then x.Floor else -((-x).Floor)
  }

  /** `Double.toLong()`: truncation toward zero, saturating at the bounds of a 64-bit Long. */
  function ToLong(x: real): (r: int)
    ensures LongMin <= r <= LongMax
    ensures LongMin as real <= x <= LongMax as real ==> r == TruncateTowardZero(x)
    ensures x < LongMin as real ==> r == LongMin
    ensures x > LongMax as real ==> r == LongMax
  {
    if x < LongMin as real then LongMin
    else if x > LongMax as real then LongMax
    else TruncateTowardZero(x)
  }

  function ProvinceKey(p: Project): string
  {
    p.province
  }

  function Summary(projects: seq<Project>): Digest
  {
    Digest(
      |projects|,
      |Keys(projects, ContractorReport.ContractorKey)|,
      |Keys(projects, ProvinceKey)|,
      if |projects| == 0 then None else Some(Mean(projects, DelayDays)),
      ToLong(Sum(projects, CostSavings)))
  }

  /**
   * The digest counts the projects and the distinct contractors and provinces: never more
   * than the projects, and at least one of each when there are projects.
   */
  lemma SummaryCounts(projects: seq<Project>)
    ensures var d := Summary(projects);
      && d.totalProjects == |projects|
      && d.totalContractors == |set p | p in projects :: p.contractor|
      && d.totalProvinces == |set p | p in projects :: p.province|
      && d.totalContractors <= d.totalProjects && d.totalProvinces <= d.totalProjects
      && (|projects| > 0 ==> d.totalContractors > 0 && d.totalProvinces > 0)
  {
    var byContractor, byProvince := ContractorReport.ContractorKey, ProvinceKey;
    KeysCount(projects, byContractor);
    KeysCount(projects, byProvince);
    assert (set p | p in projects :: p.contractor) == KeySet(projects, byContractor);
    assert (set p | p in projects :: p.province) == KeySet(projects, byProvince);
  }

  /**
   * The mean delay is present exactly for a nonempty input, and lies between the
   * smallest and the largest delay; projects that all share one delay have that delay
   * as their mean.
   */
  lemma SummaryAverageDelay(projects: seq<Project>, lo: int, hi: int)
    requires forall i :: 0 <= i < |projects| ==> lo <= projects[i].completionDelayDays <= hi
    ensures var avg := Summary(projects).globalAvgDelay;
      && (avg.None? <==> |projects| == 0)
      && (avg.Some? ==> lo as real <= avg.value <= hi as real)
  {
    if |projects| > 0 {
      MeanBounds(projects, DelayDays, lo as real, hi as real);
    }
  }

  /**
   * The total savings in the digest are the sum of the savings cut to a whole number
   * toward zero, within one of the sum; a whole-number sum is kept exactly, and a sum
   * beyond the Long range saturates at its bound.
   */
  lemma SummaryTotalSavings(projects: seq<Project>)
    ensures var s, t := Sum(projects, CostSavings), Summary(projects).totalSavings;
      && LongMin <= t <= LongMax
      && (LongMin as real <= s <= LongMax as real ==>
            && (0.0 <= s ==> 0 <= t && t as real <= s < t as real + 1.0)
            && (s < 0.0 ==> t <= 0 && t as real - 1.0 < s <= t as real)
            && (s == s.Floor as real ==> t == s.Floor))
      && (s > LongMax as real ==> t == LongMax)
      && (s < LongMin as real ==> t == LongMin)
  {
  }

  /** Truncation never moves a value away from zero, and loses less than one. */
  lemma TruncationLosesLessThanOne(x: real)
    ensures var r := TruncateTowardZero(x) as real;
      (if x >= 0.0 then 0.0 <= r <= x else x <= r <= 0.0) && -1.0 < x - r < 1.0
  {
  }
}

/** The validated project record (FloodControlProject) and the field accessors the reports aggregate. */
module Projects {
  import opened Wrappers

  datatype Date = Date(year: int, month: int, day: int)

  /**
   * One project. `costSavings` (budget minus cost) and `completionDelayDays` are derived
   * at ingestion and taken here as given fields.
   */
  datatype Project = Project(
    region: string,
    mainIsland: string,
    province: string,
    approvedBudgetForContract: real,
    contractCost: real,
    startDate: Option<Date>,
    actualCompletionDate: Option<Date>,
    fundingYear: int,
    typeOfWork: string,
    contractor: string,
    costSavings: real,
    completionDelayDays: int)

  function ApprovedBudget(p: Project): real { p.approvedBudgetForContract }

  function ContractCost(p: Project): real { p.contractCost }

  function CostSavings(p: Project): real { p.costSavings }

  /** `completionDelayDays.toDouble()` */
  function DelayDays(p: Project): real { p.completionDelayDays as real }

  /** The savings of a group, as the list handed to `median()`. */
  function SavingsList(g: seq<Project>): (r: seq<real>)
    ensures |r| == |g| && forall i :: 0 <= i < |g| ==> r[i] == g[i].costSavings
  {
    seq(|g|, i requires 0 <= i < |g| => g[i].costSavings)
  }
}

/**
 * Rows of the two backend tables this core reads: `service_usage` and
 * `service_plans`. Timestamps are integers; a field the row may lack is an
 * Option.
 */
module Tables {
  import opened Wrappers
  import opened Seqs
  import opened Plans

  /** A `service_usage` row; `usageDates` is None when the column is null. */
  datatype UsageRecord = UsageRecord(serviceName: string, usageDates: Option<seq<int>>)

  /** A `service_plans` row; `plan` is None when the stored value is falsy. */
  datatype PlanRow = PlanRow(serviceName: string, plan: Option<Plan>)

  /** `usage_dates || []`. */
  function DatesOf(u: UsageRecord): (r: seq<int>)
    ensures u.usageDates.Some? ==> r == u.usageDates.value
    ensures u.usageDates.None? ==> r == []
  {
    u.usageDates.GetOr([])
  }

  /** Position of the first usage row for `name`. */
  function UsageIndex(rows: seq<UsageRecord>, name: string): (r: Option<nat>)
    ensures r.Some? ==> r.value < |rows| && rows[r.value].serviceName == name
    ensures r.Some? ==> forall j :: 0 <= j < r.value ==> rows[j].serviceName != name
    ensures r.None? ==> forall j :: 0 <= j < |rows| ==> rows[j].serviceName != name
  {
    FindFirst(rows, (u: UsageRecord) => u.serviceName == name)
  }

  /** Position of the first plan row for `name` (`servicePlans.find(...)`). */
  function PlanIndex(plans: seq<PlanRow>, name: string): (r: Option<nat>)
    ensures r.Some? ==> r.value < |plans| && plans[r.value].serviceName == name
    ensures r.Some? ==> forall j :: 0 <= j < r.value ==> plans[j].serviceName != name
    ensures r.None? ==> forall j :: 0 <= j < |plans| ==> plans[j].serviceName != name
  {
    FindFirst(plans, (p: PlanRow) => p.serviceName == name)
  }

  /** At most one row per service name (the table is keyed on `service_name`). */
  predicate UniqueNames(rows: seq<UsageRecord>) {
    forall i, j :: 0 <= i < j < |rows| ==> rows[i].serviceName != rows[j].serviceName
  }
}

/**
 * Recording one use of a service (the `useUpdateServiceUsage` mutation): the
 * `service_usage` table is kept in memory, and a use either appends the
 * current instant to the service's row or inserts a new row for it.
 */
module ServiceUsage {
  import opened Wrappers
  import opened Tables
  import opened UsageStats

  /** The dates recorded for `name`: empty when it has no row or its dates are null. */
  function DatesFor(rows: seq<UsageRecord>, name: string): (r: seq<int>)
    ensures (forall j :: 0 <= j < |rows| ==> rows[j].serviceName != name) ==> r == []
    ensures forall i :: 0 <= i < |rows| && rows[i].serviceName == name &&
                        (forall j :: 0 <= j < i ==> rows[j].serviceName != name) ==>
                        r == DatesOf(rows[i])
  {
    match UsageIndex(rows, name)
    case None => []
    case Some(i) => DatesOf(rows[i])
  }

  /** `update({usage_dates: dates}).eq('service_name', name)`: every row of `name` gets `dates`. */
  function SetDates(rows: seq<UsageRecord>, name: string, dates: seq<int>): (r: seq<UsageRecord>)
    ensures |r| == |rows|
    ensures forall j :: 0 <= j < |rows| ==> r[j].serviceName == rows[j].serviceName
    ensures forall j :: 0 <= j < |rows| && rows[j].serviceName == name ==> r[j].usageDates == Some(dates)
    ensures forall j :: 0 <= j < |rows| && rows[j].serviceName != name ==> r[j] == rows[j]
  {
    seq(|rows|, j requires 0 <= j < |rows| =>
      if rows[j].serviceName == name then rows[j].(usageDates := Some(dates)) else rows[j])
  }

  /**
   * The table after one use of `name` at `now`. With a row for `name`, that
   * row's dates become its old dates (none if null) followed by `now`, and the
   * table keeps its length; without one, exactly one row `{name, [now]}` is
   * added at the end. Rows of other services are untouched.
   */
  function AfterUse(rows: seq<UsageRecord>, name: string, now: int): (r: seq<UsageRecord>)
    ensures UsageIndex(rows, name).Some? ==> |r| == |rows|
    ensures UsageIndex(rows, name).Some? ==>
      var i := UsageIndex(rows, name).value;
      r[i] == UsageRecord(name, Some(DatesOf(rows[i]) + [now]))
    ensures UsageIndex(rows, name).None? ==> r == rows + [UsageRecord(name, Some([now]))]
    ensures forall j :: 0 <= j < |rows| && rows[j].serviceName != name ==> r[j] == rows[j]
  {
    match UsageIndex(rows, name)
    case None => rows + [UsageRecord(name, Some([now]))]
    case Some(i) => SetDates(rows, name, DatesOf(rows[i]) + [now])
  }

  /** A use keeps the table at one row per service name. */
  lemma {:induction false} AfterUseKeepsUnique(rows: seq<UsageRecord>, name: string, now: int)
    requires UniqueNames(rows)
    ensures UniqueNames(AfterUse(rows, name, now))
  {
    var r := AfterUse(rows, name, now);
    if UsageIndex(rows, name).Some? {
      assert forall j :: 0 <= j < |rows| ==> r[j].serviceName == rows[j].serviceName;
    } else {
      assert forall j :: 0 <= j < |rows| ==> r[j] == rows[j];
    }
  }

  /**
   * After a use, the dates of `name` are its earlier dates, unchanged and in
   * order, followed by `now`: one date longer than before (0 before when it
   * had no row).
   */
  lemma {:induction false} AfterUseAppendsDate(rows: seq<UsageRecord>, name: string, now: int)
    ensures DatesFor(AfterUse(rows, name, now), name) == DatesFor(rows, name) + [now]
    ensures |DatesFor(AfterUse(rows, name, now), name)| == |DatesFor(rows, name)| + 1
  {
    var r := AfterUse(rows, name, now);
    match UsageIndex(rows, name)
    case None =>
      assert r[|rows|].serviceName == name;
      assert forall j :: 0 <= j < |rows| ==> r[j] == rows[j];
      assert UsageIndex(r, name) == Some(|rows|);
    case Some(i) =>
      assert forall j :: 0 <= j < |rows| ==> r[j].serviceName == rows[j].serviceName;
      assert UsageIndex(r, name) == Some(i);
  }

  /** A use leaves the dates of every other service as they were. */
  lemma {:induction false} AfterUseOthersUnchanged(rows: seq<UsageRecord>, name: string, other: string, now: int)
    requires other != name
    ensures DatesFor(AfterUse(rows, name, now), other) == DatesFor(rows, other)
  {
    var r := AfterUse(rows, name, now);
    match UsageIndex(rows, other)
    case None =>
      assert UsageIndex(r, other).None?;
    case Some(i) =>
      assert r[i] == rows[i];
      assert forall j :: 0 <= j < i ==> r[j].serviceName == rows[j].serviceName || r[j] == rows[j];
      assert UsageIndex(r, other) == Some(i);
  }

  /** The monthly count the usage panel shows for `name`'s row, 0 when it has no row. */
  function CountFor(rows: seq<UsageRecord>, name: string, lo: int, hi: int): (n: nat)
    ensures n == |InMonth(DatesFor(rows, name), lo, hi)|
    ensures UsageIndex(rows, name).None? ==> n == 0
  {
    match UsageIndex(rows, name)
    case None => 0
    case Some(i) => MonthlyCount(rows[i], lo, hi)
  }

  /**
   * After a use, `name` has a row, and its count for a month is one more than
   * before exactly when `now` lies in that month's bounds.
   */
  lemma {:induction false} AfterUseMonthlyCount(rows: seq<UsageRecord>, name: string, now: int, lo: int, hi: int)
    ensures UsageIndex(AfterUse(rows, name, now), name).Some?
    ensures CountFor(AfterUse(rows, name, now), name, lo, hi) ==
      CountFor(rows, name, lo, hi) + (if lo <= now <= hi then 1 else 0)
  {
    AfterUseAppendsDate(rows, name, now);
    MonthlyCountAppend(DatesFor(rows, name), now, lo, hi);
  }

  /** The in-memory `service_usage` table. */
  class UsageTable {
    var rows: seq<UsageRecord>

    /** One row per service name, which the lookup by `maybeSingle` relies on. */
    ghost predicate Valid()
      reads this
    {
      UniqueNames(rows)
    }

    constructor (initial: seq<UsageRecord>)
      requires UniqueNames(initial)
      ensures Valid() && rows == initial
    {
      rows := initial;
    }

    /**
     * The mutation for one use of `serviceName` at `now`: look the row up;
     * if there is one, write its dates plus `now` to every row of that name,
     * otherwise insert `{serviceName, [now]}`.
     */
    method RecordUse(serviceName: string, now: int)
      requires Valid()
      modifies this
      ensures Valid()
      ensures rows == AfterUse(old(rows), serviceName, now)
    {
      AfterUseKeepsUnique(rows, serviceName, now);
      var existing := UsageIndex(rows, serviceName);
      if existing.Some? {
        var updatedDates := DatesOf(rows[existing.value]) + [now];
        ghost var before := rows;
        var k := 0;
        while k < |rows|
          invariant 0 <= k <= |rows| == |before|
          invariant forall j :: 0 <= j < k ==> rows[j] == SetDates(before, serviceName, updatedDates)[j]
          invariant forall j :: k <= j < |rows| ==> rows[j] == before[j]
        {
          if rows[k].serviceName == serviceName {
            rows := rows[k := rows[k].(usageDates := Some(updatedDates))];
          }
          k := k + 1;
        }
        assert rows == SetDates(before, serviceName, updatedDates);
      } else {
        rows := rows + [UsageRecord(serviceName, Some([now]))];
      }
    }
  }
}

/**
 * The monthly usage and cost aggregation of the usage-statistics panel
 * (`calculateMonthlyStats`). The calendar month is given as inclusive integer
 * bounds `lo`..`hi`; cost per use is kept in integer cents.
 */
module UsageStats {
  import opened Wrappers
  import opened Seqs
  import opened Plans
  import opened Tables

  /** One bar of the chart: name, uses this month, cost per use (cents), monthly price, plan. */
  datatype ServiceStat = ServiceStat(
    name: string,
    monthlyCount: nat,
    costPerUseCents: nat,
    monthlyPrice: nat,
    plan: Plan)

  /**
   * The plan of the first assignment for `name`, `free` when there is none or
   * when its stored plan is falsy.
   */
  function ResolvePlan(plans: seq<PlanRow>, name: string): (r: Plan)
    ensures (forall j :: 0 <= j < |plans| ==> plans[j].serviceName != name) ==> r == Free
    ensures forall i :: 0 <= i < |plans| && plans[i].serviceName == name &&
                        (forall j :: 0 <= j < i ==> plans[j].serviceName != name) ==>
                        r == PlanOrFree(plans[i].plan)
  {
    match PlanIndex(plans, name)
    case None => Free
    case Some(i) => PlanOrFree(plans[i].plan)
  }

  /** The timestamps `d` with `lo <= d <= hi`, in their original order. */
  function InMonth(dates: seq<int>, lo: int, hi: int): (r: seq<int>)
    ensures |r| <= |dates|
    ensures forall i :: 0 <= i < |r| ==> r[i] in dates && lo <= r[i] <= hi
    ensures forall i :: 0 <= i < |dates| && lo <= dates[i] <= hi ==> dates[i] in r
  {
    if |dates| == 0 then []
    else (if lo <= dates[0] <= hi then [dates[0]] else []) + InMonth(dates[1..], lo, hi)
  }

  lemma {:induction false} InMonthAppend(a: seq<int>, b: seq<int>, lo: int, hi: int)
    ensures InMonth(a + b, lo, hi) == InMonth(a, lo, hi) + InMonth(b, lo, hi)
  {
    if |a| == 0 {
      assert a + b == b;
    } else {
      assert (a + b)[1..] == a[1..] + b;
      InMonthAppend(a[1..], b, lo, hi);
    }
  }

  /** Every timestamp inside the bounds is counted, so the count is the whole list. */
  lemma {:induction false} InMonthAllInside(dates: seq<int>, lo: int, hi: int)
    requires forall i :: 0 <= i < |dates| ==> lo <= dates[i] <= hi
    ensures InMonth(dates, lo, hi) == dates
  {
    if |dates| > 0 {
      InMonthAllInside(dates[1..], lo, hi);
    }
  }

  /** Uses within the month; `lo` and `hi` both count, a record without dates gives 0. */
  function MonthlyCount(u: UsageRecord, lo: int, hi: int): (n: nat)
    ensures n <= |DatesOf(u)|
    ensures u.usageDates.None? ==> n == 0
  {
    |InMonth(DatesOf(u), lo, hi)|
  }

  /**
   * One more timestamp raises the monthly count by one exactly when it falls
   * inside the inclusive bounds: the last instant `hi` counts, `hi + 1` does not.
   */
  lemma {:induction false} MonthlyCountAppend(dates: seq<int>, d: int, lo: int, hi: int)
    ensures |InMonth(dates + [d], lo, hi)| == |InMonth(dates, lo, hi)| + (if lo <= d <= hi then 1 else 0)
  {
    InMonthAppend(dates, [d], lo, hi);
    assert InMonth([d], lo, hi) == (if lo <= d <= hi then [d] else []) + InMonth([], lo, hi);
  }

  /**
   * Cost per use in cents: the monthly price itself when nothing was used,
   * otherwise `price / count` rounded half-up to the cent. It never exceeds the
   * monthly price, and with at least one use it is the cent nearest to
   * `price / count`, a tie going up:
   * `2 * r * count - count <= 200 * price < 2 * r * count + count`.
   */
  function CostPerUseCents(price: nat, count: nat): (r: nat)
    ensures count == 0 ==> r == 100 * price
    ensures r <= 100 * price
    ensures count > 0 ==> 2 * r * count <= 200 * price + count
    ensures count > 0 ==> 200 * price < 2 * r * count + count
  {
    if count == 0 then 100 * price
    else
      RoundedQuotientBounds(price, count);
      (200 * price + count) / (2 * count)
  }

  lemma {:induction false} RoundedQuotientBounds(price: nat, count: nat)
    requires count > 0
    ensures var r := (200 * price + count) / (2 * count);
      && r <= 100 * price
      && 2 * r * count <= 200 * price + count
      && 200 * price < 2 * r * count + count
  {
    var n := 200 * price + count;
    var m := 2 * count;
    var r := n / m;
    DivBounds(n, m);
    assert m * r <= n < m * r + m;
    assert m * r == 2 * r * count;
    if r > 100 * price {
      MulMonotone(m, 100 * price + 1, r);
      assert m * (100 * price + 1) == 200 * price * count + 2 * count;
      MulMonotone(200 * price, 1, count);
    }
  }

  lemma {:induction false} DivBounds(n: nat, m: nat)
    requires m > 0
    ensures m * (n / m) <= n < m * (n / m) + m
  {
  }

  lemma {:induction false} MulMonotone(a: nat, b: nat, c: nat)
    requires b <= c
    ensures a * b <= a * c
  {
  }

  /** The statistic for one usage record. */
  function Stat(u: UsageRecord, plans: seq<PlanRow>, lo: int, hi: int): (s: ServiceStat)
    ensures s.name == u.serviceName && s.plan == ResolvePlan(plans, u.serviceName)
    ensures s.monthlyPrice == Price(s.plan)
    ensures s.monthlyCount == MonthlyCount(u, lo, hi) && s.monthlyCount <= |DatesOf(u)|
    ensures s.costPerUseCents == CostPerUseCents(s.monthlyPrice, s.monthlyCount)
    ensures s.monthlyCount == 0 ==> s.costPerUseCents == 100 * s.monthlyPrice
    ensures s.costPerUseCents <= 100 * s.monthlyPrice
  {
    var plan := ResolvePlan(plans, u.serviceName);
    var price := Price(plan);
    var count := MonthlyCount(u, lo, hi);
    ServiceStat(u.serviceName, count, CostPerUseCents(price, count), price, plan)
  }

  /** Whether a usage record resolves to the free plan. */
  predicate OnFreePlan(plans: seq<PlanRow>, u: UsageRecord)
    ensures OnFreePlan(plans, u) <==> Price(ResolvePlan(plans, u.serviceName)) == 0
  {
    ResolvePlan(plans, u.serviceName) == Free
  }

  /** The statistic, or nothing when only paid plans are shown and this one is free. */
  function StatOrSkip(u: UsageRecord, plans: seq<PlanRow>, lo: int, hi: int, paidOnly: bool): (r: Option<ServiceStat>)
    ensures r.None? <==> paidOnly && OnFreePlan(plans, u)
    ensures r.Some? ==> r.value == Stat(u, plans, lo, hi)
  {
    if paidOnly && ResolvePlan(plans, u.serviceName) == Free then None
    else Some(Stat(u, plans, lo, hi))
  }

  /** `usageData.map(...)`: one entry per usage record, `None` where the record is skipped. */
  function StatsOf(usage: seq<UsageRecord>, plans: seq<PlanRow>, lo: int, hi: int, paidOnly: bool): (r: seq<Option<ServiceStat>>)
    ensures |r| == |usage|
  {
    if |usage| == 0 then []
    else [StatOrSkip(usage[0], plans, lo, hi, paidOnly)] + StatsOf(usage[1..], plans, lo, hi, paidOnly)
  }

  lemma {:induction false} StatsOfAt(usage: seq<UsageRecord>, plans: seq<PlanRow>, lo: int, hi: int, paidOnly: bool)
    ensures forall i :: 0 <= i < |usage| ==>
      StatsOf(usage, plans, lo, hi, paidOnly)[i] == StatOrSkip(usage[i], plans, lo, hi, paidOnly)
  {
    if |usage| > 0 {
      StatsOfAt(usage[1..], plans, lo, hi, paidOnly);
      var r := StatsOf(usage, plans, lo, hi, paidOnly);
      forall i | 0 < i < |usage| ensures r[i] == StatOrSkip(usage[i], plans, lo, hi, paidOnly) {
        assert usage[i] == usage[1..][i - 1];
      }
    }
  }

  lemma {:induction false} StatsOfAppend(u1: seq<UsageRecord>, u2: seq<UsageRecord>, plans: seq<PlanRow>, lo: int, hi: int, paidOnly: bool)
    ensures StatsOf(u1 + u2, plans, lo, hi, paidOnly) == StatsOf(u1, plans, lo, hi, paidOnly) + StatsOf(u2, plans, lo, hi, paidOnly)
  {
    if |u1| == 0 {
      assert u1 + u2 == u2;
    } else {
      assert (u1 + u2)[1..] == u1[1..] + u2;
      StatsOfAppend(u1[1..], u2, plans, lo, hi, paidOnly);
    }
  }

  /**
   * `calculateMonthlyStats`: empty when either input is absent; otherwise one
   * statistic per usage record, in record order, free ones dropped under
   * `paidOnly`.
   */
  function MonthlyStats(usage: Option<seq<UsageRecord>>, plans: Option<seq<PlanRow>>, lo: int, hi: int, paidOnly: bool): (r: seq<ServiceStat>)
    ensures usage.None? || plans.None? ==> r == []
    ensures usage.Some? ==> |r| <= |usage.value|
  {
    if usage.None? || plans.None? then []
    else Compact(StatsOf(usage.value, plans.value, lo, hi, paidOnly))
  }

  /**
   * Every statistic in the output is the statistic of some usage record that
   * was not skipped; in particular no free service appears under `paidOnly`,
   * and every price is the price of the plan shown beside it.
   */
  lemma {:induction false} MonthlyStatsSound(usage: seq<UsageRecord>, plans: seq<PlanRow>, lo: int, hi: int, paidOnly: bool)
    ensures forall s :: s in MonthlyStats(Some(usage), Some(plans), lo, hi, paidOnly) ==>
      exists i :: 0 <= i < |usage| && s == Stat(usage[i], plans, lo, hi) && (paidOnly ==> !OnFreePlan(plans, usage[i]))
    ensures paidOnly ==> forall s :: s in MonthlyStats(Some(usage), Some(plans), lo, hi, paidOnly) ==> s.plan != Free
    ensures forall s :: s in MonthlyStats(Some(usage), Some(plans), lo, hi, paidOnly) ==> s.monthlyPrice == Price(s.plan)
  {
    var all := StatsOf(usage, plans, lo, hi, paidOnly);
    var r := Compact(all);
    StatsOfAt(usage, plans, lo, hi, paidOnly);
    CompactMembers(all);
    forall s | s in r
      ensures exists i :: 0 <= i < |usage| && s == Stat(usage[i], plans, lo, hi) && (paidOnly ==> !OnFreePlan(plans, usage[i]))
    {
      var j :| 0 <= j < |r| && r[j] == s;
      var k :| 0 <= k < |all| && all[k] == Some(s);
      assert all[k] == StatOrSkip(usage[k], plans, lo, hi, paidOnly);
    }
  }

  /** Without `paidOnly` there is exactly one statistic per usage record, at the same position. */
  lemma {:induction false} MonthlyStatsComplete(usage: seq<UsageRecord>, plans: seq<PlanRow>, lo: int, hi: int)
    ensures |MonthlyStats(Some(usage), Some(plans), lo, hi, false)| == |usage|
    ensures forall i :: 0 <= i < |usage| ==>
      MonthlyStats(Some(usage), Some(plans), lo, hi, false)[i] == Stat(usage[i], plans, lo, hi)
  {
    StatsOfAt(usage, plans, lo, hi, false);
    CompactAllPresent(StatsOf(usage, plans, lo, hi, false));
  }

  lemma {:induction false} CountNoneIsFreeCount(usage: seq<UsageRecord>, plans: seq<PlanRow>, lo: int, hi: int)
    ensures CountNone(StatsOf(usage, plans, lo, hi, true)) == Count(usage, u => OnFreePlan(plans, u))
  {
    if |usage| > 0 {
      CountNoneIsFreeCount(usage[1..], plans, lo, hi);
    }
  }

  /**
   * With `paidOnly` the free services are removed rather than replaced: the
   * output is shorter by exactly the number of free records and holds the
   * statistic of every paid record.
   */
  lemma {:induction false} MonthlyStatsPaidOnly(usage: seq<UsageRecord>, plans: seq<PlanRow>, lo: int, hi: int)
    ensures |MonthlyStats(Some(usage), Some(plans), lo, hi, true)| ==
      |usage| - Count(usage, u => OnFreePlan(plans, u))
    ensures forall i :: 0 <= i < |usage| && !OnFreePlan(plans, usage[i]) ==>
      Stat(usage[i], plans, lo, hi) in MonthlyStats(Some(usage), Some(plans), lo, hi, true)
  {
    var all := StatsOf(usage, plans, lo, hi, true);
    CountNoneIsFreeCount(usage, plans, lo, hi);
    StatsOfAt(usage, plans, lo, hi, true);
    CompactMembers(all);
    forall i | 0 <= i < |usage| && !OnFreePlan(plans, usage[i])
      ensures Stat(usage[i], plans, lo, hi) in Compact(all)
    {
      assert all[i] == Some(Stat(usage[i], plans, lo, hi));
    }
  }

  /**
   * The output follows the order of the usage records: the statistics of a
   * concatenation are the statistics of each part, one after the other.
   */
  lemma {:induction false} MonthlyStatsOrder(u1: seq<UsageRecord>, u2: seq<UsageRecord>, plans: seq<PlanRow>, lo: int, hi: int, paidOnly: bool)
    ensures MonthlyStats(Some(u1 + u2), Some(plans), lo, hi, paidOnly) ==
      MonthlyStats(Some(u1), Some(plans), lo, hi, paidOnly) + MonthlyStats(Some(u2), Some(plans), lo, hi, paidOnly)
  {
    StatsOfAppend(u1, u2, plans, lo, hi, paidOnly);
    CompactAppend(StatsOf(u1, plans, lo, hi, paidOnly), StatsOf(u2, plans, lo, hi, paidOnly));
  }

  /** A record with no dates this month costs its flat monthly price per use. */
  lemma {:induction false} NoUseCostsMonthlyPrice(u: UsageRecord, plans: seq<PlanRow>, lo: int, hi: int)
    requires DatesOf(u) == []
    ensures Stat(u, plans, lo, hi).monthlyCount == 0
    ensures Stat(u, plans, lo, hi).costPerUseCents == 100 * Price(ResolvePlan(plans, u.serviceName))
  {
  }

  /** Three uses within the month on the basic plan cost 3.00 per use. */
  lemma {:induction false} ThreeBasicUses(name: string, lo: int, hi: int)
    requires lo + 27 <= hi
    ensures var s := Stat(UsageRecord(name, Some([lo + 2, lo + 14, lo + 27])), [PlanRow(name, Some(Basic))], lo, hi);
      s.monthlyCount == 3 && s.costPerUseCents == 300 && s.plan == Basic
  {
    var dates := [lo + 2, lo + 14, lo + 27];
    InMonthAllInside(dates, lo, hi);
    assert ResolvePlan([PlanRow(name, Some(Basic))], name) == Basic;
  }
}

/** Subscription tiers and their fixed monthly prices (the `PLAN_PRICES` table). */
module Plans {
  import opened Wrappers

  datatype Plan = Free | Basic | Pro

  /** The most expensive tier's price. */
  const MaxPrice: nat := 19

  /** Monthly price in whole dollars: free 0, basic 9, pro 19. */
  function Price(p: Plan): (r: nat)
    ensures r == 0 <==> p == Free
    ensures r <= MaxPrice
    ensures r == MaxPrice <==> p == Pro
  {
    match p
    case Free => 0
    case Basic => 9
    case Pro => 19
  }

  /** A stored plan with the JavaScript default `plan || 'free'` applied. */
  function PlanOrFree(stored: Option<Plan>): (r: Plan)
    ensures stored.Some? ==> r == stored.value
    ensures stored.None? ==> r == Free
  {
    stored.GetOr(Free)
  }
}

/**
 * The subscription page: the service catalogue and its grouping by category,
 * the local name-to-plan map folded from the saved plan rows, the total
 * monthly cost and the count of paid subscriptions.
 */
module Subscriptions {
  import opened Wrappers
  import opened Plans
  import opened Tables
  import opened Seqs

  datatype ServiceDescriptor = ServiceDescriptor(name: string, url: string, category: string)

  /** The catalogue of known services (`SERVICES`), in display order. */
  const Services: seq<ServiceDescriptor> := [
    ServiceDescriptor("ChatGPT", "https://chat.openai.com/", "Conversational AI"),
    ServiceDescriptor("Claude", "https://www.anthropic.com/", "Conversational AI"),
    ServiceDescriptor("GPT-Engineer", "https://gptengineer.app/", "AI Development"),
    ServiceDescriptor("v0", "https://v0.dev/", "AI Development"),
    ServiceDescriptor("Cosor", "https://www.cosor.com.tw/", "AI Development"),
    ServiceDescriptor("create", "https://www.create.xyz/", "AI Development"),
    ServiceDescriptor("Dify", "https://dify.ai/", "Backend Services"),
    ServiceDescriptor("Supabase", "https://supabase.com/", "Backend Services"),
    ServiceDescriptor("Google Cloud Console", "https://console.cloud.google.com/", "Cloud Services"),
    ServiceDescriptor("Twitter", "https://twitter.com", "Launch Services"),
    ServiceDescriptor("Facebook", "https://facebook.com", "Launch Services"),
    ServiceDescriptor("LinkedIn", "https://linkedin.com", "Launch Services"),
    ServiceDescriptor("PR Times", "https://prtimes.jp", "Launch Services"),
    ServiceDescriptor("Product Hunt", "https://www.producthunt.com", "Launch Services"),
    ServiceDescriptor("Note", "https://note.com", "Launch Services"),
    ServiceDescriptor("Udemy", "https://www.udemy.com/", "Launch Services"),
    ServiceDescriptor("GenSpark", "https://www.genspark.ai/", "Search"),
    ServiceDescriptor("Felo", "https://felo.ai/ja/search", "Search"),
    ServiceDescriptor("Perplexity", "https://www.perplexity.ai/", "Search")
  ]

  // ---------------------------------------------------------------------------
  // Grouping the catalogue by category

  /** The services of category `c`, in catalogue order. */
  function InCategory(services: seq<ServiceDescriptor>, c: string): (r: seq<ServiceDescriptor>)
    ensures |r| <= |services|
  {
    if |services| == 0 then []
    else
      var last := services[|services| - 1];
      InCategory(services[..|services| - 1], c) + (if last.category == c then [last] else [])
  }

  /** A category's group holds exactly the catalogue's services of that category. */
  lemma {:induction false} InCategoryMembers(services: seq<ServiceDescriptor>, c: string)
    ensures forall x :: x in InCategory(services, c) ==> x in services && x.category == c
    ensures forall i :: 0 <= i < |services| && services[i].category == c ==> services[i] in InCategory(services, c)
  {
    var n := |services|;
    if n > 0 {
      var front := services[..n - 1];
      InCategoryMembers(front, c);
      forall i | 0 <= i < n - 1 && services[i].category == c ensures services[i] in InCategory(services, c) {
        assert services[i] == front[i];
      }
    }
  }

  /** The categories that occur in the catalogue. */
  function Categories(services: seq<ServiceDescriptor>): set<string> {
    set i | 0 <= i < |services| :: services[i].category
  }

  /** The categories in the order they first occur in the catalogue. */
  function CategoryOrder(services: seq<ServiceDescriptor>): (r: seq<string>)
    ensures |r| <= |services|
    ensures forall i, j :: 0 <= i < j < |r| ==> r[i] != r[j]
    ensures forall i :: 0 <= i < |services| ==> services[i].category in r
  {
    if |services| == 0 then []
    else
      var front := CategoryOrder(services[..|services| - 1]);
      var c := services[|services| - 1].category;
      if c in front then front else front + [c]
  }

  lemma {:induction false} CategoryOrderSnoc(services: seq<ServiceDescriptor>, s: ServiceDescriptor)
    ensures CategoryOrder(services + [s]) ==
      if s.category in CategoryOrder(services) then CategoryOrder(services)
      else CategoryOrder(services) + [s.category]
  {
    assert (services + [s])[..|services|] == services;
  }

  /** Total size of the groups listed in `order`. */
  function SumSizes(order: seq<string>, groups: map<string, seq<ServiceDescriptor>>): nat
    requires forall i :: 0 <= i < |order| ==> order[i] in groups
  {
    if |order| == 0 then 0
    else SumSizes(order[..|order| - 1], groups) + |groups[order[|order| - 1]]|
  }

  lemma {:induction false} SumSizesFrame(order: seq<string>, g1: map<string, seq<ServiceDescriptor>>, g2: map<string, seq<ServiceDescriptor>>)
    requires forall i :: 0 <= i < |order| ==> order[i] in g1 && order[i] in g2 && |g1[order[i]]| == |g2[order[i]]|
    ensures SumSizes(order, g1) == SumSizes(order, g2)
  {
    if |order| > 0 {
      SumSizesFrame(order[..|order| - 1], g1, g2);
    }
  }

  /** Growing one listed group by one grows the total by one. */
  lemma {:induction false} SumSizesGrow(order: seq<string>, groups: map<string, seq<ServiceDescriptor>>, c: string, s: ServiceDescriptor)
    requires forall i :: 0 <= i < |order| ==> order[i] in groups
    requires forall i, j :: 0 <= i < j < |order| ==> order[i] != order[j]
    requires c in order
    ensures c in groups
    ensures SumSizes(order, groups[c := groups[c] + [s]]) == SumSizes(order, groups) + 1
  {
    var n := |order|;
    var front := order[..n - 1];
    var g2 := groups[c := groups[c] + [s]];
    if order[n - 1] == c {
      assert c !in front by {
        forall i | 0 <= i < |front| ensures front[i] != c {
          assert front[i] == order[i];
        }
      }
      SumSizesFrame(front, groups, g2);
    } else {
      assert c in front;
      SumSizesGrow(front, groups, c, s);
    }
  }

  /** The state of the accumulator after grouping `services`. */
  predicate Grouped(services: seq<ServiceDescriptor>, order: seq<string>, groups: map<string, seq<ServiceDescriptor>>) {
    && (forall i, j :: 0 <= i < j < |order| ==> order[i] != order[j])
    && (forall i :: 0 <= i < |order| ==> order[i] in groups)
    && (forall c :: c in groups ==> c in order)
    && groups.Keys == Categories(services)
    && (forall c :: c in groups ==> groups[c] == InCategory(services, c))
    && SumSizes(order, groups) == |services|
  }

  lemma {:induction false} GroupedIntro(services: seq<ServiceDescriptor>, order: seq<string>, groups: map<string, seq<ServiceDescriptor>>)
    requires forall i, j :: 0 <= i < j < |order| ==> order[i] != order[j]
    requires forall i :: 0 <= i < |order| ==> order[i] in groups
    requires forall c :: c in groups ==> c in order
    requires groups.Keys == Categories(services)
    requires forall c :: c in groups ==> groups[c] == InCategory(services, c)
    requires SumSizes(order, groups) == |services|
    ensures Grouped(services, order, groups)
  {
  }

  lemma {:induction false} InCategorySnoc(services: seq<ServiceDescriptor>, s: ServiceDescriptor, c: string)
    ensures InCategory(services + [s], c) == InCategory(services, c) + (if s.category == c then [s] else [])
  {
    assert (services + [s])[..|services|] == services;
  }

  lemma {:induction false} CategoriesSnoc(services: seq<ServiceDescriptor>, s: ServiceDescriptor)
    ensures Categories(services + [s]) == Categories(services) + {s.category}
  {
    var t := services + [s];
    assert t[|services|] == s;
    forall c | c in Categories(t) ensures c in Categories(services) + {s.category} {
      var i :| 0 <= i < |t| && t[i].category == c;
      if i < |services| { assert t[i] == services[i]; }
    }
    forall c | c in Categories(services) ensures c in Categories(t) {
      var i :| 0 <= i < |services| && services[i].category == c;
      assert t[i] == services[i];
    }
  }

  /** A category with no service has an empty group. */
  lemma {:induction false} InCategoryAbsent(services: seq<ServiceDescriptor>, c: string)
    requires c !in Categories(services)
    ensures InCategory(services, c) == []
  {
    var n := |services|;
    if n > 0 {
      var front := services[..n - 1];
      assert c !in Categories(front) by {
        forall i | 0 <= i < |front| ensures front[i].category != c {
          assert front[i] == services[i];
        }
      }
      InCategoryAbsent(front, c);
      assert services[n - 1].category in Categories(services);
    }
  }

  /** Appending a key not yet present keeps the order duplicate-free and within the map. */
  lemma {:induction false} OrderAppendFresh(order: seq<string>, groups: map<string, seq<ServiceDescriptor>>, c: string, v: seq<ServiceDescriptor>)
    requires forall i, j :: 0 <= i < j < |order| ==> order[i] != order[j]
    requires forall i :: 0 <= i < |order| ==> order[i] in groups
    requires c !in groups
    ensures forall i, j :: 0 <= i < j < |order + [c]| ==> (order + [c])[i] != (order + [c])[j]
    ensures forall i :: 0 <= i < |order + [c]| ==> (order + [c])[i] in groups[c := v]
    ensures (order + [c])[..|order|] == order
  {
    var order' := order + [c];
    forall i, j | 0 <= i < j < |order'| ensures order'[i] != order'[j] {
      if j < |order| { assert order'[i] == order[i] && order'[j] == order[j]; }
      else { assert order'[i] == order[i] && order[i] in groups; }
    }
    forall i | 0 <= i < |order'| ensures order'[i] in groups[c := v] {
      if i < |order| { assert order'[i] == order[i]; }
    }
  }

  /** Each group still holds exactly its category's services after one more service. */
  lemma {:induction false} GroupContentsSnoc(services: seq<ServiceDescriptor>, groups: map<string, seq<ServiceDescriptor>>, s: ServiceDescriptor, v: seq<ServiceDescriptor>)
    requires forall c :: c in groups ==> groups[c] == InCategory(services, c)
    requires v == InCategory(services, s.category) + [s]
    ensures forall c :: c in groups[s.category := v] ==> groups[s.category := v][c] == InCategory(services + [s], c)
  {
    forall c | c in groups[s.category := v] ensures groups[s.category := v][c] == InCategory(services + [s], c) {
      InCategorySnoc(services, s, c);
    }
  }

  /** Listing a new key adds the size of its group. */
  lemma {:induction false} SumSizesAppendFresh(order: seq<string>, groups: map<string, seq<ServiceDescriptor>>, c: string, v: seq<ServiceDescriptor>)
    requires forall i :: 0 <= i < |order| ==> order[i] in groups
    requires c !in groups
    ensures forall i :: 0 <= i < |order + [c]| ==> (order + [c])[i] in groups[c := v]
    ensures SumSizes(order + [c], groups[c := v]) == SumSizes(order, groups) + |v|
  {
    var order' := order + [c];
    assert order'[..|order|] == order;
    forall i | 0 <= i < |order'| ensures order'[i] in groups[c := v] {
      if i < |order| { assert order'[i] == order[i]; }
    }
    SumSizesFrame(order, groups, groups[c := v]);
  }

  /** The first service of a category opens a new group at the end of the order. */
  lemma {:induction false} GroupNew(services: seq<ServiceDescriptor>, order: seq<string>, groups: map<string, seq<ServiceDescriptor>>, s: ServiceDescriptor)
    requires Grouped(services, order, groups)
    requires s.category !in groups
    ensures Grouped(services + [s], order + [s.category], groups[s.category := [s]])
  {
    var t, order', groups' := services + [s], order + [s.category], groups[s.category := [s]];
    NewGroupOrder(order, groups, s);
    NewGroupContents(services, groups, s);
    GroupedIntro(t, order', groups');
  }

  lemma {:induction false} NewGroupOrder(order: seq<string>, groups: map<string, seq<ServiceDescriptor>>, s: ServiceDescriptor)
    requires forall i, j :: 0 <= i < j < |order| ==> order[i] != order[j]
    requires forall i :: 0 <= i < |order| ==> order[i] in groups
    requires forall c :: c in groups ==> c in order
    requires s.category !in groups
    ensures forall i, j :: 0 <= i < j < |order + [s.category]| ==> (order + [s.category])[i] != (order + [s.category])[j]
    ensures forall i :: 0 <= i < |order + [s.category]| ==> (order + [s.category])[i] in groups[s.category := [s]]
    ensures forall c :: c in groups[s.category := [s]] ==> c in order + [s.category]
    ensures SumSizes(order + [s.category], groups[s.category := [s]]) == SumSizes(order, groups) + 1
  {
    OrderAppendFresh(order, groups, s.category, [s]);
    SumSizesAppendFresh(order, groups, s.category, [s]);
  }

  lemma {:induction false} NewGroupContents(services: seq<ServiceDescriptor>, groups: map<string, seq<ServiceDescriptor>>, s: ServiceDescriptor)
    requires groups.Keys == Categories(services)
    requires forall c :: c in groups ==> groups[c] == InCategory(services, c)
    requires s.category !in groups
    ensures groups[s.category := [s]].Keys == Categories(services + [s])
    ensures forall c :: c in groups[s.category := [s]] ==> groups[s.category := [s]][c] == InCategory(services + [s], c)
  {
    CategoriesSnoc(services, s);
    InCategoryAbsent(services, s.category);
    GroupContentsSnoc(services, groups, s, [s]);
  }

  /** A later service of a category is pushed onto its category's group. */
  lemma {:induction false} GroupPush(services: seq<ServiceDescriptor>, order: seq<string>, groups: map<string, seq<ServiceDescriptor>>, s: ServiceDescriptor)
    requires Grouped(services, order, groups)
    requires s.category in groups
    ensures Grouped(services + [s], order, groups[s.category := groups[s.category] + [s]])
  {
    var t, groups' := services + [s], groups[s.category := groups[s.category] + [s]];
    assert groups'.Keys == Categories(t) by {
      CategoriesSnoc(services, s);
    }
    assert forall c :: c in groups' ==> groups'[c] == InCategory(t, c) by {
      GroupContentsSnoc(services, groups, s, groups[s.category] + [s]);
    }
    assert SumSizes(order, groups') == |t| by {
      SumSizesGrow(order, groups, s.category, s);
    }
    assert forall i :: 0 <= i < |order| ==> order[i] in groups';
    GroupedIntro(t, order, groups');
  }

  /** What a finished accumulator says about its catalogue. */
  lemma {:induction false} GroupedFacts(services: seq<ServiceDescriptor>, order: seq<string>, groups: map<string, seq<ServiceDescriptor>>)
    requires Grouped(services, order, groups)
    ensures forall i, j :: 0 <= i < j < |order| ==> order[i] != order[j]
    ensures forall c :: c in order <==> c in groups
    ensures groups.Keys == Categories(services)
    ensures forall c :: c in groups ==> groups[c] == InCategory(services, c)
    ensures forall c, i :: c in groups && 0 <= i < |services| ==>
      (services[i] in groups[c] <==> services[i].category == c)
    ensures SumSizes(order, groups) == |services|
  {
    forall c, i | c in groups && 0 <= i < |services| && services[i] in groups[c]
      ensures services[i].category == c
    {
      InCategoryMembers(services, c);
    }
    forall c, i | c in groups && 0 <= i < |services| && services[i].category == c
      ensures services[i] in groups[c]
    {
      InCategoryMembers(services, c);
    }
  }

  /** The group map after pushing every service onto its category's array, in order. */
  function GroupMap(services: seq<ServiceDescriptor>): (g: map<string, seq<ServiceDescriptor>>)
    ensures forall i :: 0 <= i < |services| ==> services[i].category in g
    ensures forall c :: c in g ==> g[c] != []
  {
    if |services| == 0 then map[]
    else
      var g := GroupMap(services[..|services| - 1]);
      var s := services[|services| - 1];
      g[s.category := if s.category in g then g[s.category] + [s] else [s]]
  }

  lemma {:induction false} GroupMapSnoc(services: seq<ServiceDescriptor>, s: ServiceDescriptor)
    ensures GroupMap(services + [s]) ==
      var g := GroupMap(services);
      g[s.category := if s.category in g then g[s.category] + [s] else [s]]
  {
    assert (services + [s])[..|services|] == services;
  }

  /** A category has been listed exactly when it has a group. */
  lemma {:induction false} OrderMatchesKeys(services: seq<ServiceDescriptor>, c: string)
    ensures c in CategoryOrder(services) <==> c in GroupMap(services)
  {
    var n := |services|;
    if n > 0 {
      OrderMatchesKeys(services[..n - 1], c);
    }
  }

  /** Folding the whole catalogue yields a well-formed grouping of it. */
  lemma {:induction false} GroupingInvariant(services: seq<ServiceDescriptor>)
    ensures Grouped(services, CategoryOrder(services), GroupMap(services))
  {
    var n := |services|;
    if n == 0 {
      assert Categories(services) == {};
    } else {
      var front, s := services[..n - 1], services[n - 1];
      assert services == front + [s];
      GroupingInvariant(front);
      OrderMatchesKeys(front, s.category);
      CategoryOrderSnoc(front, s);
      GroupMapSnoc(front, s);
      if s.category !in GroupMap(front) {
        GroupNew(front, CategoryOrder(front), GroupMap(front), s);
      } else {
        GroupPush(front, CategoryOrder(front), GroupMap(front), s);
      }
    }
  }

  /**
   * `groupedServices`: the category-keyed object built by pushing each
   * service onto its category's array. `order` is the order in which the
   * categories first received a service, which is the order the page lists
   * them in.
   */
  method GroupByCategory(services: seq<ServiceDescriptor>)
      returns (order: seq<string>, groups: map<string, seq<ServiceDescriptor>>)
    ensures order == CategoryOrder(services) && groups == GroupMap(services)
    ensures forall i, j :: 0 <= i < j < |order| ==> order[i] != order[j]
    ensures forall c :: c in order <==> c in groups
    ensures groups.Keys == Categories(services)
    ensures forall c :: c in groups ==> groups[c] == InCategory(services, c)
    ensures forall c, i :: c in groups && 0 <= i < |services| ==>
      (services[i] in groups[c] <==> services[i].category == c)
    ensures SumSizes(order, groups) == |services|
  {
    order, groups := [], map[];
    var k := 0;
    while k < |services|
      invariant 0 <= k <= |services|
      invariant order == CategoryOrder(services[..k])
      invariant groups == GroupMap(services[..k])
    {
      var s := services[k];
      PrefixSnoc(services, k);
      CategoryOrderSnoc(services[..k], s);
      GroupMapSnoc(services[..k], s);
      OrderMatchesKeys(services[..k], s.category);
      if s.category !in groups {
        order, groups := order + [s.category], groups[s.category := [s]];
      } else {
        groups := groups[s.category := groups[s.category] + [s]];
      }
      k := k + 1;
    }
    assert services[..k] == services;
    GroupingInvariant(services);
    GroupedFacts(services, order, groups);
  }

  // ---------------------------------------------------------------------------
  // The local plan map

  /** The names that have a saved plan row. */
  function RowNames(rows: seq<PlanRow>): set<string> {
    set i | 0 <= i < |rows| :: rows[i].serviceName
  }

  /** The plan map after writing the rows in order, each `plans[name] = plan`. */
  function PlanMapOf(rows: seq<PlanRow>): (m: map<string, Option<Plan>>)
    ensures forall n :: n in m ==> exists i :: 0 <= i < |rows| && rows[i].serviceName == n && m[n] == rows[i].plan
  {
    if |rows| == 0 then map[]
    else
      var last := rows[|rows| - 1];
      PlanMapOf(rows[..|rows| - 1])[last.serviceName := last.plan]
  }

  /**
   * The `useEffect` that rebuilds the local plans whenever the saved rows
   * arrive: with no rows yet the current map is kept.
   */
  method SyncLocalPlans(saved: Option<seq<PlanRow>>, current: map<string, Option<Plan>>)
      returns (next: map<string, Option<Plan>>)
    ensures saved.None? ==> next == current
    ensures saved.Some? ==> next == PlanMapOf(saved.value)
  {
    if saved.None? {
      return current;
    }
    var rows := saved.value;
    var plans: map<string, Option<Plan>> := map[];
    var k := 0;
    while k < |rows|
      invariant 0 <= k <= |rows|
      invariant plans == PlanMapOf(rows[..k])
    {
      assert rows[..k + 1][..k] == rows[..k];
      plans := plans[rows[k].serviceName := rows[k].plan];
      k := k + 1;
    }
    assert rows[..k] == rows;
    next := plans;
  }

  /** Exactly the names that have a row get a key. */
  lemma {:induction false} PlanMapKeys(rows: seq<PlanRow>)
    ensures PlanMapOf(rows).Keys == RowNames(rows)
  {
    if |rows| > 0 {
      var front := rows[..|rows| - 1];
      PlanMapKeys(front);
      assert RowNames(rows) == RowNames(front) + {rows[|rows| - 1].serviceName} by {
        forall n | n in RowNames(rows) ensures n in RowNames(front) + {rows[|rows| - 1].serviceName} {
          var i :| 0 <= i < |rows| && rows[i].serviceName == n;
          if i < |rows| - 1 { assert front[i] == rows[i]; }
        }
        forall n | n in RowNames(front) ensures n in RowNames(rows) {
          var i :| 0 <= i < |front| && front[i].serviceName == n;
          assert rows[i] == front[i];
        }
      }
    }
  }

  /** Last write wins: a name maps to the plan of its last row. */
  lemma {:induction false} PlanMapLastWriteWins(rows: seq<PlanRow>, i: nat)
    requires i < |rows|
    requires forall j :: i < j < |rows| ==> rows[j].serviceName != rows[i].serviceName
    ensures rows[i].serviceName in PlanMapOf(rows)
    ensures PlanMapOf(rows)[rows[i].serviceName] == rows[i].plan
  {
    var n := |rows|;
    if i < n - 1 {
      var front := rows[..n - 1];
      assert front[i] == rows[i];
      PlanMapLastWriteWins(front, i);
    }
  }

  // ---------------------------------------------------------------------------
  // Cost summary

  /** `localServicePlans[name] || 'free'`. */
  function LocalPlan(local: map<string, Option<Plan>>, name: string): (r: Plan)
    ensures r == Free <==> name !in local || local[name] == None || local[name] == Some(Free)
    ensures r != Free ==> local[name] == Some(r)
  {
    if name in local then PlanOrFree(local[name]) else Free
  }

  /** The per-row price badge: zero exactly when the row is unassigned, falsy or free. */
  function DisplayedPrice(local: map<string, Option<Plan>>, name: string): (r: nat)
    ensures r <= MaxPrice
    ensures name !in local ==> r == 0
    ensures r == 0 <==> name !in local || local[name] == None || local[name] == Some(Free)
  {
    Price(LocalPlan(local, name))
  }

  /** `calculateTotalCost`: the registry's prices summed, each service once. */
  function TotalCost(services: seq<ServiceDescriptor>, local: map<string, Option<Plan>>): (r: nat)
    ensures r <= MaxPrice * |services|
  {
    if |services| == 0 then 0
    else TotalCost(services[..|services| - 1], local) + DisplayedPrice(local, services[|services| - 1].name)
  }

  /** The page's total over the 19-entry catalogue is at most 19 * 19 dollars. */
  lemma {:induction false} ServicesTotalBound(local: map<string, Option<Plan>>)
    ensures |Services| == 19
    ensures TotalCost(Services, local) <= 19 * 19
  {
  }

  /** With no assignments every service is free and the total is 0. */
  lemma {:induction false} TotalCostNoPlans(services: seq<ServiceDescriptor>)
    ensures TotalCost(services, map[]) == 0
  {
    if |services| > 0 {
      TotalCostNoPlans(services[..|services| - 1]);
    }
  }

  /** A one-entry catalogue costs exactly that entry's displayed price. */
  lemma {:induction false} TotalCostSingle(s: ServiceDescriptor, local: map<string, Option<Plan>>)
    ensures TotalCost([s], local) == DisplayedPrice(local, s.name)
  {
    assert [s][..0] == [];
  }

  /** The total of a concatenated catalogue is the sum of the parts' totals. */
  lemma {:induction false} TotalCostAppend(a: seq<ServiceDescriptor>, b: seq<ServiceDescriptor>, local: map<string, Option<Plan>>)
    ensures TotalCost(a + b, local) == TotalCost(a, local) + TotalCost(b, local)
    decreases |b|
  {
    if |b| == 0 {
      assert a + b == a;
    } else {
      assert (a + b)[..|a + b| - 1] == a + b[..|b| - 1];
      TotalCostAppend(a, b[..|b| - 1], local);
    }
  }

  /** The total does not depend on the order of the catalogue. */
  lemma {:induction false} TotalCostPermutation(a: seq<ServiceDescriptor>, b: seq<ServiceDescriptor>, local: map<string, Option<Plan>>)
    requires multiset(a) == multiset(b)
    ensures TotalCost(a, local) == TotalCost(b, local)
    decreases |a|
  {
    if |a| == 0 {
      assert |b| == |multiset(b)| == 0;
    } else {
      var n := |a|;
      var x := a[n - 1];
      assert a == a[..n - 1] + [x];
      assert x in multiset(b);
      var k :| 0 <= k < |b| && b[k] == x;
      assert b == b[..k] + [x] + b[k + 1..];
      var rest := b[..k] + b[k + 1..];
      assert multiset(a[..n - 1]) == multiset(a) - multiset{x};
      assert multiset(rest) == multiset(b) - multiset{x};
      TotalCostPermutation(a[..n - 1], rest, local);
      TotalCostAppend(b[..k], b[k + 1..], local);
      TotalCostAppend(b[..k] + [x], b[k + 1..], local);
      assert TotalCost(b[..k] + [x], local) == TotalCost(b[..k], local) + DisplayedPrice(local, x.name);
      assert TotalCost(a, local) == TotalCost(a[..n - 1], local) + DisplayedPrice(local, x.name);
    }
  }

  /** An assignment for a name outside the catalogue leaves the total unchanged. */
  lemma {:induction false} TotalCostIgnoresUnregistered(services: seq<ServiceDescriptor>, local: map<string, Option<Plan>>, name: string, p: Option<Plan>)
    requires forall i :: 0 <= i < |services| ==> services[i].name != name
    ensures TotalCost(services, local[name := p]) == TotalCost(services, local)
  {
    if |services| > 0 {
      TotalCostIgnoresUnregistered(services[..|services| - 1], local, name, p);
    }
  }

  /**
   * `getPaidServicesCount`: the map entries whose plan is not `'free'`, counted
   * over the assignments rather than the catalogue.
   */
  function PaidCount(local: map<string, Option<Plan>>): (r: nat)
    ensures r <= |local|
  {
    var paid := set k | k in local && local[k] != Some(Free);
    assert paid <= local.Keys;
    SubsetCard(paid, local.Keys);
    |paid|
  }

  lemma {:induction false} SubsetCard(a: set<string>, b: set<string>)
    requires a <= b
    ensures |a| <= |b|
    decreases |b|
  {
    if a != {} {
      var x :| x in a;
      SubsetCard(a - {x}, b - {x});
    }
  }

  /** The paid count never exceeds the number of distinct names with a saved row. */
  lemma {:induction false} PaidCountOfRows(rows: seq<PlanRow>)
    ensures PaidCount(PlanMapOf(rows)) <= |RowNames(rows)|
  {
    PlanMapKeys(rows);
    assert |PlanMapOf(rows)| == |PlanMapOf(rows).Keys|;
  }

  /**
   * The two figures disagree on a paid assignment for a name outside the
   * catalogue: it is counted as a paid subscription but adds nothing to the
   * total.
   */
  lemma {:induction false} UnregisteredPaidAssignment(services: seq<ServiceDescriptor>, name: string, p: Plan)
    requires forall i :: 0 <= i < |services| ==> services[i].name != name
    requires p != Free
    ensures PaidCount(map[name := Some(p)]) == 1
    ensures TotalCost(services, map[name := Some(p)]) == 0
  {
    var m: map<string, Option<Plan>> := map[name := Some(p)];
    assert (set k | k in m && m[k] != Some(Free)) == {name};
    TotalCostIgnoresUnregistered(services, map[], name, Some(p));
    TotalCostNoPlans(services);
  }

  /**
   * A stored plan that is falsy counts as paid (`plan !== 'free'`) while its
   * row is priced as free (`plan || 'free'`).
   */
  lemma {:induction false} FalsyPlanCountedAsPaid(name: string)
    ensures PaidCount(map[name := None]) == 1
    ensures DisplayedPrice(map[name := None], name) == 0
  {
    var m: map<string, Option<Plan>> := map[name := None];
    assert (set k | k in m && m[k] != Some(Free)) == {name};
  }

  /** When every stored plan is a real plan, the paid entries are exactly the priced ones. */
  lemma {:induction false} PaidCountMatchesPricedEntries(local: map<string, Option<Plan>>)
    requires forall k :: k in local ==> local[k].Some?
    ensures PaidCount(local) == |set k | k in local && DisplayedPrice(local, k) > 0|
  {
    assert (set k | k in local && local[k] != Some(Free)) == (set k | k in local && DisplayedPrice(local, k) > 0);
  }
}

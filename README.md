# devfast dashboard: verified model of its data transformations

The devfast dashboard is a React front end over Supabase tables. This project
models in Dafny the small data transformations inside it and proves their
properties:

- **Monthly usage statistics** (`calculateMonthlyStats`). For each
  `service_usage` row it does four things. It resolves the service's plan from
  the `service_plans` rows: the first row with that name counts, and the plan
  defaults to `free`. It drops free services when only paid plans are shown.
  It counts this month's usage timestamps. It derives a cost per use.
- **Subscription summary**, which has four parts:
  - the fixed catalogue `SERVICES` and its grouping by category
    (`groupedServices`);
  - the local name-to-plan map folded from the saved plan rows, where the last
    write wins;
  - the registry-driven total monthly cost (`calculateTotalCost`);
  - the assignment-driven paid count (`getPaidServicesCount`).
- **Notes** (`sanitizeMemos`). It flattens stored memo records into one list of
  `{id, text, tool}` notes. The `addNote` guard submits a draft only when its
  trimmed text is non-empty, and resets the draft once the insert succeeds.
- **Usage recording** (`useUpdateServiceUsage`). One use either appends the
  current instant to the service's `usage_dates` or inserts a new row holding
  just that instant. The table is an object (`ServiceUsage.UsageTable`) whose
  method updates its rows in place.

Modelling conventions:

- A plan is one of `Free | Basic | Pro`, priced 0, 9 and 19.
- A stored field that JavaScript would treat as falsy (`null`, `undefined`,
  `''`) is `None` of an `Option`.
- Timestamps are integers. The month is a pair of inclusive bounds `lo`, `hi`,
  given as parameters. The current instant `now` is a parameter too.
- Costs per use are integer cents.

The model follows the code as written, also where a reader might expect
otherwise:

- A plan row whose plan is falsy resolves to `free` for pricing
  (`plan || 'free'`). The same row still counts as paid in the paid count,
  because the code tests `plan !== 'free'`. One might expect only basic and
  pro assignments to count as paid. `Subscriptions.FalsyPlanCountedAsPaid`
  states the code's behaviour. `Subscriptions.PaidCountMatchesPricedEntries`
  shows the two readings agree whenever every stored plan is a real plan.

Modules:

- `Wrappers`: `Option`.
- `Seqs`: first-match search, `filter(Boolean)` as `Compact`, and
  `flat()` as `Flatten`.
- `Plans`: the plan enum and the price table.
- `Tables`: the `service_usage` and `service_plans` rows.
- `UsageStats`: `calculateMonthlyStats`.
- `Subscriptions`: the subscription page.
- `Notes`: the notes page.
- `ServiceUsage`: recording a use.

## Model

| member | source | states |
|---|---|---|
| Plans.Price | src/components/ServiceUsageStats.jsx:17-21 | the price of a plan is 0 exactly for free and is at most 19, with 19 exactly for pro (the same table is `PLAN_PRICES` at src/pages/Subscriptions.jsx:12-16) |
| Tables.PlanIndex | src/components/ServiceUsageStats.jsx:36 | `find` by service name: the index found has that name and no earlier row has it; none is found only when no row has it |
| Tables.DatesOf | src/integrations/supabase/hooks/useServiceUsage.js:33 | `usage_dates`, defaulting to `[]`: the stored dates when present, the empty list when the column is null |
| Tables.UsageIndex | src/integrations/supabase/hooks/useServiceUsage.js:25-29 | the lookup of a service's usage row: the index found has that name and no earlier row has it; none is found only when no row has it |
| UsageStats.ResolvePlan | src/components/ServiceUsageStats.jsx:36 | the plan is that of the first row with the service's name, defaulting to free when that plan is falsy; with no such row it is free |
| UsageStats.InMonth | src/components/ServiceUsageStats.jsx:44-47 | the dates kept are dates of the record within `lo..hi` inclusive, and every date of the record within the bounds is kept |
| UsageStats.InMonthAppend | src/components/ServiceUsageStats.jsx:44-47 | the month filter keeps the dates' order: filtering a concatenation is the concatenation of the filtered parts |
| UsageStats.InMonthAllInside | src/components/ServiceUsageStats.jsx:44-47 | when every date is within the bounds, nothing is dropped |
| UsageStats.MonthlyCount | src/components/ServiceUsageStats.jsx:44-47 | the monthly count never exceeds the number of stored dates, and a missing `usage_dates` gives 0 |
| UsageStats.MonthlyCountAppend | src/components/ServiceUsageStats.jsx:44-47 | one more date raises the count by one exactly when it lies within the bounds, both of which count |
| UsageStats.CostPerUseCents | src/components/ServiceUsageStats.jsx:49-51 | with no use the cost per use is the monthly price; with uses it is price/count rounded to the nearest cent, ties up (`2*r*count - count <= 200*price < 2*r*count + count`); it never exceeds the monthly price |
| UsageStats.Stat | src/components/ServiceUsageStats.jsx:35-59 | a statistic carries the record's name and resolved plan, the plan's price as monthly price, the record's monthly count (at most its stored dates) and the rounded cost per use of that price over that count, which is at most the monthly price and equal to it when the count is 0 |
| UsageStats.StatOrSkip | src/components/ServiceUsageStats.jsx:40-42 | a record is skipped exactly when only paid plans are shown and it resolves to free; otherwise its statistic is produced |
| UsageStats.OnFreePlan | src/components/ServiceUsageStats.jsx:40 | a record is on the free plan exactly when the price of its resolved plan is 0 |
| UsageStats.StatsOf | src/components/ServiceUsageStats.jsx:34-60 | the `map` step yields exactly one entry per usage record |
| UsageStats.StatsOfAt | src/components/ServiceUsageStats.jsx:34-60 | entry `i` of the `map` step is the statistic of record `i`, or nothing when that record is a skipped free service |
| UsageStats.StatsOfAppend | src/components/ServiceUsageStats.jsx:34-60 | the `map` step of a concatenation is the concatenation of the parts' `map` steps |
| UsageStats.MonthlyStats | src/components/ServiceUsageStats.jsx:27-62 | the result is empty when the usage list or the plan list is absent, and is never longer than the usage list |
| UsageStats.MonthlyStatsSound | src/components/ServiceUsageStats.jsx:34-61 | every output entry is the statistic of some usage record that the paid-only filter keeps; under paid-only no entry is on the free plan; every monthly price is the price of the plan beside it |
| UsageStats.MonthlyStatsComplete | src/components/ServiceUsageStats.jsx:34-61 | without paid-only there is exactly one entry per usage record, entry `i` being record `i`'s statistic |
| UsageStats.CountNoneIsFreeCount | src/components/ServiceUsageStats.jsx:40-42 | under paid-only the skipped entries are exactly the records on the free plan |
| UsageStats.MonthlyStatsPaidOnly | src/components/ServiceUsageStats.jsx:40-61 | under paid-only, free services are removed rather than replaced: the output is shorter than the usage list by exactly the number of free records and holds every paid record's statistic |
| UsageStats.MonthlyStatsOrder | src/components/ServiceUsageStats.jsx:34-61 | the output keeps usage-record order: the statistics of a concatenation are those of each part, in turn |
| UsageStats.NoUseCostsMonthlyPrice | src/components/ServiceUsageStats.jsx:49-51 | a record with no dates has count 0 and a cost per use equal to its monthly price |
| UsageStats.ThreeBasicUses | src/components/ServiceUsageStats.jsx:36-51 | three in-month uses on the basic plan: count 3 and 3.00 per use |
| Seqs.Compact | src/components/ServiceUsageStats.jsx:61 | `filter(Boolean)` drops exactly the absent entries: the length falls by their number |
| Seqs.FindFirst | src/components/ServiceUsageStats.jsx:36 | `find`: the index found satisfies the predicate and no earlier element does; none only when no element does |
| Seqs.CompactMembers | src/components/ServiceUsageStats.jsx:61 | `filter(Boolean)` keeps only present entries and keeps every present entry |
| Seqs.CompactAppend | src/components/ServiceUsageStats.jsx:61 | `filter(Boolean)` keeps relative order: it distributes over concatenation |
| Seqs.CompactAllPresent | src/components/ServiceUsageStats.jsx:61 | with no absent entries, `filter(Boolean)` only unwraps, position by position |
| Seqs.Flatten | src/pages/Notes.jsx:63 | `flat()` has as many elements as the inner arrays together |
| Seqs.FlattenAppend | src/pages/Notes.jsx:63 | `flat()` distributes over concatenation |
| Plans.PlanOrFree | src/components/ServiceUsageStats.jsx:36 | the `'free'` default of a plan lookup: a stored plan is kept, a falsy one becomes free |
| Subscriptions.ServicesTotalBound | src/pages/Subscriptions.jsx:18-38 | the catalogue `SERVICES` has 19 entries, so the page's total is at most 19 * 19 |
| Subscriptions.CategoryOrder | src/pages/Subscriptions.jsx:40-46 | the key order of the grouping lists no category twice, lists the category of every service, and is no longer than the catalogue |
| Subscriptions.GroupMap | src/pages/Subscriptions.jsx:40-46 | the reduce gives every service's category a group, and no group is empty |
| Subscriptions.InCategory | src/pages/Subscriptions.jsx:40-46 | a category's group is never longer than the catalogue |
| Subscriptions.InCategoryMembers | src/pages/Subscriptions.jsx:40-46 | a category's group holds only catalogue services of that category, and all of them |
| Subscriptions.CategoryOrderSnoc | src/pages/Subscriptions.jsx:41-43 | a service whose category has not appeared yet appends that category to the key order; otherwise the order is unchanged |
| Subscriptions.GroupMapSnoc | src/pages/Subscriptions.jsx:41-44 | one reduce step: a category not yet seen gets the group `[service]`, a seen one gets the service pushed at its end |
| Subscriptions.OrderMatchesKeys | src/pages/Subscriptions.jsx:40-46 | a category appears in the key order exactly when it has a group |
| Subscriptions.GroupNew | src/pages/Subscriptions.jsx:41-44 | opening a new group for a new category keeps the accumulator a well-formed grouping of the catalogue read so far |
| Subscriptions.GroupPush | src/pages/Subscriptions.jsx:44 | pushing onto an existing group keeps the accumulator a well-formed grouping of the catalogue read so far |
| Subscriptions.GroupingInvariant | src/pages/Subscriptions.jsx:40-46 | the fold over the whole catalogue is a well-formed grouping: distinct keys, one group per category, each group that category's services in catalogue order, sizes summing to the catalogue length |
| Subscriptions.GroupedFacts | src/pages/Subscriptions.jsx:40-46 | a well-formed grouping puts each service into the group keyed by its own category and into no other |
| Subscriptions.GroupByCategory | src/pages/Subscriptions.jsx:40-46 | the reduce loop yields keys in first-appearance order with no duplicate; each service is in exactly the group of its category; groups keep catalogue order; group sizes sum to the catalogue length |
| Subscriptions.SyncLocalPlans | src/pages/Subscriptions.jsx:53-61 | before the saved rows have loaded (`undefined` or `null`) the local map is kept; any array, even an empty one, rebuilds it as the map written row by row |
| Subscriptions.PlanMapOf | src/pages/Subscriptions.jsx:55-58 | every key of the folded map is the name of some saved row, and its value is that row's plan |
| Subscriptions.PlanMapKeys | src/pages/Subscriptions.jsx:55-58 | exactly the names that have a saved row get a key |
| Subscriptions.PlanMapLastWriteWins | src/pages/Subscriptions.jsx:55-58 | a name maps to the plan of its last row |
| Subscriptions.LocalPlan | src/pages/Subscriptions.jsx:105 | the row's plan, `localServicePlans[name]` defaulting to `'free'`, is free exactly when the name is unassigned or its plan is falsy or free; any other plan is the stored one |
| Subscriptions.DisplayedPrice | src/pages/Subscriptions.jsx:105-119 | the per-row price is at most 19, and it is 0 exactly when the name has no assignment or a falsy or free one |
| Subscriptions.TotalCost | src/pages/Subscriptions.jsx:74-79 | the total is at most 19 times the number of catalogue entries |
| Subscriptions.TotalCostNoPlans | src/pages/Subscriptions.jsx:74-79 | with no assignments the total is 0 |
| Subscriptions.TotalCostAppend | src/pages/Subscriptions.jsx:74-79 | the total of a concatenated catalogue is the sum of the parts' totals |
| Subscriptions.TotalCostSingle | src/pages/Subscriptions.jsx:74-79 | a one-entry catalogue costs exactly that entry's displayed price; with the append lemma this makes the total the sum of the row prices |
| Subscriptions.TotalCostPermutation | src/pages/Subscriptions.jsx:74-79 | the total does not depend on the catalogue's order |
| Subscriptions.TotalCostIgnoresUnregistered | src/pages/Subscriptions.jsx:74-79 | an assignment for a name outside the catalogue does not change the total |
| Subscriptions.PaidCount | src/pages/Subscriptions.jsx:81-83 | the paid count never exceeds the number of assigned names |
| Subscriptions.PaidCountOfRows | src/pages/Subscriptions.jsx:81-83 | the paid count after the fold never exceeds the number of distinct names among the saved rows |
| Subscriptions.UnregisteredPaidAssignment | src/pages/Subscriptions.jsx:74-83 | a paid assignment for a name outside the catalogue is counted as paid but adds nothing to the total |
| Subscriptions.FalsyPlanCountedAsPaid | src/pages/Subscriptions.jsx:76-82 | a falsy stored plan is counted as paid although its row is priced as free |
| Subscriptions.PaidCountMatchesPricedEntries | src/pages/Subscriptions.jsx:81-83 | when every stored plan is a real plan, the paid entries are exactly those with a positive price |
| Notes.NoteOf | src/pages/Notes.jsx:58-62 | a note carries the record's id; text and tool are copied when present and default to the empty string when falsy |
| Notes.IsValidRecord | src/pages/Notes.jsx:57 | a null record is invalid; a non-null record is valid exactly when its memo is an array |
| Notes.NotesPerRecord | src/pages/Notes.jsx:56-62 | one entry per record, entry i being the notes of record i (none for an invalid record) |
| Notes.NotesOf | src/pages/Notes.jsx:57-62 | a record yields notes exactly when it is non-null with an array `memo`, then one note per item, in item order |
| Notes.SanitizeMemos | src/pages/Notes.jsx:54-64 | a non-array input gives no notes; otherwise the number of notes is the sum of the memo lengths of the valid records |
| Notes.EntryCountIsLength | src/pages/Notes.jsx:56-63 | the flattened, compacted notes number exactly the summed memo lengths of the valid records |
| Notes.SanitizeAppend | src/pages/Notes.jsx:56-63 | records keep their order: the notes of a concatenation are those of each part, in turn |
| Notes.SanitizeOne | src/pages/Notes.jsx:57-62 | a null record, or one without an array memo, gives no note; a valid one gives one note per item, in order |
| Notes.SanitizeAt | src/pages/Notes.jsx:56-63 | item `j` of valid record `i` sits right after the notes of the earlier records and all items before it, and carries record `i`'s id, so siblings share an id |
| Notes.TrimStart | src/pages/Notes.jsx:30 | leading white space is removed, and only white space is removed |
| Notes.IsWhitespace | src/pages/Notes.jsx:30 | the characters `trim()` strips: space, tab, line feed and carriage return are among them, visible ASCII characters are not |
| Notes.TrimEnd | src/pages/Notes.jsx:30 | trailing white space is removed, and only white space is removed |
| Notes.Trim | src/pages/Notes.jsx:30 | the trimmed text is empty exactly when every character is white space, and otherwise neither starts nor ends with white space |
| Notes.ItemOf | src/pages/Notes.jsx:32 | the submitted `newNote` as a stored item: an empty text or tool is falsy (None), and reading it back gives the draft's text and tool |
| Notes.AddNote | src/pages/Notes.jsx:29-38 | it submits exactly when the text has a non-white-space character; it submits the untrimmed draft as a one-entry memo array (`ItemOf`); the draft is reset exactly when the submission succeeds (or the draft was already empty) and is otherwise kept |
| Notes.AddNoteRoundTrip | src/pages/Notes.jsx:29-64 | a submitted note comes back from its stored record as one note with the record's id and the draft's text and tool |
| ServiceUsage.DatesFor | src/integrations/supabase/hooks/useServiceUsage.js:33 | the existing record's `usage_dates`, defaulting to empty: the dates of the first row with the name, none when that row's dates are null or no row has the name |
| ServiceUsage.SetDates | src/integrations/supabase/hooks/useServiceUsage.js:34-38 | `update(...).eq('service_name', name)`: every row with the name gets the new dates, every other row is unchanged, and the table keeps its length and names |
| ServiceUsage.AfterUse | src/integrations/supabase/hooks/useServiceUsage.js:21-48 | with a row for the service, that row's dates become its old dates (none if null) followed by `now`, and the table keeps its length; without one, exactly one row `{name, [now]}` is appended; rows of other services are untouched |
| ServiceUsage.AfterUseKeepsUnique | src/integrations/supabase/hooks/useServiceUsage.js:25-46 | a use keeps at most one row per service name, which `maybeSingle` assumes |
| ServiceUsage.AfterUseAppendsDate | src/integrations/supabase/hooks/useServiceUsage.js:31-46 | after either branch the service's dates are its earlier dates, unchanged and in order, followed by `now`: one date longer than before (0 before when it had no row) |
| ServiceUsage.AfterUseOthersUnchanged | src/integrations/supabase/hooks/useServiceUsage.js:36-37 | the dates of every other service are unchanged |
| ServiceUsage.CountFor | src/components/ServiceUsageStats.jsx:44-47 | the monthly count of a service's row is the number of its recorded dates within the bounds, 0 when it has no row |
| ServiceUsage.AfterUseMonthlyCount | src/integrations/supabase/hooks/useServiceUsage.js:31-46 | after a use the service has a row, and its monthly count rises by one exactly when `now` lies within that month's bounds |
| ServiceUsage.UsageTable.RecordUse | src/integrations/supabase/hooks/useServiceUsage.js:21-48 | the mutation updates the table in place to the state after one use, keeping one row per name |

## Left out

- Supabase queries, React Query caching and invalidation, toasts and `console.error` are not modelled. The tables are in-memory sequences passed in or held by `UsageTable`. The network read-modify-write of a use, and the update lost when two uses race, are concurrency the model does not capture.
- `date-fns` (`startOfMonth`, `endOfMonth`, `format`), `new Date()` and `toISOString()` are not modelled: the month bounds and the current instant are integer parameters, and no calendar is modelled.
- UsageStats.CostPerUseCents: the cost per use is the exact quotient `price / count` rounded half-up to whole cents, not `Number((price / count).toFixed(2))` on a double. The two can differ by one cent when the decimal tie is not exact in binary (for example 19/40 = 0.475).
- Plan strings other than `free`, `basic` and `pro` are not modelled. `PLAN_PRICES[plan]` would be `undefined` for them, and the plan selector offers only these three.
- ServiceUsage.AfterUse: this function, its lemmas AfterUseAppendsDate, AfterUseOthersUnchanged and AfterUseMonthlyCount, and ServiceUsage.UsageTable.RecordUse (whose class invariant requires it) assume at most one row per service name. With two rows, `maybeSingle` reports an error that the code ignores, so the source would insert a third row; the model instead updates every matching row. That path is not modelled.
- Subscriptions.CategoryOrder: it is the first-appearance order of the categories. `Object.entries` lists array-index keys such as `"0"` first, in numeric order; none of the categories in `SERVICES` is such a string, so the two orders agree there, but that order is not modelled for other catalogues.
- Failure of the update or insert request is not modelled. The table changes as if the request succeeded.
- Notes.AddNote: whether the insert succeeds is a boolean parameter. The stored record's id, assigned by the database, is a parameter of Notes.AddNoteRoundTrip.
- Null items inside a `memo` array are not modelled, because the code would throw at `item.text`. Items are always objects whose fields may be falsy.
- Rendering, charts, the plan selector, plan changes (`handlePlanChange`) and the note popup and deletion are user interface or thin database calls, and are not modelled.

/** Plans and their limits (`lib/plans.ts`) and the decision whether a
    user may perform a metered action (`lib/supabase/plans.ts`). The
    subscription, usage, saved-paper and collection tables are values;
    the current date is a parameter. */
module Plans {
  import opened Text

  datatype PlanType = Free | Researcher | Lab

  /** What a plan allows; `None` for a count means unlimited. */
  datatype PlanLimits = PlanLimits(
    searchesPerDay: Option<nat>, savedPapers: Option<nat>, collections: Option<nat>,
    aiSummariesOnDemand: bool, exportEnabled: bool, citationGraphHops: nat)

  /** `PLAN_LIMITS`. */
  function Limits(plan: PlanType): PlanLimits {
    match plan
    case Free => PlanLimits(Some(50), Some(50), Some(1), false, false, 1)
    case Researcher => PlanLimits(None, None, None, true, true, 3)
    case Lab => PlanLimits(None, None, None, true, true, 3)
  }

  /** `isPaid`. */
  predicate IsPaid(plan: PlanType) {
    plan == Researcher || plan == Lab
  }

  /** The two paid plans allow the same things: no count limit, on-demand
      summaries, export and three graph hops; only the free plan has
      count limits, and a plan is paid exactly when it can export, and
      exactly when it has on-demand summaries. */
  lemma PaidPlans(plan: PlanType)
    ensures IsPaid(plan) <==> Limits(plan).exportEnabled
    ensures IsPaid(plan) <==> Limits(plan).aiSummariesOnDemand
    ensures IsPaid(plan) ==> Limits(plan) == Limits(Researcher) == Limits(Lab)
    ensures !IsPaid(plan) <==> Limits(plan).searchesPerDay.Some?
    ensures Limits(Researcher).citationGraphHops > Limits(Free).citationGraphHops
  {
  }

  // ---------------------------------------------------------------------
  // Store reads
  // ---------------------------------------------------------------------

  /** A `subscriptions` row. */
  datatype SubscriptionRow = SubscriptionRow(
    userId: string, plan: PlanType, status: string,
    currentPeriodEnd: Option<string>, cancelAtPeriodEnd: Option<bool>)

  /** What `getUserPlan` returns. */
  datatype UserPlan = UserPlan(plan: PlanType, status: string,
                               currentPeriodEnd: Option<string>, cancelAtPeriodEnd: bool)

  /** The plan of a user without a live subscription. */
  const DefaultPlan := UserPlan(Free, "active", None, false)

  /** A subscription that counts: the user's, active or trialing. */
  predicate Live(row: SubscriptionRow, userId: string) {
    row.userId == userId && (row.status == "active" || row.status == "trialing")
  }

  /** `getUserPlan`: the first live subscription of the user in the order
      the store lists the rows, or the free plan. */
  function GetUserPlan(subs: seq<SubscriptionRow>, userId: string): (r: UserPlan)
    ensures (forall i :: 0 <= i < |subs| ==> !Live(subs[i], userId)) ==> r == DefaultPlan
    ensures (exists i :: 0 <= i < |subs| && Live(subs[i], userId)) ==>
              exists i :: 0 <= i < |subs| && Live(subs[i], userId)
                && (forall j :: 0 <= j < i ==> !Live(subs[j], userId))
                && r == UserPlan(subs[i].plan, subs[i].status, subs[i].currentPeriodEnd,
                                 subs[i].cancelAtPeriodEnd.GetOr(false))
  {
    if subs == [] then DefaultPlan
    else if Live(subs[0], userId) then
      UserPlan(subs[0].plan, subs[0].status, subs[0].currentPeriodEnd, subs[0].cancelAtPeriodEnd.GetOr(false))
    else
      var r := GetUserPlan(subs[1..], userId);
      assert forall i :: 1 <= i < |subs| ==> subs[i] == subs[1..][i - 1];
      r
  }

  /** A `usage_daily` row; each counter may be null. */
  datatype UsageRow = UsageRow(searchCount: Option<int>, aiSummaryRequests: Option<int>, papersSaved: Option<int>)

  datatype DailyUsage = DailyUsage(searchCount: int, aiSummaryRequests: int, papersSaved: int)

  /** `getDailyUsage`: the user's counters for `today`, each 0 when the
      row or the counter is missing. */
  function GetDailyUsage(usage: map<(string, string), UsageRow>, userId: string, today: string): (r: DailyUsage)
    ensures (userId, today) !in usage ==> r == DailyUsage(0, 0, 0)
    ensures (userId, today) in usage ==>
              var row := usage[(userId, today)];
              && (row.searchCount.Some? ==> r.searchCount == row.searchCount.value)
              && (row.searchCount.None? ==> r.searchCount == 0)
              && (row.aiSummaryRequests.Some? ==> r.aiSummaryRequests == row.aiSummaryRequests.value)
              && (row.aiSummaryRequests.None? ==> r.aiSummaryRequests == 0)
              && (row.papersSaved.Some? ==> r.papersSaved == row.papersSaved.value)
              && (row.papersSaved.None? ==> r.papersSaved == 0)
  {
    if (userId, today) in usage then
      var row := usage[(userId, today)];
      DailyUsage(row.searchCount.GetOr(0), row.aiSummaryRequests.GetOr(0), row.papersSaved.GetOr(0))
    else DailyUsage(0, 0, 0)
  }

  // ---------------------------------------------------------------------
  // checkLimit
  // ---------------------------------------------------------------------

  datatype Action = Search | SavePaper | CreateCollection | AiSummary | Export

  /** The counter a check reads, when it reads one. */
  datatype Counter = DailySearches | SavedWorks | OwnedCollections

  /** The tables `checkLimit` reads. `savedWorks` and `collections` hold
      the owning user id of each row. */
  datatype PlanStore = PlanStore(
    subscriptions: seq<SubscriptionRow>, usage: map<(string, string), UsageRow>,
    savedWorks: multiset<string>, collections: multiset<string>)

  datatype Verdict = Allowed | Denied(reason: string)

  /** The verdict and the counter that was read to reach it. */
  datatype Check = Check(verdict: Verdict, counted: Option<Counter>)

  function PluralCollections(limit: nat): string {
    if limit == 1 then "collection" else "collections"
  }

  /** The denial for reaching the collection limit names a single
      collection exactly when the limit is one. */
  lemma CollectionNoun(limit: nat)
    ensures PluralCollections(limit) == "collection" <==> limit == 1
  {
    if limit != 1 {
      assert |PluralCollections(limit)| == 11;
    }
  }

  /** `checkLimit`: a count limit is checked against the matching counter
      only when the plan has one; the summary and export actions follow
      the plan's flags. */
  function CheckLimit(db: PlanStore, userId: string, today: string, action: Action): Check {
    var limits := Limits(GetUserPlan(db.subscriptions, userId).plan);
    match action
    case Search =>
      if limits.searchesPerDay.None? then Check(Allowed, None)
      else if GetDailyUsage(db.usage, userId, today).searchCount >= limits.searchesPerDay.value then
        Check(Denied("Free plan limited to " + IntToString(limits.searchesPerDay.value)
                     + " searches/day. Upgrade for unlimited."), Some(DailySearches))
      else Check(Allowed, Some(DailySearches))
    case SavePaper =>
      if limits.savedPapers.None? then Check(Allowed, None)
      else if db.savedWorks[userId] >= limits.savedPapers.value then
        Check(Denied("Free plan limited to " + IntToString(limits.savedPapers.value)
                     + " saved papers. Upgrade for unlimited."), Some(SavedWorks))
      else Check(Allowed, Some(SavedWorks))
    case CreateCollection =>
      if limits.collections.None? then Check(Allowed, None)
      else if db.collections[userId] >= limits.collections.value then
        Check(Denied("Free plan limited to " + IntToString(limits.collections.value) + " "
                     + PluralCollections(limits.collections.value) + ". Upgrade for unlimited."),
              Some(OwnedCollections))
      else Check(Allowed, Some(OwnedCollections))
    case AiSummary =>
      if !limits.aiSummariesOnDemand then Check(Denied("On-demand AI summaries require a paid plan."), None)
      else Check(Allowed, None)
    case Export =>
      if !limits.exportEnabled then Check(Denied("Export requires a paid plan."), None)
      else Check(Allowed, None)
  }

  /** The plan `checkLimit` decides by. */
  function PlanOf(db: PlanStore, userId: string): PlanType {
    GetUserPlan(db.subscriptions, userId).plan
  }

  /** A paid plan is allowed everything, and no counter is read for it. */
  lemma PaidAllowsAll(db: PlanStore, userId: string, today: string, action: Action)
    requires IsPaid(PlanOf(db, userId))
    ensures CheckLimit(db, userId, today, action) == Check(Allowed, None)
  {
  }

  /** On the free plan each count is allowed exactly while it is below the
      limit, reading only that action's counter; summaries and export are
      refused without reading any counter. */
  lemma FreeLimits(db: PlanStore, userId: string, today: string)
    requires PlanOf(db, userId) == Free
    ensures var c := CheckLimit(db, userId, today, Search);
            c.counted == Some(DailySearches)
            && (c.verdict == Allowed <==> GetDailyUsage(db.usage, userId, today).searchCount < 50)
    ensures var c := CheckLimit(db, userId, today, SavePaper);
            c.counted == Some(SavedWorks) && (c.verdict == Allowed <==> db.savedWorks[userId] < 50)
    ensures var c := CheckLimit(db, userId, today, CreateCollection);
            c.counted == Some(OwnedCollections) && (c.verdict == Allowed <==> db.collections[userId] < 1)
    ensures CheckLimit(db, userId, today, AiSummary).verdict.Denied?
    ensures CheckLimit(db, userId, today, Export).verdict.Denied?
  {
  }

  /** A user without a live subscription is on the free plan. */
  lemma NoSubscriptionIsFree(db: PlanStore, userId: string)
    requires forall i :: 0 <= i < |db.subscriptions| ==> !Live(db.subscriptions[i], userId)
    ensures PlanOf(db, userId) == Free
  {
  }

  /** Whether an action is allowed depends only on the plan and the one
      counter it reads: two stores that agree on both give the same
      verdict. */
  lemma VerdictFromCounter(a: PlanStore, b: PlanStore, userId: string, today: string, action: Action)
    requires PlanOf(a, userId) == PlanOf(b, userId)
    requires GetDailyUsage(a.usage, userId, today) == GetDailyUsage(b.usage, userId, today)
    requires a.savedWorks[userId] == b.savedWorks[userId] && a.collections[userId] == b.collections[userId]
    ensures CheckLimit(a, userId, today, action) == CheckLimit(b, userId, today, action)
  {
  }
}

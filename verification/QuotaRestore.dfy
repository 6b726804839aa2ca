/** Removing a policy and restoring it: what happens to the consumption of the period, for one account and
    for the transactions that do it. */
module QuotaRestore {
  import opened Outcomes
  import opened Ordering
  import opened QuotaWindow
  import opened QuotaPolicy
  import opened QuotaStore

  /** The period a fallback policy would put the row in is the one it is already in. */
  predicate SamePeriod(p: Policy, q: Policy, window: Windows) {
    q.period == p.period && (p.period == Lifetime || window(q) == window(p))
  }

  /** What stands in for the removed policy leaves the period alone. */
  predicate Harmless(p: Policy, fallback: Option<Policy>, window: Windows) {
    fallback.None? || SamePeriod(p, fallback.value, window)
  }

  /** Both balances are as before when `kept`, else zero. */
  predicate Balances(before: Account, after: Account, kept: bool) {
    && before.quota.Some? && after.quota.Some?
    && after.quota.value.consumed == (if kept then before.quota.value.consumed else 0)
    && after.quota.value.reserved == (if kept then before.quota.value.reserved else 0)
  }

  /** Remove policy `p` in favour of `fallback`, then restore it as `restored`, all within one period: the
      balances survive if the fallback is harmless and are reset if it is not. */
  lemma RemoveThenRestore(p: Policy, fallback: Option<Policy>, restored: Policy, a: Account, at: Windows, removing: Windows,
                          restoring: Windows, reason: string, again: string)
    requires Agrees(Some(p), a, at) && restored.period == p.period
    requires p.period == Lifetime || at(p) == removing(p) == restoring(restored)
    ensures var back := Materialized(Some(restored), Materialized(fallback, a, removing, reason), restoring, again);
      && Agrees(Some(restored), back, restoring)
      && Balances(a, back, Harmless(p, fallback, removing))
      && (Balances(a, back, true) <==>
          || (a.quota.value.consumed == 0 && a.quota.value.reserved == 0)
          || Harmless(p, fallback, removing))
  {
    hide Release;
  }

  /** For calendar policies, within one period means at any two instants of the window, when its
      boundary midnights are plain. */
  lemma RestoreWithinWindow(p: Policy, a: Account, off: Zone, now: int, removed: int, restored: int, reason: string)
    requires LocalDateTime.ValidZone(off) && IsCalendar(p.period)
    requires var s := StartDate(p.period, LocalDate(off, now));
      PlainMidnight(off, s) && PlainMidnight(off, EndDate(p.period, s))
    requires var w := PeriodWindow(p.period, off, now, None).value;
      w.end.Some? && w.start <= removed < w.end.value && w.start <= restored < w.end.value
    requires Agrees(Some(p), a, ServiceWindow(off, now))
    ensures var gone := Materialized(None, a, ServiceWindow(off, removed), reason);
      var back := Materialized(Some(p), gone, ServiceWindow(off, restored), reason);
      && gone.quota.Some? && !gone.quota.value.enabled
      && Balances(a, back, true) && back.reservations == a.reservations
  {
    hide Midnight, StartDate, EndDate, LocalDate, PlainMidnight, PeriodWindow, Release;
    PlainWindowPartition(p.period, off, now);
    assert ServiceWindow(off, now)(p) == ServiceWindow(off, removed)(p) == ServiceWindow(off, restored)(p);
    RemoveThenRestore(p, None, p, a, ServiceWindow(off, now), ServiceWindow(off, removed), ServiceWindow(off, restored), reason, reason);
  }

  // ---- the transactions ------------------------------------------------------------------------

  /** A policy stays in force when it is written again with the same priority and a later time. */
  lemma InForceAgain(db: Db, db': Db, userId: string, p: Policy, p': Policy)
    requires ValidPolicies(db.policies) && ValidPolicies(db'.policies) && db'.groups == db.groups && db'.less == db.less
    requires EffectivePolicy(db, userId) == Some(p) && p' in db'.policies
    requires p'.subject == p.subject && p'.id == p.id && p'.priority == p.priority && p'.enabled && p.updatedAt <= p'.updatedAt
    requires forall q: Policy :: q.subject != p.subject ==> (q in db'.policies <==> q in db.policies)
    ensures EffectivePolicy(db', userId) == Some(p')
  {
    hide Resolve, CurrentMembers;
    ResolveExact(db.less, db.policies, db.groups, userId, Some(p));
    ResolveExact(db'.less, db'.policies, db'.groups, userId, Some(p'));
    forall q | Applies(db'.policies, db'.groups, userId, q) && q != p' ensures Wins(db.less, p', q) {
      assert q.subject != p.subject by { OnePerSubject(db'.policies, q, p'); }
      assert Applies(db.policies, db.groups, userId, q);
      assert Wins(db.less, p, q);
    }
  }

  lemma OnePerSubject(policies: seq<Policy>, p: Policy, q: Policy)
    requires ValidPolicies(policies) && p in policies && q in policies && p != q
    ensures p.subject != q.subject
  {
    var i :| 0 <= i < |policies| && policies[i] == p;
    var j :| 0 <= j < |policies| && policies[j] == q;
    assert i < j || j < i;
  }

  /** Writing policies does to the account of an affected user what materialisation does. */
  lemma DisabledAccount(db: Db, scope: Scope, now: int, window: Windows, reason: string, userId: string)
    requires Disable(db, scope, now, window, reason).1.Ok? && Affected(db, scope).Ok? && userId in Affected(db, scope).value
    ensures var db' := Disable(db, scope, now, window, reason).0;
      AccountOf(db', userId) == Materialized(EffectivePolicy(db', userId), AccountOf(db, userId), window, reason)
  {
    hide Disable, MaterializeUsers, Materialized, Resolve, Affected;
    var db' := Disable(db, scope, now, window, reason).0;
    DisableShape(db, scope, now, window, reason);
    var mid := db.(policies := db'.policies);
    MaterializeUsersExact(mid, Affected(db, scope).value, window, reason);
    assert AccountOf(mid, userId) == AccountOf(db, userId);
  }

  lemma SavedAccount(db: Db, scope: Scope, rule: Rule, id: string, now: int, window: Windows, userId: string)
    requires Save(db, scope, rule, id, now, window).1.Ok? && Affected(db, scope).Ok? && userId in Affected(db, scope).value
    ensures var db' := Save(db, scope, rule, id, now, window).0;
      AccountOf(db', userId) == Materialized(EffectivePolicy(db', userId), AccountOf(db, userId), window, rule.reason)
  {
    hide Save, MaterializeUsers, Materialized, Resolve, Affected;
    var db' := Save(db, scope, rule, id, now, window).0;
    SaveShape(db, scope, rule, id, now, window);
    var mid := db.(policies := db'.policies);
    MaterializeUsersExact(mid, Affected(db, scope).value, window, rule.reason);
    assert AccountOf(mid, userId) == AccountOf(db, userId);
  }

  /** The policies about other subjects. */
  function Others(policies: seq<Policy>, subject: Subject): (r: seq<Policy>)
    ensures forall p :: p in r <==> p in policies && p.subject != subject
  {
    if policies == [] then []
    else
      var n := |policies| - 1;
      assert policies == policies[..n] + [policies[n]];
      Others(policies[..n], subject) + if policies[n].subject != subject then [policies[n]] else []
  }

  lemma {:induction false} OthersUnique(policies: seq<Policy>, subject: Subject)
    requires UniqueIds(policies)
    ensures UniqueIds(Others(policies, subject))
  {
    if policies != [] {
      var n := |policies| - 1;
      OthersUnique(policies[..n], subject);
      var front := Others(policies[..n], subject);
      forall i | 0 <= i < |front| ensures front[i].id != policies[n].id { assert front[i] in policies[..n]; }
    }
  }

  /** What will stand in for the rule of a scope while it is disabled: the policy in force among those
      about other subjects. */
  function Fallback(db: Db, scope: Scope, userId: string): Option<Policy> {
    Resolve(db.less, Others(db.policies, SubjectOf(scope)), db.groups, userId)
  }

  lemma FallbackExact(db: Db, scope: Scope, now: int, window: Windows, reason: string, userId: string)
    requires ValidPolicies(db.policies) && Disable(db, scope, now, window, reason).1.Ok?
    ensures EffectivePolicy(Disable(db, scope, now, window, reason).0, userId) == Fallback(db, scope, userId)
  {
    hide Disable, Resolve, CurrentMembers, Others;
    DisableKeepsAgreement(db, scope, now, window, reason);
    var without := Disable(db, scope, now, window, reason).0;
    OthersUnique(db.policies, SubjectOf(scope));
    ResolveFrame(db.less, Others(db.policies, SubjectOf(scope)), without.policies, db.groups, userId);
  }

  /** The rule written back has the period and priority of the policy in force, and all happens within one
      of its periods. */
  ghost predicate Restores(p: Policy, rule: Rule, at: Windows, removing: Windows, restoring: Windows, restoredAt: int) {
    && Proper(rule) && !Backwards(rule) && rule.period == p.period && rule.priority == p.priority && p.updatedAt <= restoredAt
    && (p.period == Lifetime || at(p) == removing(p) == restoring(RulePolicy(p.id, p.subject, rule, restoredAt)))
  }

  /** Disable the rule in force for a user, then save it again within the period: it is in force again,
      and the balances of the user survive exactly when they were zero or the fallback, known beforehand,
      is harmless. */
  lemma DisableThenSave(db: Db, scope: Scope, rule: Rule, freshId: string, userId: string, at: Windows, removing: Windows,
                        restoring: Windows, removedAt: int, restoredAt: int, reason: string)
    requires ValidPolicies(db.policies) && Current(db, scope) && Concerns(db, scope, userId)
    requires EffectivePolicy(db, userId).Some? && EffectivePolicy(db, userId).value.subject == SubjectOf(scope)
    requires UserAgrees(db, userId, at)
    requires Restores(EffectivePolicy(db, userId).value, rule, at, removing, restoring, restoredAt)
    requires FreshId(Disable(db, scope, removedAt, removing, reason).0, freshId)
    ensures var p := EffectivePolicy(db, userId).value;
      var (without, removed) := Disable(db, scope, removedAt, removing, reason);
      var (back, restored) := Save(without, scope, rule, freshId, restoredAt, restoring);
      var fallback := Fallback(db, scope, userId);
      && removed.Ok? && EffectivePolicy(without, userId) == fallback && restored.Ok? && EffectivePolicy(back, userId) == Some(restored.value)
      && Balances(AccountOf(db, userId), AccountOf(back, userId), Harmless(p, fallback, removing))
      && (Balances(AccountOf(db, userId), AccountOf(back, userId), true) <==>
          || (AccountOf(db, userId).quota.value.consumed == 0 && AccountOf(db, userId).quota.value.reserved == 0)
          || Harmless(p, fallback, removing))
  {
    hide Save, Disable, Resolve, Materialized, Agrees, FindSubject, AccountOf, Proper, Backwards, Affected, Concerns, Current;
    AffectedExact(db, scope);
    var p := EffectivePolicy(db, userId).value;
    ResolveExact(db.less, db.policies, db.groups, userId, Some(p));
    assert p in db.policies;
    DisableKeepsAgreement(db, scope, removedAt, removing, reason);
    var without := Disable(db, scope, removedAt, removing, reason).0;
    FallbackExact(db, scope, removedAt, removing, reason, userId);
    DisableKeepsId(db, scope, removedAt, removing, reason, p);
    SaveKeepsAgreement(without, scope, rule, freshId, restoredAt, restoring);
    SameUsers(db, without, scope);
    SavedPolicy(without, scope, rule, freshId, restoredAt, restoring);
    var (back, restored) := Save(without, scope, rule, freshId, restoredAt, restoring);
    InForceAgain(db, back, userId, p, restored.value);
    DisabledAccount(db, scope, removedAt, removing, reason, userId);
    SavedAccount(without, scope, rule, freshId, restoredAt, restoring, userId);
    RemoveThenRestore(p, EffectivePolicy(without, userId), restored.value, AccountOf(db, userId), at, removing, restoring,
                      reason, rule.reason);
  }

  lemma SameUsers(db: Db, db': Db, scope: Scope)
    requires db'.users == db.users && db'.groups == db.groups
    ensures Affected(db', scope) == Affected(db, scope) && Current(db', scope) == Current(db, scope)
  {
  }

  lemma DisableKeepsId(db: Db, scope: Scope, now: int, window: Windows, reason: string, p: Policy)
    requires ValidPolicies(db.policies) && p in db.policies && p.subject == SubjectOf(scope) && Affected(db, scope).Ok?
    ensures var without := Disable(db, scope, now, window, reason).0;
      without.users == db.users && exists q :: q in without.policies && q.subject == p.subject && q.id == p.id
  {
    hide MaterializeUsers, FindSubject;
    var i := FindSubject(db.policies, p.subject);
    if i < |db.policies| && db.policies[i] != p { OnePerSubject(db.policies, db.policies[i], p); }
    var q := Disable(db, scope, now, window, reason).1.value;
    var policies := WithPolicy(db.policies, i, q);
    MaterializeUsersExact(db.(policies := policies), Affected(db, scope).value, window, reason);
    assert policies[i] == q;
  }

  lemma SavedPolicy(db: Db, scope: Scope, rule: Rule, freshId: string, now: int, window: Windows)
    requires Save(db, scope, rule, freshId, now, window).1.Ok?
    ensures var p := Save(db, scope, rule, freshId, now, window).1.value; p == RulePolicy(p.id, SubjectOf(scope), rule, now)
  {
    hide MaterializeUsers, FindSubject;
  }

  // ---- a run that resets consumption -----------------------------------------------------------

  const DAILY: Policy := Policy("g", OneGroup("team"), 100, true, CalendarDay, None, None, 0, true, 0)

  const MONTHLY: Policy := Policy("a", WholeApplication, 1000, true, CalendarMonth, None, None, 0, true, 0)

  const DAILY_RULE: Rule := Rule(100, true, CalendarDay, None, None, 0, "restored")

  /** A member of a team with a daily rule, in front of a monthly rule of the application, who has used 5
      of the day that `now` is in. */
  function TeamDb(less: TextOrder, off: Zone, now: int): Db {
    var w := PeriodWindow(CalendarDay, off, now, None).value;
    var quota := Quota(Some("g"), CalendarDay, w.start, w.end, 100, 5, 0, true, true, 1);
    var ledger := [Entry(0, 0, 0, 0, 100, "granted"), Entry(5, 0, 5, 0, 100, "used")];
    Db(less, [DAILY, MONTHLY], map["team" := Group(1, [Evaluation(1, ["u"])])], ["u"], map["u" := Account(Some(quota), ledger, [])])
  }

  lemma TeamPolicies(less: TextOrder, off: Zone, now: int)
    ensures var db := TeamDb(less, off, now);
      ValidPolicies(db.policies) && EffectivePolicy(db, "u") == Some(DAILY) && UserAgrees(db, "u", ServiceWindow(off, now))
  {
    hide Resolve, PeriodWindow;
    var db := TeamDb(less, off, now);
    ResolveExact(less, db.policies, db.groups, "u", Some(DAILY));
    assert "u" in CurrentMembers(db.groups, "team");
    assert Applies(db.policies, db.groups, "u", DAILY);
  }

  lemma TeamBalanced(less: TextOrder, off: Zone, now: int)
    ensures Balanced(AccountOf(TeamDb(less, off, now), "u"))
  {
    hide PeriodWindow;
    var ledger := AccountOf(TeamDb(less, off, now), "u").ledger;
    assert ledger[..1] == [ledger[0]] && ledger[..2] == ledger && [ledger[0]][..0] == [];
    assert ConsumedTotal([ledger[0]]) == 0 && ReservedTotal([ledger[0]]) == 0;
  }

  /** Without the team's rule the monthly one is in force. */
  lemma MonthlyBehind(less: TextOrder, off: Zone, now: int, window: Windows, removedAt: int, reason: string)
    ensures EffectivePolicy(Disable(TeamDb(less, off, now), GroupScope("team"), removedAt, window, reason).0, "u") == Some(MONTHLY)
  {
    hide Resolve, PeriodWindow, MaterializeUsers;
    TeamPolicies(less, off, now);
    var db := TeamDb(less, off, now);
    DisableKeepsAgreement(db, GroupScope("team"), removedAt, window, reason);
    assert DAILY in db.policies && MONTHLY in db.policies;
    var without := Disable(db, GroupScope("team"), removedAt, window, reason).0;
    ResolveExact(less, without.policies, without.groups, "u", Some(MONTHLY));
    assert Applies(without.policies, without.groups, "u", MONTHLY);
  }

  /** In every zone and at every instant: disabling the team's daily rule and saving it again the same day
      leaves a member whose books balanced, and whose row agreed, with nothing consumed. */
  lemma FallbackResetsConsumption(less: TextOrder, off: Zone, now: int, removedAt: int, restoredAt: int, reason: string)
    requires 0 <= restoredAt
    requires PeriodWindow(CalendarDay, off, now, None) == PeriodWindow(CalendarDay, off, removedAt, None)
    requires PeriodWindow(CalendarDay, off, now, None) == PeriodWindow(CalendarDay, off, restoredAt, None)
    ensures var db := TeamDb(less, off, now);
      var without := Disable(db, GroupScope("team"), removedAt, ServiceWindow(off, removedAt), reason).0;
      var (back, restored) := Save(without, GroupScope("team"), DAILY_RULE, "new", restoredAt, ServiceWindow(off, restoredAt));
      && Balanced(AccountOf(db, "u")) && UserAgrees(db, "u", ServiceWindow(off, now))
      && AccountOf(db, "u").quota.value.consumed == 5
      && restored.Ok? && EffectivePolicy(back, "u") == Some(restored.value)
      && AccountOf(back, "u").quota.Some? && AccountOf(back, "u").quota.value.consumed == 0
  {
    hide Resolve, PeriodWindow, Save, Disable, Balanced;
    TeamPolicies(less, off, now);
    TeamBalanced(less, off, now);
    MonthlyBehind(less, off, now, ServiceWindow(off, removedAt), removedAt, reason);
    FreshNew(less, off, now, ServiceWindow(off, removedAt), removedAt, reason);
    DisableThenSave(TeamDb(less, off, now), GroupScope("team"), DAILY_RULE, "new", "u", ServiceWindow(off, now),
                    ServiceWindow(off, removedAt), ServiceWindow(off, restoredAt), removedAt, restoredAt, reason);
  }

  lemma FreshNew(less: TextOrder, off: Zone, now: int, window: Windows, removedAt: int, reason: string)
    ensures FreshId(Disable(TeamDb(less, off, now), GroupScope("team"), removedAt, window, reason).0, "new")
  {
    hide PeriodWindow, MaterializeUsers;
    var db := TeamDb(less, off, now);
    var i := FindSubject(db.policies, OneGroup("team"));
    assert i == 0;
    var p := DAILY.(enabled := false, updatedAt := removedAt);
    MaterializeUsersExact(db.(policies := WithPolicy(db.policies, i, p)), ["u"], window, reason);
  }
}

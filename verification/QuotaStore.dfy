/** The quota rows kept in step with the policies: materialisation of one user's row, ledger and
    reservations, and the transactions that save or disable a policy. */
module QuotaStore {
  import opened Outcomes
  import opened Ordering
  import opened QuotaWindow
  import opened QuotaPolicy

  datatype Quota = Quota(
    policyId: Option<string>, period: PeriodType, periodStart: int, periodEnd: Option<int>, limit: nat,
    consumed: nat, reserved: nat, hardLimit: bool, enabled: bool, lockVersion: nat)

  datatype Entry = Entry(
    consumedDelta: int, reservedDelta: int, consumedAfter: nat, reservedAfter: nat, limitAfter: nat, reason: string)

  datatype ReservationStatus = Reserved | Settled | Released | Expired | UnknownStatus

  datatype Reservation = Reservation(amount: nat, status: ReservationStatus, lockVersion: nat)

  /** Everything kept for one user: the quota row, its ledger in order, and the reservations. */
  datatype Account = Account(quota: Option<Quota>, ledger: seq<Entry>, reservations: seq<Reservation>)

  const NO_ACCOUNT: Account := Account(None, [], [])

  /** The rows of one application; `less` is how the database compares identifiers. */
  datatype Db = Db(less: TextOrder, policies: seq<Policy>, groups: Groups, users: seq<string>, accounts: map<string, Account>)

  /** The period a policy is in at the instant of the call. */
  type Windows = Policy -> Window

  function AccountOf(db: Db, userId: string): Account {
    if userId in db.accounts then db.accounts[userId] else NO_ACCOUNT
  }

  function Put(db: Db, userId: string, account: Account): (r: Db)
    ensures r == db.(accounts := r.accounts)
    ensures forall u :: AccountOf(r, u) == if u == userId then account else AccountOf(db, u)
  {
    if AccountOf(db, userId) == account then db else db.(accounts := db.accounts[userId := account])
  }

  function EffectivePolicy(db: Db, userId: string): Option<Policy> {
    Resolve(db.less, db.policies, db.groups, userId)
  }

  /** The windows of the policy service: a fixed policy carries its own, the others are cut at `now`. */
  function ServiceWindow(off: Zone, now: int): Windows {
    (p: Policy) =>
      if p.period == FixedWindow then Window(if p.startsAt.Some? then p.startsAt.value else 0, p.endsAt)
      else PeriodWindow(p.period, off, now, None).value
  }

  // ---- materialising one account ---------------------------------------------------------------

  predicate PeriodChanged(q: Quota, p: Policy, w: Window) {
    q.period != p.period || (p.period != Lifetime && (q.periodStart != w.start || q.periodEnd != w.end))
  }

  predicate Unchanged(q: Quota, p: Policy, w: Window) {
    q.policyId == Some(p.id) && q.limit == p.limit && q.hardLimit == p.hardLimit && q.enabled && !PeriodChanged(q, p, w)
  }

  function Release(rs: seq<Reservation>): (r: seq<Reservation>)
    ensures |r| == |rs|
  {
    seq(|rs|, i requires 0 <= i < |rs| =>
      if rs[i].status == Reserved then rs[i].(status := Released, lockVersion := rs[i].lockVersion + 1) else rs[i])
  }

  function CreatedQuota(p: Policy, w: Window): Quota {
    Quota(Some(p.id), p.period, w.start, w.end, p.limit, 0, 0, p.hardLimit, true, 0)
  }

  function UpdatedQuota(q: Quota, p: Policy, w: Window): Quota {
    var changed := PeriodChanged(q, p, w);
    Quota(Some(p.id), p.period, if changed then w.start else q.periodStart, if changed then w.end else q.periodEnd,
          p.limit, if changed then 0 else q.consumed, if changed then 0 else q.reserved, p.hardLimit, true,
          q.lockVersion + 1)
  }

  /** The ledger entry between two states of a row. */
  function EntryBetween(consumed: nat, reserved: nat, after: Quota, reason: string): Entry {
    Entry(after.consumed - consumed, after.reserved - reserved, after.consumed, after.reserved, after.limit, reason)
  }

  function Materialized(policy: Option<Policy>, a: Account, window: Windows, reason: string): Account {
    match policy
    case None =>
      if a.quota.None? || a.quota.value.policyId.None? || !a.quota.value.enabled then a
      else
        var q := a.quota.value;
        var after := q.(policyId := None, enabled := false, lockVersion := q.lockVersion + 1);
        Account(Some(after), a.ledger + [EntryBetween(q.consumed, q.reserved, after, reason)], a.reservations)
    case Some(p) =>
      var w := window(p);
      if a.quota.None? then
        var after := CreatedQuota(p, w);
        Account(Some(after), a.ledger + [EntryBetween(0, 0, after, reason)], a.reservations)
      else
        var q := a.quota.value;
        if Unchanged(q, p, w) then a
        else
          var after := UpdatedQuota(q, p, w);
          var release := PeriodChanged(q, p, w) && q.reserved > 0;
          Account(Some(after), a.ledger + [EntryBetween(q.consumed, q.reserved, after, reason)],
                  if release then Release(a.reservations) else a.reservations)
  }

  /** The row a user has is the cache of the policy in force: the same policy, terms and period, or not
      a policy's row at all. */
  predicate Agrees(policy: Option<Policy>, a: Account, window: Windows) {
    match policy
    case None => a.quota.None? || a.quota.value.policyId.None? || !a.quota.value.enabled
    case Some(p) =>
      && a.quota.Some? && a.quota.value.enabled && a.quota.value.policyId == Some(p.id)
      && a.quota.value.limit == p.limit && a.quota.value.hardLimit == p.hardLimit && a.quota.value.period == p.period
      && (p.period == Lifetime || Window(a.quota.value.periodStart, a.quota.value.periodEnd) == window(p))
  }

  /** Materialising makes the row agree, and writes nothing exactly when it already did. */
  lemma MaterializedAgrees(policy: Option<Policy>, a: Account, window: Windows, reason: string)
    ensures Agrees(policy, Materialized(policy, a, window, reason), window)
    ensures Materialized(policy, a, window, reason) == a <==> Agrees(policy, a, window)
  {
    hide Release;
    var r := Materialized(policy, a, window, reason);
    assert r == a || |r.ledger| == |a.ledger| + 1;
  }

  /** The policy starts a new period of the row: another kind of period, or another window of one that ends. */
  predicate StartsPeriod(q: Quota, p: Policy, w: Window) {
    q.period != p.period || (p.period != Lifetime && Window(q.periodStart, q.periodEnd) != w)
  }

  /** What becomes of each reservation: it is released, once, exactly when it is live, the row has a reserved
      balance and a policy starts a new period; otherwise it stays as it is. */
  lemma MaterializedReservations(policy: Option<Policy>, a: Account, window: Windows, reason: string, i: nat)
    requires i < |a.reservations|
    ensures var r := Materialized(policy, a, window, reason).reservations;
      && |r| == |a.reservations| && r[i].amount == a.reservations[i].amount
      && r[i] ==
           if && a.reservations[i].status == Reserved && policy.Some? && a.quota.Some? && a.quota.value.reserved > 0
              && StartsPeriod(a.quota.value, policy.value, window(policy.value))
           then Reservation(a.reservations[i].amount, Released, a.reservations[i].lockVersion + 1)
           else a.reservations[i]
  {
  }

  /** What becomes of the row and its ledger: a new period starts at zero in its window, otherwise balances and
      window stay; without a policy the row keeps everything but the policy. A write is one version and one
      entry with the reason and the differences of the balances. */
  lemma MaterializedRow(policy: Option<Policy>, a: Account, window: Windows, reason: string)
    ensures var r := Materialized(policy, a, window, reason);
      && (r.quota == a.quota <==> r == a)
      && (r != a ==>
            && r.quota.Some? && |r.ledger| == |a.ledger| + 1 && r.ledger[..|a.ledger|] == a.ledger
            && var q, e := r.quota.value, r.ledger[|a.ledger|];
               var was := if a.quota.Some? then a.quota.value else Quota(None, Lifetime, 0, None, 0, 0, 0, false, false, 0);
               var anew := a.quota.None? || (policy.Some? && StartsPeriod(was, policy.value, window(policy.value)));
               && q.consumed == (if anew then 0 else was.consumed) && q.reserved == (if anew then 0 else was.reserved)
               && q.lockVersion == (if a.quota.Some? then was.lockVersion + 1 else 0)
               && Window(q.periodStart, q.periodEnd) ==
                    (if anew then window(policy.value) else Window(was.periodStart, was.periodEnd))
               && (policy.None? ==> q == was.(policyId := None, enabled := false, lockVersion := q.lockVersion))
               && e == Entry(q.consumed - was.consumed, q.reserved - was.reserved, q.consumed, q.reserved, q.limit, reason))
  {
    hide Release;
  }

  lemma MaterializedIdempotent(policy: Option<Policy>, a: Account, window: Windows, reason: string, again: string)
    ensures var r := Materialized(policy, a, window, reason); Materialized(policy, r, window, again) == r
  {
    hide Agrees, Materialized;
    MaterializedAgrees(policy, a, window, reason);
    MaterializedAgrees(policy, Materialized(policy, a, window, reason), window, again);
  }

  // ---- conservation ----------------------------------------------------------------------------

  function ConsumedTotal(ledger: seq<Entry>): int {
    if ledger == [] then 0 else ConsumedTotal(ledger[..|ledger| - 1]) + ledger[|ledger| - 1].consumedDelta
  }

  function ReservedTotal(ledger: seq<Entry>): int {
    if ledger == [] then 0 else ReservedTotal(ledger[..|ledger| - 1]) + ledger[|ledger| - 1].reservedDelta
  }

  function OpenTotal(rs: seq<Reservation>): nat {
    if rs == [] then 0
    else OpenTotal(rs[..|rs| - 1]) + if rs[|rs| - 1].status == Reserved then rs[|rs| - 1].amount else 0
  }

  /** Every entry records the balances that the deltas up to it add up to. */
  ghost predicate Running(ledger: seq<Entry>) {
    forall i :: 0 <= i < |ledger| ==>
      && ledger[i].consumedAfter == ConsumedTotal(ledger[..i + 1])
      && ledger[i].reservedAfter == ReservedTotal(ledger[..i + 1])
  }

  /** The books balance: the row holds the sums of the ledger deltas and the values of the last entry,
      and its reserved balance is what the live reservations hold. */
  ghost predicate Balanced(a: Account) {
    && Running(a.ledger)
    && match a.quota
       case None => a.ledger == [] && OpenTotal(a.reservations) == 0
       case Some(q) =>
         && a.ledger != []
         && q.consumed == ConsumedTotal(a.ledger) && q.reserved == ReservedTotal(a.ledger)
         && q.consumed == a.ledger[|a.ledger| - 1].consumedAfter && q.reserved == a.ledger[|a.ledger| - 1].reservedAfter
         && q.limit == a.ledger[|a.ledger| - 1].limitAfter
         && q.reserved == OpenTotal(a.reservations)
  }

  lemma {:induction false} ReleaseClosesAll(rs: seq<Reservation>)
    ensures OpenTotal(Release(rs)) == 0
  {
    if rs != [] {
      var n := |rs| - 1;
      ReleaseClosesAll(rs[..n]);
      assert Release(rs)[..n] == Release(rs[..n]);
    }
  }

  /** Appending the entry between two states of the row keeps the running balances. */
  lemma RunningAppend(ledger: seq<Entry>, consumed: nat, reserved: nat, after: Quota, reason: string)
    requires Running(ledger) && consumed == ConsumedTotal(ledger) && reserved == ReservedTotal(ledger)
    ensures var r := ledger + [EntryBetween(consumed, reserved, after, reason)];
      Running(r) && ConsumedTotal(r) == after.consumed && ReservedTotal(r) == after.reserved
  {
    var r := ledger + [EntryBetween(consumed, reserved, after, reason)];
    assert r[..|ledger|] == ledger && r[..|ledger| + 1] == r;
    forall i | 0 <= i < |ledger| ensures r[i] == ledger[i] && r[..i + 1] == ledger[..i + 1] { }
  }

  lemma MaterializedBalanced(policy: Option<Policy>, a: Account, window: Windows, reason: string)
    requires Balanced(a)
    ensures Balanced(Materialized(policy, a, window, reason))
  {
    hide Release, Running, ConsumedTotal, ReservedTotal, OpenTotal;
    var r := Materialized(policy, a, window, reason);
    if r != a {
      if a.quota.Some? {
        RunningAppend(a.ledger, a.quota.value.consumed, a.quota.value.reserved, r.quota.value, reason);
      } else {
        assert ConsumedTotal([]) == ReservedTotal([]) == 0 by { EmptyTotals(); }
        RunningAppend(a.ledger, 0, 0, r.quota.value, reason);
      }
      ReleaseClosesAll(a.reservations);
    }
  }

  lemma EmptyTotals()
    ensures ConsumedTotal([]) == 0 && ReservedTotal([]) == 0
  {
  }

  // ---- materialising users ---------------------------------------------------------------------

  function MaterializeUser(db: Db, userId: string, window: Windows, reason: string): Db {
    Put(db, userId, Materialized(EffectivePolicy(db, userId), AccountOf(db, userId), window, reason))
  }

  function MaterializeUsers(db: Db, userIds: seq<string>, window: Windows, reason: string): Db {
    if userIds == [] then db
    else
      var n := |userIds| - 1;
      MaterializeUser(MaterializeUsers(db, userIds[..n], window, reason), userIds[n], window, reason)
  }

  /** Each listed user is materialised once against the policies of the start, and nobody else changes. */
  lemma {:induction false} MaterializeUsersExact(db: Db, userIds: seq<string>, window: Windows, reason: string)
    ensures var r := MaterializeUsers(db, userIds, window, reason);
      && r == db.(accounts := r.accounts)
      && forall u :: AccountOf(r, u) ==
           if u in userIds then Materialized(EffectivePolicy(db, u), AccountOf(db, u), window, reason) else AccountOf(db, u)
  {
    hide Materialized, Resolve, Put, AccountOf;
    if userIds != [] {
      var n := |userIds| - 1;
      assert userIds == userIds[..n] + [userIds[n]];
      MaterializeUsersExact(db, userIds[..n], window, reason);
      MaterializedIdempotent(EffectivePolicy(db, userIds[n]), AccountOf(db, userIds[n]), window, reason, reason);
    }
  }

  // ---- saving and disabling a policy -----------------------------------------------------------

  datatype Scope = ApplicationScope | GroupScope(groupId: string)

  /** An instant as the request writes it. */
  datatype Moment = Moment(text: string, instant: int)

  datatype Rule = Rule(
    limit: nat, hardLimit: bool, period: PeriodType, startsAt: Option<Moment>, endsAt: Option<Moment>, priority: nat, reason: string)

  datatype QuotaError = InvalidRule | GroupNotFound | RefreshGroup | RuleNotFound | InvalidPeriod

  function SubjectOf(scope: Scope): Subject {
    match scope case ApplicationScope => WholeApplication case GroupScope(g) => OneGroup(g)
  }

  /** The users a change of this scope re-materialises. */
  function Affected(db: Db, scope: Scope): Result<seq<string>, QuotaError> {
    match scope
    case ApplicationScope => Ok(db.users)
    case GroupScope(g) =>
      if g !in db.groups then Err(GroupNotFound)
      else
        var group := db.groups[g];
        if group.evaluations == [] || group.evaluations[0].definitionVersion != group.definitionVersion then Err(RefreshGroup)
        else Ok(group.evaluations[0].members)
  }

  /** The position of the first policy about a subject, or the length of the table. */
  function FindSubject(policies: seq<Policy>, subject: Subject): (i: nat)
    ensures i <= |policies|
    ensures i < |policies| ==> policies[i].subject == subject
    ensures forall j :: 0 <= j < i ==> policies[j].subject != subject
  {
    if policies == [] then 0
    else if policies[0].subject == subject then 0
    else 1 + FindSubject(policies[1..], subject)
  }

  function InstantOf(m: Option<Moment>): Option<int> { if m.Some? then Some(m.value.instant) else None }

  function RulePolicy(id: string, subject: Subject, rule: Rule, now: int): Policy {
    var fixed := rule.period == FixedWindow;
    Policy(id, subject, rule.limit, rule.hardLimit, rule.period, if fixed then InstantOf(rule.startsAt) else None,
           if fixed then InstantOf(rule.endsAt) else None, rule.priority, true, now)
  }

  /** What the request schema accepts: a time range for a fixed period only, its ends in order as texts. */
  predicate SchemaAccepts(rule: Rule) {
    && rule.period != Unknown
    && if rule.period == FixedWindow then rule.startsAt.Some? && rule.endsAt.Some? && TextLess(rule.startsAt.value.text, rule.endsAt.value.text)
       else rule.startsAt.None? && rule.endsAt.None?
  }

  /** The table constraint on periods: the ends of a fixed window are in order as instants. */
  predicate PeriodAllowed(rule: Rule) {
    rule.period == FixedWindow ==>
      rule.startsAt.Some? && rule.endsAt.Some? && rule.startsAt.value.instant < rule.endsAt.value.instant
  }

  function WithPolicy(policies: seq<Policy>, i: nat, p: Policy): seq<Policy>
    requires i <= |policies|
  {
    if i < |policies| then policies[i := p] else policies + [p]
  }

  function Save(db: Db, scope: Scope, rule: Rule, freshId: string, now: int, window: Windows): (Db, Result<Policy, QuotaError>) {
    if !SchemaAccepts(rule) then (db, Err(InvalidRule))
    else match Affected(db, scope)
    case Err(e) => (db, Err(e))
    case Ok(userIds) =>
      if !PeriodAllowed(rule) then (db, Err(InvalidPeriod))
      else
        var i := FindSubject(db.policies, SubjectOf(scope));
        var id := if i < |db.policies| then db.policies[i].id else freshId;
        var p := RulePolicy(id, SubjectOf(scope), rule, now);
        (MaterializeUsers(db.(policies := WithPolicy(db.policies, i, p)), userIds, window, rule.reason), Ok(p))
  }

  function Disable(db: Db, scope: Scope, now: int, window: Windows, reason: string): (Db, Result<Policy, QuotaError>) {
    match Affected(db, scope)
    case Err(e) => (db, Err(e))
    case Ok(userIds) =>
      var i := FindSubject(db.policies, SubjectOf(scope));
      if i == |db.policies| then (db, Err(RuleNotFound))
      else
        var p := db.policies[i].(enabled := false, updatedAt := now);
        (MaterializeUsers(db.(policies := WithPolicy(db.policies, i, p)), userIds, window, reason), Ok(p))
  }

  /** The unique keys of the policy table. */
  ghost predicate ValidPolicies(policies: seq<Policy>) {
    UniqueIds(policies) && forall i, j :: 0 <= i < j < |policies| ==> policies[i].subject != policies[j].subject
  }

  ghost predicate FreshId(db: Db, id: string) {
    forall p :: p in db.policies ==> p.id != id
  }

  ghost predicate UserAgrees(db: Db, userId: string, window: Windows) {
    Agrees(EffectivePolicy(db, userId), AccountOf(db, userId), window)
  }

  lemma WithPolicyValid(policies: seq<Policy>, i: nat, p: Policy)
    requires ValidPolicies(policies) && i == FindSubject(policies, p.subject)
    requires if i < |policies| then p.id == policies[i].id else forall q :: q in policies ==> q.id != p.id
    ensures ValidPolicies(WithPolicy(policies, i, p))
  {
    hide FindSubject;
    var r := WithPolicy(policies, i, p);
    forall j, k | 0 <= j < k < |r| ensures r[j].id != r[k].id && r[j].subject != r[k].subject {
      if k == |policies| { assert policies[j] in policies; }
    }
  }

  /** Editing a group's policy never changes the policy in force for a user outside its current
      evaluation. */
  lemma GroupEditFrame(db: Db, p: Policy, userId: string)
    requires ValidPolicies(db.policies) && p.subject.OneGroup? && userId !in CurrentMembers(db.groups, p.subject.groupId)
    requires var i := FindSubject(db.policies, p.subject);
      if i < |db.policies| then p.id == db.policies[i].id else FreshId(db, p.id)
    ensures var db' := db.(policies := WithPolicy(db.policies, FindSubject(db.policies, p.subject), p));
      ValidPolicies(db'.policies) && EffectivePolicy(db', userId) == EffectivePolicy(db, userId)
  {
    hide FindSubject, Resolve;
    var i := FindSubject(db.policies, p.subject);
    var rows := WithPolicy(db.policies, i, p);
    WithPolicyValid(db.policies, i, p);
    forall q ensures Applies(db.policies, db.groups, userId, q) <==> Applies(rows, db.groups, userId, q) {
      if q.subject != p.subject { OtherRows(db.policies, i, p, q); }
    }
    ResolveFrame(db.less, db.policies, rows, db.groups, userId);
  }

  lemma OtherRows(policies: seq<Policy>, i: nat, p: Policy, q: Policy)
    requires i <= |policies| && q.subject != p.subject && (i < |policies| ==> policies[i].subject == p.subject)
    ensures q in policies <==> q in WithPolicy(policies, i, p)
  {
    var rows := WithPolicy(policies, i, p);
    if q in policies {
      var k :| 0 <= k < |policies| && policies[k] == q;
      assert rows[k] == q;
    }
    if q in rows {
      var k :| 0 <= k < |rows| && rows[k] == q;
      assert policies[k] == q;
    }
  }

  /** Writing a policy and re-materialising the affected users. */
  lemma EditKeepsAgreement(db: Db, scope: Scope, p: Policy, window: Windows, reason: string)
    requires ValidPolicies(db.policies) && Affected(db, scope).Ok? && p.subject == SubjectOf(scope)
    requires var i := FindSubject(db.policies, p.subject);
      if i < |db.policies| then p.id == db.policies[i].id else FreshId(db, p.id)
    ensures var mid := db.(policies := WithPolicy(db.policies, FindSubject(db.policies, p.subject), p));
      var r := MaterializeUsers(mid, Affected(db, scope).value, window, reason);
      && ValidPolicies(r.policies) && r == mid.(accounts := r.accounts)
      && (forall u :: u in Affected(db, scope).value ==> UserAgrees(r, u, window))
      && (forall u :: u !in Affected(db, scope).value ==> AccountOf(r, u) == AccountOf(db, u))
      && (scope.GroupScope? ==> forall u :: UserAgrees(db, u, window) ==> UserAgrees(r, u, window))
  {
    hide MaterializeUsers, Materialized, Agrees, Resolve, FindSubject, Put;
    var i := FindSubject(db.policies, p.subject);
    WithPolicyValid(db.policies, i, p);
    var mid := db.(policies := WithPolicy(db.policies, i, p));
    var users := Affected(db, scope).value;
    var r := MaterializeUsers(mid, users, window, reason);
    MaterializeUsersExact(mid, users, window, reason);
    forall u | u in users ensures UserAgrees(r, u, window) {
      MaterializedAgrees(EffectivePolicy(mid, u), AccountOf(mid, u), window, reason);
    }
    if scope.GroupScope? {
      forall u | UserAgrees(db, u, window) ensures UserAgrees(r, u, window) {
        if u !in users { GroupEditFrame(db, p, u); }
      }
    }
  }

  /** The users of a scope: all of them, or the members of the group's newest evaluation. */
  ghost predicate Concerns(db: Db, scope: Scope, userId: string) {
    match scope
    case ApplicationScope => userId in db.users
    case GroupScope(g) => g in db.groups && db.groups[g].evaluations != [] && userId in db.groups[g].evaluations[0].members
  }

  ghost predicate Known(db: Db, scope: Scope) { scope.GroupScope? ==> scope.groupId in db.groups }

  /** A group can be edited while its newest evaluation is of its current definition. */
  ghost predicate Current(db: Db, scope: Scope) {
    scope.GroupScope? ==>
      && scope.groupId in db.groups && db.groups[scope.groupId].evaluations != []
      && db.groups[scope.groupId].evaluations[0].definitionVersion == db.groups[scope.groupId].definitionVersion
  }

  lemma AffectedExact(db: Db, scope: Scope)
    ensures Affected(db, scope).Ok? <==> Current(db, scope)
    ensures Affected(db, scope) == Err(GroupNotFound) <==> !Known(db, scope)
    ensures Affected(db, scope) == Err(RefreshGroup) <==> Known(db, scope) && !Current(db, scope)
    ensures Affected(db, scope).Ok? ==> forall u :: u in Affected(db, scope).value <==> Concerns(db, scope, u)
    ensures scope.ApplicationScope? ==> forall u :: u in db.users <==> Concerns(db, scope, u)
  {
  }

  /** What a transaction that ended well leaves behind: unique keys, agreement wherever it held, agreement
      of every user of the scope, and every other account as it was. */
  ghost predicate KeepsAgreement(db: Db, db': Db, scope: Scope, window: Windows) {
    && ValidPolicies(db'.policies) && db'.users == db.users && db'.groups == db.groups && db'.less == db.less
    && (forall u :: u in db.users && UserAgrees(db, u, window) ==> UserAgrees(db', u, window))
    && (forall u :: Concerns(db, scope, u) ==> UserAgrees(db', u, window))
    && (forall u :: !Concerns(db, scope, u) ==> AccountOf(db', u) == AccountOf(db, u))
  }

  /** The texts of a fixed window in order, and no window for any other period. */
  ghost predicate Proper(rule: Rule) {
    match rule.period
    case Unknown => false
    case FixedWindow => rule.startsAt.Some? && rule.endsAt.Some? && TextLess(rule.startsAt.value.text, rule.endsAt.value.text)
    case _ => rule.startsAt == None && rule.endsAt == None
  }

  ghost predicate Backwards(rule: Rule) {
    && rule.period == FixedWindow && rule.startsAt.Some? && rule.endsAt.Some?
    && rule.startsAt.value.instant >= rule.endsAt.value.instant
  }

  /** Why a save or a disable is refused. */
  lemma RefusedExactly(db: Db, scope: Scope, rule: Rule, freshId: string, now: int, window: Windows, reason: string)
    ensures var r := Save(db, scope, rule, freshId, now, window).1;
      && (r == Err(InvalidRule) <==> !Proper(rule))
      && (r == Err(GroupNotFound) <==> Proper(rule) && !Known(db, scope))
      && (r == Err(RefreshGroup) <==> Proper(rule) && Known(db, scope) && !Current(db, scope))
      && (r == Err(InvalidPeriod) <==> Proper(rule) && Current(db, scope) && Backwards(rule))
      && r != Err(RuleNotFound)
    ensures var r := Disable(db, scope, now, window, reason).1;
      && (r == Err(GroupNotFound) <==> !Known(db, scope))
      && (r == Err(RefreshGroup) <==> Known(db, scope) && !Current(db, scope))
      && (r == Err(RuleNotFound) <==> Current(db, scope) && forall p :: p in db.policies ==> p.subject != SubjectOf(scope))
      && r != Err(InvalidRule) && r != Err(InvalidPeriod)
  {
    hide MaterializeUsers, FindSubject, Affected, WithPolicy, RulePolicy, TextLess, Current, Known;
    AffectedExact(db, scope);
    var i := FindSubject(db.policies, SubjectOf(scope));
    if i < |db.policies| { assert db.policies[i] in db.policies; }
  }

  lemma SaveKeepsAgreement(db: Db, scope: Scope, rule: Rule, freshId: string, now: int, window: Windows)
    requires ValidPolicies(db.policies) && FreshId(db, freshId)
    ensures var (db', r) := Save(db, scope, rule, freshId, now, window);
      && (r.Err? ==> db' == db)
      && (r.Ok? <==> Proper(rule) && Current(db, scope) && !Backwards(rule))
      && (r.Ok? ==> KeepsAgreement(db, db', scope, window) && r.value in db'.policies && HasTerms(r.value, scope, rule, now)
                    && (forall q :: q in db.policies && q.subject == SubjectOf(scope) ==> q.id == r.value.id)
                    && forall q: Policy :: q.subject != SubjectOf(scope) ==> (q in db'.policies <==> q in db.policies))
  {
    hide MaterializeUsers, FindSubject, UserAgrees, SchemaAccepts, PeriodAllowed, ValidPolicies, RulePolicy, Affected, Proper,
         Backwards, Current, Concerns, HasTerms;
    AffectedExact(db, scope);
    RuleAllowed(rule);
    if SchemaAccepts(rule) && Affected(db, scope).Ok? && PeriodAllowed(rule) {
      var i := FindSubject(db.policies, SubjectOf(scope));
      var p := Save(db, scope, rule, freshId, now, window).1.value;
      SavedTerms(db, scope, rule, freshId, now, window);
      EditKeepsAgreement(db, scope, p, window, rule.reason);
      assert WithPolicy(db.policies, i, p)[i] == p;
      forall q: Policy | q.subject != p.subject ensures q in db.policies <==> q in WithPolicy(db.policies, i, p) {
        OtherRows(db.policies, i, p, q);
      }
    }
  }

  lemma RuleAllowed(rule: Rule)
    ensures SchemaAccepts(rule) && PeriodAllowed(rule) <==> Proper(rule) && !Backwards(rule)
  {
    hide TextLess;
  }

  /** The terms of a rule as a policy holds them; only a fixed window has its two instants. */
  ghost predicate HasTerms(p: Policy, scope: Scope, rule: Rule, now: int) {
    && p.subject == SubjectOf(scope) && p.enabled && p.updatedAt == now && p.limit == rule.limit
    && p.hardLimit == rule.hardLimit && p.period == rule.period && p.priority == rule.priority
    && if rule.period == FixedWindow then
         && rule.startsAt.Some? && p.startsAt == Some(rule.startsAt.value.instant)
         && rule.endsAt.Some? && p.endsAt == Some(rule.endsAt.value.instant)
       else p.startsAt == None && p.endsAt == None
  }

  /** The policy a save writes: the rule's terms, under the identifier of the subject's policy if there is
      one. */
  lemma SavedTerms(db: Db, scope: Scope, rule: Rule, freshId: string, now: int, window: Windows)
    requires ValidPolicies(db.policies) && FreshId(db, freshId) && Save(db, scope, rule, freshId, now, window).1.Ok?
    ensures var p := Save(db, scope, rule, freshId, now, window).1.value;
      && HasTerms(p, scope, rule, now) && p.subject == SubjectOf(scope)
      && (forall q :: q in db.policies && q.subject == SubjectOf(scope) ==> q.id == p.id)
      && var i := FindSubject(db.policies, p.subject); if i < |db.policies| then p.id == db.policies[i].id else FreshId(db, p.id)
  {
    hide MaterializeUsers, FindSubject, TextLess, Affected, UniqueIds;
    var i := FindSubject(db.policies, SubjectOf(scope));
    assert forall q :: q in db.policies && q.subject == SubjectOf(scope) ==> q == db.policies[i];
  }

  lemma DisableKeepsAgreement(db: Db, scope: Scope, now: int, window: Windows, reason: string)
    requires ValidPolicies(db.policies)
    ensures var (db', r) := Disable(db, scope, now, window, reason);
      && (r.Err? ==> db' == db)
      && (r.Ok? <==> Current(db, scope) && exists p :: p in db.policies && p.subject == SubjectOf(scope))
      && (r.Ok? ==> KeepsAgreement(db, db', scope, window) && r.value in db'.policies
                    && (exists p :: p in db.policies && p.subject == SubjectOf(scope)
                                    && r.value == p.(enabled := false, updatedAt := now))
                    && (forall q :: q in db'.policies && q.subject == SubjectOf(scope) ==> !q.enabled)
                    && forall q: Policy :: q.subject != SubjectOf(scope) ==> (q in db'.policies <==> q in db.policies))
  {
    hide MaterializeUsers, FindSubject, UserAgrees, Affected, Current, Concerns;
    AffectedExact(db, scope);
    var i := FindSubject(db.policies, SubjectOf(scope));
    assert i == |db.policies| ==> forall p :: p in db.policies ==> p.subject != SubjectOf(scope);
    if Affected(db, scope).Ok? && i < |db.policies| {
      assert db.policies[i] in db.policies;
      var p := Disable(db, scope, now, window, reason).1.value;
      EditKeepsAgreement(db, scope, p, window, reason);
      assert WithPolicy(db.policies, i, p)[i] == p;
      forall q: Policy | q.subject != p.subject ensures q in db.policies <==> q in WithPolicy(db.policies, i, p) {
        OtherRows(db.policies, i, p, q);
      }
    }
  }

  /** A saved rule with a fixed window, where it is in force, gives the row that window; any other rule gives
      it the period that contains the instant of the call. */
  lemma SavedWindowReaches(db: Db, scope: Scope, rule: Rule, freshId: string, now: int, off: Zone, at: int, userId: string)
    requires ValidPolicies(db.policies) && FreshId(db, freshId) && Concerns(db, scope, userId)
    requires var (db', r) := Save(db, scope, rule, freshId, now, ServiceWindow(off, at));
      r.Ok? && EffectivePolicy(db', userId) == Some(r.value)
    ensures var row := AccountOf(Save(db, scope, rule, freshId, now, ServiceWindow(off, at)).0, userId).quota;
      && row.Some? && row.value.period == rule.period
      && (rule.period == FixedWindow ==>
            && rule.startsAt.Some? && row.value.periodStart == rule.startsAt.value.instant
            && rule.endsAt.Some? && row.value.periodEnd == Some(rule.endsAt.value.instant))
      && (IsCalendar(rule.period) ==>
            PeriodWindow(rule.period, off, at, None) == Ok(Window(row.value.periodStart, row.value.periodEnd)))
  {
    hide Save, Resolve, Proper, Current, Concerns, AccountOf, PeriodWindow, ValidPolicies;
    var window := ServiceWindow(off, at);
    SaveKeepsAgreement(db, scope, rule, freshId, now, window);
    var (db', r) := Save(db, scope, rule, freshId, now, window);
    assert UserAgrees(db', userId, window);
    CalendarWindowOk(rule.period, off, at);
  }

  lemma CalendarWindowOk(period: PeriodType, off: Zone, at: int)
    ensures period != FixedWindow ==> PeriodWindow(period, off, at, None).Ok?
  {
  }

  /** Saving the application's rule gives its terms to every user that no narrower policy reaches. */
  lemma ApplicationRuleReaches(db: Db, rule: Rule, freshId: string, now: int, window: Windows, userId: string)
    requires ValidPolicies(db.policies) && FreshId(db, freshId) && Proper(rule) && !Backwards(rule) && userId in db.users
    requires forall p :: Applies(db.policies, db.groups, userId, p) ==> p.subject.WholeApplication?
    ensures var (db', r) := Save(db, ApplicationScope, rule, freshId, now, window);
      && r.Ok? && EffectivePolicy(db', userId) == Some(r.value)
      && var row := AccountOf(db', userId).quota;
         row.Some? && row.value.enabled && row.value.policyId == Some(r.value.id) && row.value.limit == rule.limit
         && row.value.hardLimit == rule.hardLimit && row.value.period == rule.period
  {
    hide Save, Resolve, Before, FindSubject, CurrentMembers;
    SaveKeepsAgreement(db, ApplicationScope, rule, freshId, now, window);
    var (db', r) := Save(db, ApplicationScope, rule, freshId, now, window);
    assert forall q :: Applies(db'.policies, db.groups, userId, q) && !q.subject.WholeApplication? ==>
                         Applies(db.policies, db.groups, userId, q);
    assert IsEffective(db'.less, db'.policies, db'.groups, userId, Some(r.value));
    ResolveExact(db'.less, db'.policies, db'.groups, userId, Some(r.value));
    assert UserAgrees(db', userId, window);
  }

  // ---- runs ------------------------------------------------------------------------------------

  /** A step of the quota system at one instant. The reservation and settlement services are the
      environment: they move balances of existing rows and keep the books balanced. */
  datatype Step =
    | SaveStep(scope: Scope, rule: Rule, freshId: string, savedAt: int)
    | DisableStep(scope: Scope, disabledAt: int, reason: string)
    | MaterializeStep(userId: string, reason: string)
    | SettleStep

  ghost predicate SameTerms(a: Account, b: Account) {
    match a.quota
    case None => b.quota.None?
    case Some(q) =>
      b.quota.Some? && b.quota.value == q.(consumed := b.quota.value.consumed, reserved := b.quota.value.reserved,
                                           lockVersion := b.quota.value.lockVersion)
  }

  ghost predicate Next(db: Db, step: Step, db': Db, window: Windows) {
    match step
    case SaveStep(scope, rule, id, now) => FreshId(db, id) && db' == Save(db, scope, rule, id, now, window).0
    case DisableStep(scope, now, reason) => db' == Disable(db, scope, now, window, reason).0
    case MaterializeStep(u, reason) => db' == MaterializeUser(db, u, window, reason)
    case SettleStep =>
      && db' == db.(accounts := db'.accounts)
      && forall u :: SameTerms(AccountOf(db, u), AccountOf(db', u)) && (Balanced(AccountOf(db, u)) ==> Balanced(AccountOf(db', u)))
  }

  ghost predicate AllBalanced(db: Db) { forall u :: Balanced(AccountOf(db, u)) }

  ghost predicate AllAgree(db: Db, window: Windows) { forall u :: u in db.users ==> UserAgrees(db, u, window) }

  lemma EditBalanced(db: Db, policies: seq<Policy>, userIds: seq<string>, window: Windows, reason: string)
    requires AllBalanced(db)
    ensures AllBalanced(MaterializeUsers(db.(policies := policies), userIds, window, reason))
  {
    hide MaterializeUsers, Materialized, Resolve, Balanced;
    var mid := db.(policies := policies);
    MaterializeUsersExact(mid, userIds, window, reason);
    var r := MaterializeUsers(mid, userIds, window, reason);
    forall u ensures Balanced(AccountOf(r, u)) {
      assert AccountOf(mid, u) == AccountOf(db, u);
      MaterializedBalanced(EffectivePolicy(mid, u), AccountOf(db, u), window, reason);
    }
  }

  lemma NextBalanced(db: Db, step: Step, db': Db, window: Windows)
    requires AllBalanced(db) && Next(db, step, db', window)
    ensures AllBalanced(db')
  {
    hide MaterializeUsers, Materialized, Resolve, Balanced, AccountOf, FindSubject, WithPolicy, RulePolicy, AllBalanced;
    match step
    case SaveStep(scope, rule, id, now) =>
      if db' != db { EditBalanced(db, db'.policies, Affected(db, scope).value, window, rule.reason); SaveShape(db, scope, rule, id, now, window); }
    case DisableStep(scope, now, reason) =>
      if db' != db { EditBalanced(db, db'.policies, Affected(db, scope).value, window, reason); DisableShape(db, scope, now, window, reason); }
    case MaterializeStep(u, reason) =>
      EditBalanced(db, db.policies, [u], window, reason);
      assert db.(policies := db.policies) == db;
      OneUserOnly(db, u, window, reason);
    case SettleStep =>
      SettleBalanced(db, db', window);
  }

  lemma SettleBalanced(db: Db, db': Db, window: Windows)
    requires AllBalanced(db) && Next(db, SettleStep, db', window)
    ensures AllBalanced(db')
  {
    hide Balanced, AccountOf;
  }

  lemma OneUserOnly(db: Db, u: string, window: Windows, reason: string)
    ensures MaterializeUsers(db, [u], window, reason) == MaterializeUser(db, u, window, reason)
  {
    hide Materialized, Resolve;
    assert [u][..0] == [];
  }

  lemma SaveShape(db: Db, scope: Scope, rule: Rule, id: string, now: int, window: Windows)
    requires Save(db, scope, rule, id, now, window).1.Ok?
    ensures var db' := Save(db, scope, rule, id, now, window).0;
      db' == MaterializeUsers(db.(policies := db'.policies), Affected(db, scope).value, window, rule.reason)
  {
    hide MaterializeUsers, Affected, RulePolicy;
    var i := FindSubject(db.policies, SubjectOf(scope));
    var p := Save(db, scope, rule, id, now, window).1.value;
    MaterializeUsersExact(db.(policies := WithPolicy(db.policies, i, p)), Affected(db, scope).value, window, rule.reason);
  }

  lemma DisableShape(db: Db, scope: Scope, now: int, window: Windows, reason: string)
    requires Disable(db, scope, now, window, reason).1.Ok?
    ensures var db' := Disable(db, scope, now, window, reason).0;
      db' == MaterializeUsers(db.(policies := db'.policies), Affected(db, scope).value, window, reason)
  {
    hide MaterializeUsers, Affected;
    var i := FindSubject(db.policies, SubjectOf(scope));
    var p := Disable(db, scope, now, window, reason).1.value;
    MaterializeUsersExact(db.(policies := WithPolicy(db.policies, i, p)), Affected(db, scope).value, window, reason);
  }

  lemma NextAgrees(db: Db, step: Step, db': Db, window: Windows)
    requires ValidPolicies(db.policies) && AllAgree(db, window) && Next(db, step, db', window)
    ensures ValidPolicies(db'.policies) && AllAgree(db', window)
  {
    hide MaterializeUsers, UserAgrees, ValidPolicies, Save, Disable, Balanced;
    match step
    case SaveStep(scope, rule, id, now) => SaveKeepsAgreement(db, scope, rule, id, now, window);
    case DisableStep(scope, now, reason) => DisableKeepsAgreement(db, scope, now, window, reason);
    case MaterializeStep(u, reason) => MaterializeKeepsAgreement(db, u, window, reason);
    case SettleStep =>
      forall u | UserAgrees(db, u, window) ensures UserAgrees(db', u, window) { SettleKeepsAgreement(db, db', u, window); }
  }

  lemma MaterializeKeepsAgreement(db: Db, userId: string, window: Windows, reason: string)
    ensures var db' := MaterializeUser(db, userId, window, reason);
      && db' == db.(accounts := db'.accounts)
      && UserAgrees(db', userId, window)
      && (forall u :: UserAgrees(db, u, window) ==> UserAgrees(db', u, window))
      && (UserAgrees(db, userId, window) ==> db' == db)
  {
    hide Materialized, Agrees, Resolve, AccountOf;
    MaterializedAgrees(EffectivePolicy(db, userId), AccountOf(db, userId), window, reason);
  }

  lemma SettleKeepsAgreement(db: Db, db': Db, userId: string, window: Windows)
    requires Next(db, SettleStep, db', window) && UserAgrees(db, userId, window)
    ensures UserAgrees(db', userId, window)
  {
    hide Resolve, AccountOf, Balanced;
  }

  /** A run: the states after each step. */
  ghost predicate Run(trace: seq<Db>, steps: seq<Step>, window: Windows) {
    |trace| == |steps| + 1 && forall i :: 0 <= i < |steps| ==> Next(trace[i], steps[i], trace[i + 1], window)
  }

  /** In every state of every run the books balance, and if every user's row agreed with the policy in
      force at the start it does in every later state. */
  lemma {:induction false} RunKeepsInvariants(trace: seq<Db>, steps: seq<Step>, window: Windows)
    requires Run(trace, steps, window) && ValidPolicies(trace[0].policies)
    requires AllBalanced(trace[0]) && AllAgree(trace[0], window)
    ensures forall i :: 0 <= i < |trace| ==> ValidPolicies(trace[i].policies) && AllBalanced(trace[i]) && AllAgree(trace[i], window)
  {
    hide Next, ValidPolicies, AllBalanced, AllAgree;
    if steps != [] {
      NextBalanced(trace[0], steps[0], trace[1], window);
      NextAgrees(trace[0], steps[0], trace[1], window);
      RunKeepsInvariants(trace[1..], steps[1..], window);
      assert forall i :: 1 <= i < |trace| ==> trace[i] == trace[1..][i - 1];
    }
  }

  // ---- the store -------------------------------------------------------------------------------

  class Store {
    const less: TextOrder
    var policies: seq<Policy>
    var groups: Groups
    var users: seq<string>
    var accounts: map<string, Account>

    constructor (db: Db)
      ensures State() == db
    {
      less, policies, groups, users, accounts := db.less, db.policies, db.groups, db.users, db.accounts;
    }

    ghost function State(): Db
      reads this
    {
      Db(less, policies, groups, users, accounts)
    }

    /** Update the user's row, then its ledger, releasing reservations first when the period changes. */
    method Materialize(userId: string, window: Windows, reason: string) returns (row: Option<Quota>)
      modifies this`accounts
      ensures State() == MaterializeUser(old(State()), userId, window, reason)
      ensures row == AccountOf(State(), userId).quota
    {
      hide Resolve, Release, PeriodChanged, Unchanged;
      var policy := Resolve(less, policies, groups, userId);
      var account := if userId in accounts then accounts[userId] else NO_ACCOUNT;
      var current := account.quota;
      if policy.None? {
        if current.None? || current.value.policyId.None? || !current.value.enabled { return current; }
        var q := current.value;
        row := Some(q.(policyId := None, enabled := false, lockVersion := q.lockVersion + 1));
        accounts := accounts[userId := account.(quota := row)];
        accounts := accounts[userId := accounts[userId].(
          ledger := account.ledger + [Entry(0, 0, q.consumed, q.reserved, q.limit, reason)])];
        return;
      }
      var p := policy.value;
      var w := window(p);
      if current.None? {
        row := Some(CreatedQuota(p, w));
        accounts := accounts[userId := account.(quota := row)];
        accounts := accounts[userId := accounts[userId].(ledger := account.ledger + [Entry(0, 0, 0, 0, p.limit, reason)])];
        return;
      }
      var q := current.value;
      var changed := PeriodChanged(q, p, w);
      if Unchanged(q, p, w) { return current; }
      if changed && q.reserved > 0 {
        accounts := accounts[userId := account.(reservations := Release(account.reservations))];
        account := accounts[userId];
      }
      var consumedAfter, reservedAfter := if changed then 0 else q.consumed, if changed then 0 else q.reserved;
      row := Some(UpdatedQuota(q, p, w));
      accounts := accounts[userId := account.(quota := row)];
      accounts := accounts[userId := accounts[userId].(
        ledger := account.ledger
                  + [Entry(consumedAfter - q.consumed, reservedAfter - q.reserved, consumedAfter, reservedAfter, p.limit, reason)])];
    }

    method MaterializeAll(userIds: seq<string>, window: Windows, reason: string)
      modifies this`accounts
      ensures State() == MaterializeUsers(old(State()), userIds, window, reason)
    {
      hide MaterializeUser;
      for i := 0 to |userIds|
        invariant State() == MaterializeUsers(old(State()), userIds[..i], window, reason)
      {
        assert userIds[..i + 1][..i] == userIds[..i];
        var _ := Materialize(userIds[i], window, reason);
      }
      assert userIds[..|userIds|] == userIds;
    }

    method SavePolicy(scope: Scope, rule: Rule, freshId: string, now: int, window: Windows)
      returns (r: Result<Policy, QuotaError>)
      modifies this`policies, this`accounts
      ensures (State(), r) == Save(old(State()), scope, rule, freshId, now, window)
    {
      hide MaterializeUsers, Affected;
      if !SchemaAccepts(rule) { return Err(InvalidRule); }
      var db := Db(less, policies, groups, users, accounts);
      var affected := Affected(db, scope);
      if affected.Err? { return Err(affected.error); }
      if !PeriodAllowed(rule) { return Err(InvalidPeriod); }
      var i := FindSubject(policies, SubjectOf(scope));
      var id := if i < |policies| then policies[i].id else freshId;
      var p := RulePolicy(id, SubjectOf(scope), rule, now);
      policies := WithPolicy(policies, i, p);
      MaterializeAll(affected.value, window, rule.reason);
      r := Ok(p);
    }

    method DisablePolicy(scope: Scope, now: int, window: Windows, reason: string) returns (r: Result<Policy, QuotaError>)
      modifies this`policies, this`accounts
      ensures (State(), r) == Disable(old(State()), scope, now, window, reason)
    {
      hide MaterializeUsers, Affected;
      var db := Db(less, policies, groups, users, accounts);
      var affected := Affected(db, scope);
      if affected.Err? { return Err(affected.error); }
      var i := FindSubject(policies, SubjectOf(scope));
      if i == |policies| { return Err(RuleNotFound); }
      var p := policies[i].(enabled := false, updatedAt := now);
      policies := WithPolicy(policies, i, p);
      MaterializeAll(affected.value, window, reason);
      r := Ok(p);
    }
  }
}

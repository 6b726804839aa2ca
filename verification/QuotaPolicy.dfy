/** The rows a quota decision reads, and the policy in force for one user: a rule for the user, else the
    best rule of a freshly evaluated group containing the user, else the rule of the application. */
module QuotaPolicy {
  import opened Outcomes
  import opened Ordering
  import opened QuotaWindow

  /** Who a policy is about. A row names a user, a group or neither, never both. */
  datatype Subject = OneUser(userId: string) | OneGroup(groupId: string) | WholeApplication

  datatype Policy = Policy(
    id: string, subject: Subject, limit: nat, hardLimit: bool, period: PeriodType, startsAt: Option<int>,
    endsAt: Option<int>, priority: nat, enabled: bool, updatedAt: int)

  datatype Evaluation = Evaluation(definitionVersion: nat, members: seq<string>)

  /** A user group with its evaluations, newest first. */
  datatype Group = Group(definitionVersion: nat, evaluations: seq<Evaluation>)

  type Groups = map<string, Group>

  ghost predicate UniqueIds(policies: seq<Policy>) {
    forall i, j :: 0 <= i < j < |policies| ==> policies[i].id != policies[j].id
  }

  // ---- the query and the three searches --------------------------------------------------------

  /** The row order of the query: priority and update time descending, then identifier ascending. */
  predicate Before(less: TextOrder, p: Policy, q: Policy) {
    if p.priority != q.priority then p.priority > q.priority
    else if p.updatedAt != q.updatedAt then p.updatedAt > q.updatedAt
    else less(p.id, q.id)
  }

  function QueryOrder(less: TextOrder): (Policy, Policy) -> bool {
    (p: Policy, q: Policy) => Before(less, p, q)
  }

  predicate Selected(p: Policy, userId: string) {
    p.enabled && (p.subject.OneUser? ==> p.subject.userId == userId)
  }

  function Select(policies: seq<Policy>, userId: string): (r: seq<Policy>)
    ensures forall p :: p in r <==> p in policies && Selected(p, userId)
  {
    if policies == [] then []
    else
      var n := |policies| - 1;
      assert policies == policies[..n] + [policies[n]];
      Select(policies[..n], userId) + if Selected(policies[n], userId) then [policies[n]] else []
  }

  function Find(rows: seq<Policy>, wanted: Policy -> bool): (r: Option<Policy>)
    ensures r.Some? ==> r.value in rows && wanted(r.value)
    ensures r.None? ==> forall p :: p in rows ==> !wanted(p)
  {
    if rows == [] then None else if wanted(rows[0]) then Some(rows[0]) else Find(rows[1..], wanted)
  }

  /** The members a group policy reaches: those of the newest evaluation, if it is of the current
      definition. */
  function CurrentMembers(groups: Groups, groupId: string): seq<string> {
    if groupId !in groups then []
    else
      var g := groups[groupId];
      if g.evaluations == [] || g.evaluations[0].definitionVersion != g.definitionVersion then []
      else g.evaluations[0].members
  }

  predicate ReachesMember(groups: Groups, p: Policy, userId: string) {
    p.subject.OneGroup? && userId in CurrentMembers(groups, p.subject.groupId)
  }

  function Resolve(less: TextOrder, policies: seq<Policy>, groups: Groups, userId: string): Option<Policy> {
    var rows := Sort(QueryOrder(less), Select(policies, userId));
    var direct := Find(rows, (p: Policy) => p.subject.OneUser?);
    if direct.Some? then direct
    else
      var group := Find(rows, (p: Policy) => ReachesMember(groups, p, userId));
      if group.Some? then group else Find(rows, (p: Policy) => p.subject.WholeApplication?)
  }

  // ---- what it means ---------------------------------------------------------------------------

  predicate Applies(policies: seq<Policy>, groups: Groups, userId: string, p: Policy) {
    && p in policies && p.enabled
    && match p.subject
       case OneUser(u) => u == userId
       case OneGroup(g) =>
         && g in groups && groups[g].evaluations != []
         && groups[g].evaluations[0].definitionVersion == groups[g].definitionVersion
         && userId in groups[g].evaluations[0].members
       case WholeApplication => true
  }

  function Tier(s: Subject): nat {
    match s case OneUser(_) => 0 case OneGroup(_) => 1 case WholeApplication => 2
  }

  /** `p` wins over `q`: the narrower subject, then the higher priority, the later update, the lesser
      identifier. */
  predicate Wins(less: TextOrder, p: Policy, q: Policy) {
    || Tier(p.subject) < Tier(q.subject)
    || (&& Tier(p.subject) == Tier(q.subject)
        && (|| p.priority > q.priority
            || (p.priority == q.priority && (p.updatedAt > q.updatedAt || (p.updatedAt == q.updatedAt && less(p.id, q.id))))))
  }

  /** The applying policy that wins over every other applying one, or none when none applies. */
  ghost predicate IsEffective(less: TextOrder, policies: seq<Policy>, groups: Groups, userId: string, r: Option<Policy>) {
    match r
    case None => forall p :: !Applies(policies, groups, userId, p)
    case Some(p) =>
      && Applies(policies, groups, userId, p)
      && forall q :: Applies(policies, groups, userId, q) && q != p ==> Wins(less, p, q)
  }

  // ---- the search finds it ---------------------------------------------------------------------

  lemma QueryOrderStrict(less: TextOrder)
    ensures StrictOrder(QueryOrder(less))
  {
  }

  lemma BeforeTotal(less: TextOrder, p: Policy, q: Policy)
    requires p.id != q.id
    ensures Before(less, p, q) || Before(less, q, p)
  {
  }

  lemma {:induction false} SelectUnique(policies: seq<Policy>, userId: string)
    requires UniqueIds(policies)
    ensures UniqueIds(Select(policies, userId))
  {
    if policies != [] {
      var n := |policies| - 1;
      SelectUnique(policies[..n], userId);
      var front := Select(policies[..n], userId);
      forall i | 0 <= i < |front| ensures front[i].id != policies[n].id {
        assert front[i] in policies[..n];
      }
    }
  }

  lemma RowsSorted(less: TextOrder, policies: seq<Policy>, userId: string)
    requires UniqueIds(policies)
    ensures var rows := Sort(QueryOrder(less), Select(policies, userId));
      Ascending(QueryOrder(less), rows) && forall p :: p in rows <==> p in policies && Selected(p, userId)
  {
    hide Before, Selected, Sort, Select;
    var rows := Select(policies, userId);
    SelectUnique(policies, userId);
    QueryOrderStrict(less);
    forall i, j | 0 <= i < j < |rows| ensures QueryOrder(less)(rows[i], rows[j]) || QueryOrder(less)(rows[j], rows[i]) {
      BeforeTotal(less, rows[i], rows[j]);
    }
    SortAscending(QueryOrder(less), rows);
    SameMultisetSameElements(Sort(QueryOrder(less), rows), rows);
  }

  /** A search through ascending rows finds the least wanted one. */
  lemma {:induction false} FindLeast(less: TextOrder, rows: seq<Policy>, wanted: Policy -> bool)
    requires Ascending(QueryOrder(less), rows) && Find(rows, wanted).Some?
    ensures forall q :: q in rows && wanted(q) && q != Find(rows, wanted).value ==> Before(less, Find(rows, wanted).value, q)
  {
    hide Before;
    if wanted(rows[0]) {
    } else {
      FindLeast(less, rows[1..], wanted);
    }
  }

  lemma WinsByQuery(less: TextOrder, p: Policy, q: Policy)
    ensures Wins(less, p, q) <==> Tier(p.subject) < Tier(q.subject) || (Tier(p.subject) == Tier(q.subject) && Before(less, p, q))
  {
  }

  lemma ResolveEffective(less: TextOrder, policies: seq<Policy>, groups: Groups, userId: string)
    requires UniqueIds(policies)
    ensures IsEffective(less, policies, groups, userId, Resolve(less, policies, groups, userId))
  {
    hide Before, Sort, Select, Find, Wins;
    forall p, q ensures Wins(less, p, q) <==> Tier(p.subject) < Tier(q.subject) || (Tier(p.subject) == Tier(q.subject) && Before(less, p, q)) {
      WinsByQuery(less, p, q);
    }
    var rows := Sort(QueryOrder(less), Select(policies, userId));
    RowsSorted(less, policies, userId);
    var direct := Find(rows, (p: Policy) => p.subject.OneUser?);
    var group := Find(rows, (p: Policy) => ReachesMember(groups, p, userId));
    var whole := Find(rows, (p: Policy) => p.subject.WholeApplication?);
    assert forall p :: Applies(policies, groups, userId, p) ==> p in rows;
    if direct.Some? {
      FindLeast(less, rows, (p: Policy) => p.subject.OneUser?);
    } else if group.Some? {
      FindLeast(less, rows, (p: Policy) => ReachesMember(groups, p, userId));
    } else if whole.Some? {
      FindLeast(less, rows, (p: Policy) => p.subject.WholeApplication?);
    }
  }

  lemma EffectiveUnique(less: TextOrder, policies: seq<Policy>, groups: Groups, userId: string, a: Option<Policy>, b: Option<Policy>)
    requires IsEffective(less, policies, groups, userId, a) && IsEffective(less, policies, groups, userId, b)
    ensures a == b
  {
    hide Applies;
    assert a.None? || Applies(policies, groups, userId, a.value);
    assert b.None? || Applies(policies, groups, userId, b.value);
  }

  /** Resolution returns exactly the effective policy. */
  lemma ResolveExact(less: TextOrder, policies: seq<Policy>, groups: Groups, userId: string, r: Option<Policy>)
    requires UniqueIds(policies)
    ensures Resolve(less, policies, groups, userId) == r <==> IsEffective(less, policies, groups, userId, r)
  {
    hide Resolve, IsEffective;
    ResolveEffective(less, policies, groups, userId);
    if IsEffective(less, policies, groups, userId, r) {
      EffectiveUnique(less, policies, groups, userId, r, Resolve(less, policies, groups, userId));
    }
  }

  /** The policy in force depends only on the policies that apply to the user. */
  lemma ResolveFrame(less: TextOrder, policies: seq<Policy>, policies': seq<Policy>, groups: Groups, userId: string)
    requires UniqueIds(policies) && UniqueIds(policies')
    requires forall p :: Applies(policies, groups, userId, p) <==> Applies(policies', groups, userId, p)
    ensures Resolve(less, policies', groups, userId) == Resolve(less, policies, groups, userId)
  {
    hide Resolve, Applies, Wins;
    var r := Resolve(less, policies, groups, userId);
    ResolveEffective(less, policies, groups, userId);
    ResolveExact(less, policies', groups, userId, r);
  }
}

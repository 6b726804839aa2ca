/** How far each connector lags behind the published configuration of its application. */
module Acknowledgement {
  import opened Outcomes

  datatype Published = Published(application: string, slug: string, version: nat)

  datatype AckState = Applied | Received | Rejected

  datatype Ack = Ack(application: string, instance: string, name: string, version: nat, state: AckState)

  datatype Key = Key(application: string, instance: string)

  /** What the second loop keeps for a connector. */
  datatype Progress = Progress(name: string, latest: AckState, applied: Option<nat>)

  function KeyOf(a: Ack): Key { Key(a.application, a.instance) }

  const NUL: char := 0 as char

  /** The text under which the loop keeps a connector. */
  function KeyText(k: Key): string { k.application + [NUL] + k.instance }

  /** The text identifies the pair, because identifiers of applications contain no NUL. */
  lemma KeyTextInjective(a: Key, b: Key)
    requires NUL !in a.application && NUL !in b.application && KeyText(a) == KeyText(b)
    ensures a == b
  {
    var n, m := |a.application|, |b.application|;
    assert KeyText(a)[n] == NUL && KeyText(b)[m] == NUL;
    assert forall i :: 0 <= i < n ==> KeyText(a)[i] == a.application[i] && a.application[i] in a.application;
    assert forall i :: 0 <= i < m ==> KeyText(b)[i] == b.application[i] && b.application[i] in b.application;
    assert n == m;
    assert KeyText(a)[..n] == a.application && KeyText(b)[..n] == b.application;
    assert KeyText(a)[n + 1..] == a.instance && KeyText(b)[n + 1..] == b.instance;
  }

  // ---- what the loops compute ------------------------------------------------------------------

  /** The row of the application with the greatest version, the first one among equals. */
  ghost predicate IsCurrent(rows: seq<Published>, r: Published) {
    exists i :: 0 <= i < |rows| && rows[i] == r
      && (forall j :: 0 <= j < |rows| && rows[j].application == r.application ==> rows[j].version <= r.version)
      && (forall j :: 0 <= j < i && rows[j].application == r.application ==> rows[j].version < r.version)
  }

  /** `m` is the greatest applied version of the connector, or none was applied. */
  ghost predicate IsGreatestApplied(acks: seq<Ack>, k: Key, m: Option<nat>) {
    match m
    case None => forall i :: 0 <= i < |acks| && KeyOf(acks[i]) == k ==> acks[i].state != Applied
    case Some(v) =>
      && (exists i :: 0 <= i < |acks| && KeyOf(acks[i]) == k && acks[i].state == Applied && acks[i].version == v)
      && (forall i :: 0 <= i < |acks| && KeyOf(acks[i]) == k && acks[i].state == Applied ==> acks[i].version <= v)
  }

  /** The first acknowledgement of a connector is its newest. */
  ghost predicate IsNewest(acks: seq<Ack>, k: Key, a: Ack) {
    exists i :: 0 <= i < |acks| && acks[i] == a && KeyOf(a) == k && forall j :: 0 <= j < i ==> KeyOf(acks[j]) != k
  }

  ghost predicate Has(acks: seq<Ack>, k: Key) { exists i :: 0 <= i < |acks| && KeyOf(acks[i]) == k }

  ghost predicate CurrentMap(rows: seq<Published>, current: map<string, Published>) {
    && (forall a :: a in current ==> current[a].application == a && IsCurrent(rows, current[a]))
    && (forall i :: 0 <= i < |rows| ==> rows[i].application in current)
  }

  lemma CurrentKept(rows: seq<Published>, c: Published, r: Published)
    requires IsCurrent(rows, c) && (r.application == c.application ==> r.version <= c.version)
    ensures IsCurrent(rows + [r], c)
  {
    var i :| 0 <= i < |rows| && rows[i] == c
      && (forall j :: 0 <= j < |rows| && rows[j].application == c.application ==> rows[j].version <= c.version)
      && (forall j :: 0 <= j < i && rows[j].application == c.application ==> rows[j].version < c.version);
    assert (rows + [r])[i] == c;
  }

  lemma CurrentReplaced(rows: seq<Published>, r: Published)
    requires forall j :: 0 <= j < |rows| && rows[j].application == r.application ==> rows[j].version < r.version
    ensures IsCurrent(rows + [r], r)
  {
    assert (rows + [r])[|rows|] == r;
  }

  lemma CurrentBounds(rows: seq<Published>, c: Published)
    requires IsCurrent(rows, c)
    ensures forall j :: 0 <= j < |rows| && rows[j].application == c.application ==> rows[j].version <= c.version
  {
  }

  lemma CurrentStep(rows: seq<Published>, current: map<string, Published>, r: Published)
    requires CurrentMap(rows, current)
    ensures var replace := r.application !in current || current[r.application].version < r.version;
      CurrentMap(rows + [r], if replace then current[r.application := r] else current)
  {
    hide IsCurrent;
    var replace := r.application !in current || current[r.application].version < r.version;
    var next := if replace then current[r.application := r] else current;
    if replace {
      if r.application in current { CurrentBounds(rows, current[r.application]); }
      CurrentReplaced(rows, r);
    }
    forall a | a in next ensures next[a].application == a && IsCurrent(rows + [r], next[a]) {
      if !(replace && a == r.application) { CurrentKept(rows, current[a], r); }
    }
  }

  /** The first loop: the current configuration of every application. */
  method CurrentByApplication(rows: seq<Published>) returns (current: map<string, Published>)
    ensures CurrentMap(rows, current)
  {
    hide CurrentMap;
    current := map[];
    assert CurrentMap([], map[]) by { NoneCurrent(); }
    for i := 0 to |rows|
      invariant CurrentMap(rows[..i], current)
    {
      var r := rows[i];
      CurrentStep(rows[..i], current, r);
      assert rows[..i + 1] == rows[..i] + [r];
      if r.application !in current || current[r.application].version < r.version {
        current := current[r.application := r];
      }
    }
    assert rows[..|rows|] == rows;
  }

  lemma NoneCurrent()
    ensures CurrentMap([], map[])
  {
  }

  ghost predicate Tracked(acks: seq<Ack>, k: Key, p: Progress) {
    && IsGreatestApplied(acks, k, p.applied)
    && exists a :: IsNewest(acks, k, a) && a.state == p.latest && a.name == p.name
  }

  ghost predicate ProgressMap(current: map<string, Published>, acks: seq<Ack>, states: map<Key, Progress>) {
    forall k :: (k in states <==> Has(acks, k) && k.application in current) && (k in states ==> Tracked(acks, k, states[k]))
  }

  /** The progress of a connector after one more, older, acknowledgement of it. */
  function Advance(was: Option<Progress>, a: Ack): Progress {
    match was
    case None => Progress(a.name, a.state, if a.state == Applied then Some(a.version) else None)
    case Some(p) =>
      if a.state != Applied then p
      else
        var applied := if p.applied.Some? then p.applied.value else 0;
        p.(applied := Some(if applied < a.version then a.version else applied))
  }

  lemma GreatestStep(acks: seq<Ack>, k: Key, m: Option<nat>, a: Ack)
    requires IsGreatestApplied(acks, k, m)
    ensures var applied := if m.Some? then m.value else 0;
      var next := if KeyOf(a) != k || a.state != Applied then m else Some(if applied < a.version then a.version else applied);
      IsGreatestApplied(acks + [a], k, next)
  {
    var all := acks + [a];
    assert all[|acks|] == a;
    if m.Some? {
      var i :| 0 <= i < |acks| && KeyOf(acks[i]) == k && acks[i].state == Applied && acks[i].version == m.value;
      assert all[i] == acks[i];
    }
  }

  lemma NewestStep(acks: seq<Ack>, k: Key, first: Ack, a: Ack)
    requires IsNewest(acks, k, first)
    ensures IsNewest(acks + [a], k, first)
  {
    var i :| 0 <= i < |acks| && acks[i] == first && KeyOf(first) == k && forall j :: 0 <= j < i ==> KeyOf(acks[j]) != k;
    assert (acks + [a])[i] == first;
  }

  lemma HasStep(acks: seq<Ack>, k: Key, a: Ack)
    ensures Has(acks + [a], k) <==> Has(acks, k) || KeyOf(a) == k
  {
    var all := acks + [a];
    assert all[|acks|] == a;
    if Has(acks, k) {
      var i :| 0 <= i < |acks| && KeyOf(acks[i]) == k;
      assert all[i] == acks[i];
    }
  }

  lemma TrackStep(acks: seq<Ack>, k: Key, was: Option<Progress>, a: Ack)
    requires if was.Some? then Tracked(acks, k, was.value) else !Has(acks, k)
    ensures KeyOf(a) == k ==> Tracked(acks + [a], k, Advance(was, a))
    ensures KeyOf(a) != k && was.Some? ==> Tracked(acks + [a], k, was.value)
  {
    hide IsNewest, IsGreatestApplied;
    match was {
      case Some(p) =>
        GreatestStep(acks, k, p.applied, a);
        var first :| IsNewest(acks, k, first) && first.state == p.latest && first.name == p.name;
        NewestStep(acks, k, first, a);
      case None =>
        if KeyOf(a) == k { FirstTracked(acks, k, a); }
    }
  }

  lemma FirstTracked(acks: seq<Ack>, k: Key, a: Ack)
    requires !Has(acks, k) && KeyOf(a) == k
    ensures Tracked(acks + [a], k, Advance(None, a))
  {
    var all := acks + [a];
    assert all[|acks|] == a;
    assert IsNewest(all, k, a);
    assert forall i :: 0 <= i < |all| && KeyOf(all[i]) == k ==> all[i] == a;
  }

  lemma ProgressStep(current: map<string, Published>, acks: seq<Ack>, states: map<Key, Progress>, a: Ack)
    requires ProgressMap(current, acks, states)
    ensures var was := if KeyOf(a) in states then Some(states[KeyOf(a)]) else None;
      ProgressMap(current, acks + [a], if a.application in current then states[KeyOf(a) := Advance(was, a)] else states)
  {
    hide Tracked, Has, Advance;
    var was := if KeyOf(a) in states then Some(states[KeyOf(a)]) else None;
    var next := if a.application in current then states[KeyOf(a) := Advance(was, a)] else states;
    forall k ensures (k in next <==> Has(acks + [a], k) && k.application in current) && (k in next ==> Tracked(acks + [a], k, next[k])) {
      HasStep(acks, k, a);
      if k in states { TrackStep(acks, k, Some(states[k]), a); }
      else if !Has(acks, k) { TrackStep(acks, k, None, a); }
    }
  }

  /** The second loop: the newest state and greatest applied version of every connector of a published
      application, from acknowledgements ordered newest first. */
  method ConnectorStates(current: map<string, Published>, acks: seq<Ack>) returns (states: map<Key, Progress>)
    ensures ProgressMap(current, acks, states) && states == Fold(current, acks)
  {
    hide ProgressMap, Advance;
    states := map[];
    assert ProgressMap(current, [], map[]) by { NoProgress(current); }
    for i := 0 to |acks|
      invariant ProgressMap(current, acks[..i], states) && states == Fold(current, acks[..i])
    {
      assert acks[..i + 1][..i] == acks[..i];
      var a := acks[i];
      ProgressStep(current, acks[..i], states, a);
      assert acks[..i + 1] == acks[..i] + [a];
      if a.application in current {
        var was := if KeyOf(a) in states then Some(states[KeyOf(a)]) else None;
        states := states[KeyOf(a) := Advance(was, a)];
      }
    }
    assert acks[..|acks|] == acks;
  }

  // ---- the map keyed by text -------------------------------------------------------------------

  /** The progress after all acknowledgements, kept by connector. */
  function Fold(current: map<string, Published>, acks: seq<Ack>): map<Key, Progress> {
    if acks == [] then map[]
    else
      var states, a := Fold(current, acks[..|acks| - 1]), acks[|acks| - 1];
      if a.application !in current then states
      else states[KeyOf(a) := Advance(if KeyOf(a) in states then Some(states[KeyOf(a)]) else None, a)]
  }

  /** The same, kept by the joined text. */
  function TextFold(current: map<string, Published>, acks: seq<Ack>): map<string, Progress> {
    if acks == [] then map[]
    else
      var states, a := TextFold(current, acks[..|acks| - 1]), acks[|acks| - 1];
      var k := KeyText(KeyOf(a));
      if a.application !in current then states
      else states[k := Advance(if k in states then Some(states[k]) else None, a)]
  }

  ghost predicate NulFree(acks: seq<Ack>) { forall i :: 0 <= i < |acks| ==> NUL !in acks[i].application }

  /** The two maps hold the same progress under corresponding keys. */
  ghost predicate SameStates(states: map<Key, Progress>, texts: map<string, Progress>) {
    && (forall k :: k in states ==> NUL !in k.application && KeyText(k) in texts && texts[KeyText(k)] == states[k])
    && (forall s :: s in texts ==> exists k :: k in states && KeyText(k) == s)
  }

  lemma SameStatesStep(states: map<Key, Progress>, texts: map<string, Progress>, key: Key, p: Progress)
    requires SameStates(states, texts) && NUL !in key.application
    ensures key in states <==> KeyText(key) in texts
    ensures SameStates(states[key := p], texts[KeyText(key) := p])
  {
    hide KeyText;
    if KeyText(key) in texts {
      var k :| k in states && KeyText(k) == KeyText(key);
      KeyTextInjective(k, key);
    }
    var states', texts' := states[key := p], texts[KeyText(key) := p];
    forall k | k in states' ensures NUL !in k.application && KeyText(k) in texts' && texts'[KeyText(k)] == states'[k] {
      if k != key && KeyText(k) == KeyText(key) { KeyTextInjective(k, key); }
    }
    forall s | s in texts' ensures exists k :: k in states' && KeyText(k) == s {
      if s == KeyText(key) {
        assert key in states';
      } else {
        var k :| k in states && KeyText(k) == s;
        assert k in states';
      }
    }
  }

  /** Keeping the progress by joined text, as the loop does, is keeping it by connector. */
  lemma {:induction false} TextFoldExact(current: map<string, Published>, acks: seq<Ack>)
    requires NulFree(acks)
    ensures SameStates(Fold(current, acks), TextFold(current, acks))
  {
    hide KeyText, SameStates, Advance;
    if acks == [] {
      assert SameStates(map[], map[]) by { NoStates(); }
    } else {
      var n := |acks| - 1;
      TextFoldExact(current, acks[..n]);
      var states, texts, a := Fold(current, acks[..n]), TextFold(current, acks[..n]), acks[n];
      var was := if KeyOf(a) in states then Some(states[KeyOf(a)]) else None;
      SameStatesStep(states, texts, KeyOf(a), Advance(was, a));
      if KeyOf(a) in states { SameValue(states, texts, KeyOf(a)); }
    }
  }

  lemma NoStates()
    ensures SameStates(map[], map[])
  {
  }

  lemma SameValue(states: map<Key, Progress>, texts: map<string, Progress>, k: Key)
    requires SameStates(states, texts) && k in states
    ensures KeyText(k) in texts && texts[KeyText(k)] == states[k]
  {
    hide KeyText;
  }

  lemma NoProgress(current: map<string, Published>)
    ensures ProgressMap(current, [], map[])
  {
  }

  // ---- the lag ---------------------------------------------------------------------------------

  function Max(a: int, b: int): int { if a < b then b else a }

  function Lag(current: Published, p: Progress): int {
    Max(Max(0, current.version - if p.applied.Some? then p.applied.value else 0), if p.latest == Applied then 0 else 1)
  }

  /** A connector has no lag exactly when its newest acknowledgement says applied and it has applied a
      version at least as new as every published version of its application. */
  lemma NoLagExactly(rows: seq<Published>, acks: seq<Ack>, current: map<string, Published>, states: map<Key, Progress>, k: Key)
    requires CurrentMap(rows, current) && ProgressMap(current, acks, states) && k in states
    ensures k.application in current && Lag(current[k.application], states[k]) >= 0
    ensures Lag(current[k.application], states[k]) == 0 <==>
      && (forall a :: IsNewest(acks, k, a) ==> a.state == Applied)
      && CaughtUp(rows, acks, k)
  {
    hide IsNewest, Has;
    var c, p := current[k.application], states[k];
    assert Tracked(acks, k, p);
    var first :| IsNewest(acks, k, first) && first.state == p.latest && first.name == p.name;
    forall a | IsNewest(acks, k, a) ensures a == first { NewestUnique(acks, k, a, first); }
    CaughtUpExact(rows, acks, k, c, p.applied);
    if p.latest == Applied { NewestApplied(acks, k, first); }
  }

  /** The lag is within `n` exactly when every published version is reached by an applied one, or by none at
      all, up to `n` versions, and for zero the newest acknowledgement says applied. */
  lemma LagExactly(rows: seq<Published>, acks: seq<Ack>, current: map<string, Published>, states: map<Key, Progress>, k: Key, n: int)
    requires CurrentMap(rows, current) && ProgressMap(current, acks, states) && k in states
    ensures k.application in current
    ensures Lag(current[k.application], states[k]) <= n <==>
      && n >= 0 && (forall a :: IsNewest(acks, k, a) ==> n >= 1 || a.state == Applied)
      && forall r :: r in rows && r.application == k.application ==> Reached(acks, k, r.version - n)
  {
    hide IsNewest, Has, Reached;
    var c, p := current[k.application], states[k];
    assert Tracked(acks, k, p);
    var first :| IsNewest(acks, k, first) && first.state == p.latest && first.name == p.name;
    forall a | IsNewest(acks, k, a) ensures a == first { NewestUnique(acks, k, a, first); }
    assert c in rows && forall r :: r in rows && r.application == c.application ==> r.version <= c.version;
    forall v ensures Reached(acks, k, v) <==> v <= if p.applied.Some? then p.applied.value else 0 {
      ReachedExact(acks, k, p.applied, v);
    }
  }

  /** Some applied version of the connector is at least `v`, or none is needed. */
  ghost predicate Reached(acks: seq<Ack>, k: Key, v: int) {
    v <= 0 || exists i :: 0 <= i < |acks| && KeyOf(acks[i]) == k && acks[i].state == Applied && v <= acks[i].version
  }

  lemma ReachedExact(acks: seq<Ack>, k: Key, m: Option<nat>, v: int)
    requires IsGreatestApplied(acks, k, m)
    ensures Reached(acks, k, v) <==> v <= if m.Some? then m.value else 0
  {
    if m.Some? {
      var i :| 0 <= i < |acks| && KeyOf(acks[i]) == k && acks[i].state == Applied && acks[i].version == m.value;
    }
  }

  ghost predicate CaughtUp(rows: seq<Published>, acks: seq<Ack>, k: Key) {
    exists i :: 0 <= i < |acks| && KeyOf(acks[i]) == k && acks[i].state == Applied
      && forall r :: r in rows && r.application == k.application ==> r.version <= acks[i].version
  }

  lemma CaughtUpExact(rows: seq<Published>, acks: seq<Ack>, k: Key, c: Published, m: Option<nat>)
    requires IsCurrent(rows, c) && c.application == k.application && IsGreatestApplied(acks, k, m)
    ensures CaughtUp(rows, acks, k) <==> m.Some? && c.version <= m.value
  {
    assert c in rows && forall r :: r in rows && r.application == c.application ==> r.version <= c.version;
    if m.Some? {
      var i :| 0 <= i < |acks| && KeyOf(acks[i]) == k && acks[i].state == Applied && acks[i].version == m.value;
    }
  }

  lemma NewestUnique(acks: seq<Ack>, k: Key, a: Ack, b: Ack)
    requires IsNewest(acks, k, a) && IsNewest(acks, k, b)
    ensures a == b
  {
  }

  lemma NewestApplied(acks: seq<Ack>, k: Key, a: Ack)
    requires IsNewest(acks, k, a) && a.state == Applied
    ensures !IsGreatestApplied(acks, k, None)
  {
  }
}

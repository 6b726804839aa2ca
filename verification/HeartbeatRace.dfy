/** Concurrent heartbeat writers: the unique receipt arbitrates, and a writer that loses the race is
    rolled back and reads the receipt again. Every interleaving is a sequential delivery. */
module HeartbeatRace {
  import opened Json
  import opened Heartbeat

  datatype Phase = Start | Writing | Lost | Answered(outcome: Outcome) | Failed

  /** One atomic segment of a writer. `Collide` is a unique conflict on another row, such as the
      connector; `Break` is any other error. */
  datatype Action = Read | Commit | Collide | Break | Reread

  /** The log lists the writers that committed, in order. */
  datatype State = State(db: Db, phases: seq<Phase>, log: seq<nat>)

  datatype Event = Event(writer: nat, action: Action)

  function Classify(env: Env, db: Db, h: Heartbeat): Outcome
    requires h.id in db.receipts
  {
    var stored := db.receipts[h.id].payloadHash;
    if stored == HashOf(env, h) then Duplicate else Conflict(stored)
  }

  function Initial(db: Db, writers: nat): State { State(db, seq(writers, _ => Start), []) }

  function Step(env: Env, ds: seq<Delivery>, s: State, w: nat, action: Action): (r: State)
    requires |s.phases| == |ds|
    ensures |r.phases| == |ds|
  {
    if w >= |ds| then s
    else
      var h := ds[w].heartbeat;
      var known := h.id in s.db.receipts;
      match (s.phases[w], action)
      case (Start, Read) => s.(phases := s.phases[w := if known then Answered(Classify(env, s.db, h)) else Writing])
      case (Writing, Commit) =>
        if known then s.(phases := s.phases[w := Lost])
        else
          var (db, outcome) := Persist(env, s.db, h, ds[w].receivedAt);
          State(db, s.phases[w := Answered(outcome)], s.log + [w])
      case (Writing, Collide) => s.(phases := s.phases[w := Lost])
      case (Lost, Reread) => s.(phases := s.phases[w := if known then Answered(Classify(env, s.db, h)) else Failed])
      case (Start, Break) => s.(phases := s.phases[w := Failed])
      case (Writing, Break) => s.(phases := s.phases[w := Failed])
      case (Lost, Break) => s.(phases := s.phases[w := Failed])
      case _ => s
  }

  function RunAll(env: Env, ds: seq<Delivery>, s: State, schedule: seq<Event>): (r: State)
    requires |s.phases| == |ds|
    ensures |r.phases| == |ds|
  {
    if schedule == [] then s
    else
      var n := |schedule| - 1;
      Step(env, ds, RunAll(env, ds, s, schedule[..n]), schedule[n].writer, schedule[n].action)
  }

  // ---- the invariant ---------------------------------------------------------------------------

  ghost predicate InRange(log: seq<nat>, n: nat) { forall i :: 0 <= i < |log| ==> log[i] < n }

  /** The deliveries of the listed writers. */
  ghost function Committed(ds: seq<Delivery>, log: seq<nat>): (r: seq<Delivery>)
    requires InRange(log, |ds|)
    ensures |r| == |log| && forall i :: 0 <= i < |r| ==> r[i] == ds[log[i]]
  {
    seq(|log|, i requires 0 <= i < |log| => ds[log[i]])
  }

  ghost predicate Replayed(env: Env, ds: seq<Delivery>, start: Db, s: State) {
    InRange(s.log, |ds|) && s.db == Run(env, start, Committed(ds, s.log))
  }

  /** The writer was told what its delivery says when it comes last of the committed ones so far. */
  ghost predicate Won(env: Env, ds: seq<Delivery>, start: Db, s: State, i: nat)
    requires InRange(s.log, |ds|) && |s.phases| == |ds| && i < |s.log|
  {
    var d := ds[s.log[i]];
    var before := Run(env, start, Committed(ds, s.log[..i]));
    d.heartbeat.id !in before.receipts && s.phases[s.log[i]] == Answered(Persist(env, before, d.heartbeat, d.receivedAt).1)
  }

  /** A writer that did not commit was told how it compares with the stored receipt. */
  ghost predicate Compared(env: Env, db: Db, h: Heartbeat, phase: Phase) {
    phase.Answered? ==> h.id in db.receipts && phase == Answered(Classify(env, db, h))
  }

  ghost predicate Invariant(env: Env, ds: seq<Delivery>, start: Db, s: State) {
    && |s.phases| == |ds| && Replayed(env, ds, start, s)
    && (forall i :: 0 <= i < |s.log| ==> Won(env, ds, start, s, i))
    && (forall w :: 0 <= w < |ds| && w !in s.log ==> Compared(env, s.db, ds[w].heartbeat, s.phases[w]))
  }

  lemma CommittedStep(ds: seq<Delivery>, log: seq<nat>, w: nat)
    requires InRange(log, |ds|) && w < |ds|
    ensures InRange(log + [w], |ds|) && Committed(ds, log + [w]) == Committed(ds, log) + [ds[w]]
  {
  }

  lemma RunStep(env: Env, start: Db, ds: seq<Delivery>, d: Delivery)
    ensures Run(env, start, ds + [d]) == Persist(env, Run(env, start, ds), d.heartbeat, d.receivedAt).0
  {
    hide Persist;
    assert (ds + [d])[..|ds|] == ds;
  }

  lemma PersistKeepsReceipts(env: Env, db: Db, h: Heartbeat, receivedAt: int, id: string)
    requires id in db.receipts
    ensures id in Persist(env, db, h, receivedAt).0.receipts && Persist(env, db, h, receivedAt).0.receipts[id] == db.receipts[id]
  {
    hide HashOf, Replaces, Touch;
  }

  lemma NotLogged(env: Env, ds: seq<Delivery>, start: Db, s: State, w: nat)
    requires Invariant(env, ds, start, s) && w < |ds| && s.phases[w] == Writing
    ensures w !in s.log
  {
    hide Run, Persist;
    forall i | 0 <= i < |s.log| ensures s.log[i] != w { assert Won(env, ds, start, s, i); }
  }

  lemma CommitKeepsInvariant(env: Env, ds: seq<Delivery>, start: Db, s: State, w: nat)
    requires Invariant(env, ds, start, s) && w < |ds| && s.phases[w] == Writing && ds[w].heartbeat.id !in s.db.receipts
    ensures Invariant(env, ds, start, Step(env, ds, s, w, Commit))
  {
    hide Persist, Run, HashOf;
    var d := ds[w];
    var r := Step(env, ds, s, w, Commit);
    CommittedStep(ds, s.log, w);
    RunStep(env, start, Committed(ds, s.log), d);
    NotLogged(env, ds, start, s, w);
    forall i | 0 <= i < |r.log| ensures Won(env, ds, start, r, i) {
      if i < |s.log| {
        assert Won(env, ds, start, s, i);
        assert r.log[..i] == s.log[..i];
      } else {
        assert r.log[..i] == s.log;
      }
    }
    forall v | 0 <= v < |ds| && v !in r.log ensures Compared(env, r.db, ds[v].heartbeat, r.phases[v]) {
      assert v !in s.log && v != w;
      if r.phases[v].Answered? { PersistKeepsReceipts(env, s.db, d.heartbeat, d.receivedAt, ds[v].heartbeat.id); }
    }
  }

  lemma StepKeepsInvariant(env: Env, ds: seq<Delivery>, start: Db, s: State, w: nat, action: Action)
    requires Invariant(env, ds, start, s)
    ensures Invariant(env, ds, start, Step(env, ds, s, w, action))
  {
    hide Persist, Run, HashOf;
    if w < |ds| {
      if s.phases[w] == Writing && action == Commit && ds[w].heartbeat.id !in s.db.receipts {
        CommitKeepsInvariant(env, ds, start, s, w);
      } else {
        var r := Step(env, ds, s, w, action);
        forall i | 0 <= i < |s.log| ensures Won(env, ds, start, r, i) { assert Won(env, ds, start, s, i); }
      }
    }
  }

  lemma {:induction false} RaceInvariant(env: Env, ds: seq<Delivery>, start: Db, schedule: seq<Event>)
    ensures Invariant(env, ds, start, RunAll(env, ds, Initial(start, |ds|), schedule))
  {
    hide Step, Invariant;
    if schedule == [] {
      assert Invariant(env, ds, start, Initial(start, |ds|)) by { StartsValid(env, ds, start); }
    } else {
      var n := |schedule| - 1;
      RaceInvariant(env, ds, start, schedule[..n]);
      StepKeepsInvariant(env, ds, start, RunAll(env, ds, Initial(start, |ds|), schedule[..n]), schedule[n].writer, schedule[n].action);
    }
  }

  lemma StartsValid(env: Env, ds: seq<Delivery>, start: Db)
    ensures Invariant(env, ds, start, Initial(start, |ds|))
  {
    assert Committed(ds, []) == [];
  }

  // ---- what every interleaving guarantees ------------------------------------------------------

  /** The database is that of the committed writers delivered one after the other, so everything proved of
      sequential deliveries holds of it; losers leave no trace. */
  lemma RaceIsSequential(env: Env, ds: seq<Delivery>, start: Db, schedule: seq<Event>)
    ensures var s := RunAll(env, ds, Initial(start, |ds|), schedule);
      && InRange(s.log, |ds|) && s.db == Run(env, start, Committed(ds, s.log))
      && (forall w :: 0 <= w < |ds| ==> (w in s.log <==> s.phases[w].Answered? && s.phases[w].outcome.Accepted?))
      && (forall i, j :: 0 <= i < j < |s.log| ==> ds[s.log[i]].heartbeat.id != ds[s.log[j]].heartbeat.id)
  {
    hide RunAll, Run, Persist, HashOf;
    RaceInvariant(env, ds, start, schedule);
    var s := RunAll(env, ds, Initial(start, |ds|), schedule);
    forall w | 0 <= w < |ds| ensures w in s.log <==> s.phases[w].Answered? && s.phases[w].outcome.Accepted? {
      if w in s.log { var i :| 0 <= i < |s.log| && s.log[i] == w; assert Won(env, ds, start, s, i); }
    }
    forall i, j | 0 <= i < j < |s.log| ensures ds[s.log[i]].heartbeat.id != ds[s.log[j]].heartbeat.id {
      assert Won(env, ds, start, s, j);
      assert Committed(ds, s.log[..j])[i] == ds[s.log[i]];
      Received(env, start, Committed(ds, s.log[..j]), i);
    }
  }

  /** Every delivery leaves a receipt for its identifier. */
  lemma {:induction false} Received(env: Env, start: Db, ds: seq<Delivery>, i: nat)
    requires i < |ds|
    ensures ds[i].heartbeat.id in Run(env, start, ds).receipts
  {
    var n := |ds| - 1;
    var before, d := Run(env, start, ds[..n]), ds[n];
    if i < n {
      Received(env, start, ds[..n], i);
      PersistKeepsReceipts(env, before, d.heartbeat, d.receivedAt, ds[i].heartbeat.id);
    } else if d.heartbeat.id !in before.receipts {
      PersistReceipts(env, before, d.heartbeat, d.receivedAt);
    }
  }

  /** An answered writer that did not commit finds the receipt of a writer that did, and is told duplicate
      if and only if the two payloads differ only in key order. */
  lemma LoserComparesWithWinner(env: Env, ds: seq<Delivery>, start: Db, schedule: seq<Event>, w: nat) returns (winner: nat)
    requires Fresh(start) && Ingestion.Injective(env.hash) && (forall d :: d in ds ==> Valid(d.heartbeat.payload)) && w < |ds|
    requires var s := RunAll(env, ds, Initial(start, |ds|), schedule); s.phases[w].Answered? && w !in s.log
    ensures var s := RunAll(env, ds, Initial(start, |ds|), schedule);
      && winner in s.log && winner < |ds| && ds[winner].heartbeat.id == ds[w].heartbeat.id
      && (s.phases[w].outcome == Duplicate <==>
          CanonicalJson.SameUpToKeyOrder(ds[w].heartbeat.payload, ds[winner].heartbeat.payload))
  {
    hide RunAll, Run, Persist, Valid, CanonicalJson.CanonicalText, CanonicalJson.SameUpToKeyOrder, RowMatches, ConnectionMatches, Latest;
    RaceInvariant(env, ds, start, schedule);
    var s := RunAll(env, ds, Initial(start, |ds|), schedule);
    var committed := Committed(ds, s.log);
    RunMatches(env, start, committed);
    var h := ds[w].heartbeat;
    assert Compared(env, s.db, h, s.phases[w]);
    var x :| x in AcceptedOf(env, start, committed) && x.id == h.id;
    AcceptedDelivered(env, start, committed, x);
    var d :| d in committed && d.heartbeat == x;
    var i :| 0 <= i < |committed| && committed[i] == d;
    winner := s.log[i];
    assert ds[w] in ds && ds[winner] in ds;
    CanonicalJson.CanonicalTextExact(h.payload, x.payload);
  }

  // ---- convergence -----------------------------------------------------------------------------

  /** When every writer has its answer and equal identifiers carry equal heartbeats, every interleaving ends
      as the sequential delivery of the same heartbeats: receipts, snapshots apart from the receive time,
      and connection statuses. */
  lemma RaceConverges(env: Env, ds: seq<Delivery>, start: Db, schedule: seq<Event>)
    requires Fresh(start) && Coherent(ds)
    requires forall w :: 0 <= w < |ds| ==> RunAll(env, ds, Initial(start, |ds|), schedule).phases[w].Answered?
    ensures var (x, y) := (RunAll(env, ds, Initial(start, |ds|), schedule).db, Run(env, start, ds));
      && x.receipts == y.receipts && (forall c :: SameRow(x, y, c)) && |x.connections| == |y.connections|
      && forall i :: 0 <= i < |x.connections| ==>
           x.connections[i].instance == y.connections[i].instance && x.connections[i].status == y.connections[i].status
  {
    hide RunAll, Run, Persist, HashOf, SameRow, RowMatches, ConnectionMatches, Latest, AcceptedOf;
    RaceInvariant(env, ds, start, schedule);
    var s := RunAll(env, ds, Initial(start, |ds|), schedule);
    var committed := Committed(ds, s.log);
    assert forall d :: d in committed ==> d in ds;
    assert Coherent(committed);
    forall d | d in ds ensures Carried(committed, d.heartbeat) {
      var w :| 0 <= w < |ds| && ds[w] == d;
      if w in s.log {
        var i :| 0 <= i < |s.log| && s.log[i] == w;
        assert committed[i] == d;
      } else {
        assert Compared(env, s.db, d.heartbeat, s.phases[w]);
        ReceiptCarried(env, start, committed, d.heartbeat.id);
        var e :| e in committed && e.heartbeat.id == d.heartbeat.id;
        assert e in ds;
      }
    }
    forall d | d in committed ensures Carried(ds, d.heartbeat) { assert d in ds; }
    Converges(env, start, committed, ds);
  }

  lemma ReceiptCarried(env: Env, start: Db, ds: seq<Delivery>, id: string)
    requires Fresh(start) && id in Run(env, start, ds).receipts
    ensures exists d :: d in ds && d.heartbeat.id == id
  {
    hide Run, HashOf, RowMatches, ConnectionMatches, AcceptedOf;
    RunMatches(env, start, ds);
    var x :| x in AcceptedOf(env, start, ds) && x.id == id;
    AcceptedDelivered(env, start, ds, x);
  }
}

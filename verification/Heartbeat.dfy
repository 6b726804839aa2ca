/** Connector heartbeats: one receipt per heartbeat identifier, and a connector snapshot that keeps the
    heartbeat with the greatest send time and identifier whatever the order of delivery. */
module Heartbeat {
  import opened Outcomes
  import opened Ordering
  import opened Json
  import CanonicalJson
  import Ingestion

  /** The payload hash, and how the database compares heartbeat identifiers. */
  datatype Env = Env(hash: Ingestion.Hash, less: TextOrder)

  datatype Health = Healthy | Degraded

  datatype ConnectionStatus = Unverified | Available | DegradedConnection | Offline

  datatype Heartbeat = Heartbeat(id: string, instance: string, sentAt: int, health: Health, payload: Json)

  datatype Receipt = Receipt(payloadHash: string, instance: string, sentAt: int)

  /** A connector row; `sentAt` and `lastId` are null until the first heartbeat. */
  datatype Connector = Connector(
    sentAt: Option<int>, lastId: Option<string>, health: Health, payloadHash: Option<string>, content: Json, receivedAt: int)

  datatype Connection = Connection(instance: Option<string>, status: ConnectionStatus, lastSeenAt: Option<int>)

  datatype Db = Db(receipts: map<string, Receipt>, connectors: map<string, Connector>, connections: seq<Connection>)

  datatype Outcome = Accepted(snapshotUpdated: bool) | Duplicate | Conflict(existingHash: string)

  datatype Delivery = Delivery(heartbeat: Heartbeat, receivedAt: int)

  function HashOf(env: Env, h: Heartbeat): string { Ingestion.PayloadHash(env.hash, h.payload) }

  function Snapshot(env: Env, h: Heartbeat, receivedAt: int): Connector {
    Connector(Some(h.sentAt), Some(h.id), h.health, Some(HashOf(env, h)), h.payload, receivedAt)
  }

  function ConnectionHealth(h: Health): ConnectionStatus {
    match h case Healthy => Available case Degraded => DegradedConnection
  }

  // ---- the transaction -------------------------------------------------------------------------

  /** The condition of the snapshot update. */
  predicate Replaces(less: TextOrder, h: Heartbeat, row: Connector) {
    || row.sentAt == None
    || row.sentAt.value < h.sentAt
    || (row.sentAt.value == h.sentAt && (row.lastId == None || less(row.lastId.value, h.id)))
  }

  function Touch(connections: seq<Connection>, instance: string, status: ConnectionStatus, receivedAt: int): (r: seq<Connection>)
    ensures |r| == |connections|
    ensures forall i :: 0 <= i < |r| ==>
      r[i] == if connections[i].instance == Some(instance) then Connection(Some(instance), status, Some(receivedAt)) else connections[i]
  {
    if connections == [] then []
    else
      var c := connections[0];
      [if c.instance == Some(instance) then c.(status := status, lastSeenAt := Some(receivedAt)) else c]
      + Touch(connections[1..], instance, status, receivedAt)
  }

  function Persist(env: Env, db: Db, h: Heartbeat, receivedAt: int): (r: (Db, Outcome))
    ensures r.1.Accepted? <==> h.id !in db.receipts
    ensures !r.1.Accepted? ==> r.0 == db
  {
    if h.id in db.receipts then
      var stored := db.receipts[h.id].payloadHash;
      (db, if stored == HashOf(env, h) then Duplicate else Conflict(stored))
    else
      var snapshot := Snapshot(env, h, receivedAt);
      var upserted := if h.instance in db.connectors then db.connectors[h.instance] else snapshot;
      var row := if Replaces(env.less, h, upserted) then snapshot else upserted;
      var updated := row.lastId == Some(h.id);
      (Db(db.receipts[h.id := Receipt(HashOf(env, h), h.instance, h.sentAt)],
          db.connectors[h.instance := row],
          if updated then Touch(db.connections, h.instance, ConnectionHealth(h.health), receivedAt) else db.connections),
       Accepted(updated))
  }

  class Store {
    var receipts: map<string, Receipt>
    var connectors: map<string, Connector>
    var connections: seq<Connection>

    constructor (db: Db)
      ensures State() == db
    {
      receipts, connectors, connections := db.receipts, db.connectors, db.connections;
    }

    ghost function State(): Db
      reads this
    {
      Db(receipts, connectors, connections)
    }

    method PersistHeartbeat(env: Env, h: Heartbeat, receivedAt: int) returns (outcome: Outcome)
      modifies this
      ensures (State(), outcome) == Persist(env, old(State()), h, receivedAt)
    {
      hide HashOf;
      var payloadHash := HashOf(env, h);
      if h.id in receipts {
        var stored := receipts[h.id].payloadHash;
        return if stored == payloadHash then Duplicate else Conflict(stored);
      }
      var snapshot := Snapshot(env, h, receivedAt);
      if h.instance !in connectors { connectors := connectors[h.instance := snapshot]; }
      receipts := receipts[h.id := Receipt(payloadHash, h.instance, h.sentAt)];
      if Replaces(env.less, h, connectors[h.instance]) { connectors := connectors[h.instance := snapshot]; }
      var updated := connectors[h.instance].lastId == Some(h.id);
      if updated { connections := Touch(connections, h.instance, ConnectionHealth(h.health), receivedAt); }
      assert connectors == old(connectors)[h.instance := connectors[h.instance]];
      outcome := Accepted(updated);
    }
  }

  // ---- runs ------------------------------------------------------------------------------------

  function Run(env: Env, db: Db, ds: seq<Delivery>): Db {
    if ds == [] then db
    else
      var d := ds[|ds| - 1];
      Persist(env, Run(env, db, ds[..|ds| - 1]), d.heartbeat, d.receivedAt).0
  }

  /** The heartbeats that were accepted, in order. */
  function AcceptedOf(env: Env, db: Db, ds: seq<Delivery>): seq<Heartbeat> {
    if ds == [] then []
    else
      var front, d := ds[..|ds| - 1], ds[|ds| - 1];
      AcceptedOf(env, db, front)
      + if Persist(env, Run(env, db, front), d.heartbeat, d.receivedAt).1.Accepted? then [d.heartbeat] else []
  }

  /** Later by send time, then by identifier. */
  predicate Newer(env: Env, a: Heartbeat, b: Heartbeat) {
    a.sentAt > b.sentAt || (a.sentAt == b.sentAt && env.less(b.id, a.id))
  }

  /** `m` is the newest heartbeat of its connector. */
  ghost predicate IsLatest(env: Env, hs: seq<Heartbeat>, m: Heartbeat) {
    m in hs && forall h :: h in hs && h.instance == m.instance && h != m ==> Newer(env, m, h)
  }

  function Latest(env: Env, hs: seq<Heartbeat>, instance: string): (r: Option<Heartbeat>)
    ensures r.Some? ==> r.value in hs && r.value.instance == instance
    ensures r.None? <==> forall h :: h in hs ==> h.instance != instance
  {
    if hs == [] then None
    else
      var n := |hs| - 1;
      assert hs == hs[..n] + [hs[n]];
      var before := Latest(env, hs[..n], instance);
      if hs[n].instance == instance && (before.None? || Newer(env, hs[n], before.value)) then Some(hs[n]) else before
  }

  ghost predicate DistinctIds(hs: seq<Heartbeat>) {
    forall i, j :: 0 <= i < j < |hs| ==> hs[i].id != hs[j].id
  }

  lemma {:induction false} LatestIsLatest(env: Env, hs: seq<Heartbeat>, instance: string)
    requires DistinctIds(hs) && Latest(env, hs, instance).Some?
    ensures IsLatest(env, hs, Latest(env, hs, instance).value)
  {
    hide Latest;
    var n := |hs| - 1;
    assert hs == hs[..n] + [hs[n]];
    LatestStep(env, hs, instance);
    var before := Latest(env, hs[..n], instance);
    if before.Some? {
      LatestIsLatest(env, hs[..n], instance);
      var m := before.value;
      assert m.id != hs[n].id;
    }
  }

  lemma LatestStep(env: Env, hs: seq<Heartbeat>, instance: string)
    requires hs != []
    ensures var n := |hs| - 1;
      var before := Latest(env, hs[..n], instance);
      Latest(env, hs, instance) ==
        if hs[n].instance == instance && (before.None? || Newer(env, hs[n], before.value)) then Some(hs[n]) else before
  {
  }

  lemma LatestUnique(env: Env, hs: seq<Heartbeat>, a: Heartbeat, b: Heartbeat)
    requires IsLatest(env, hs, a) && IsLatest(env, hs, b) && a.instance == b.instance
    ensures a == b
  {
  }

  /** A database before any heartbeat: no receipts, and connector rows without a send time. */
  ghost predicate Fresh(db: Db) {
    db.receipts == map[] && forall c :: c in db.connectors ==> db.connectors[c].sentAt == None
  }

  ghost predicate ReceiptsMatch(env: Env, db: Db, accepted: seq<Heartbeat>) {
    && (forall id :: id in db.receipts ==> exists h :: h in accepted && h.id == id)
    && (forall h :: h in accepted ==> h.id in db.receipts && db.receipts[h.id] == Receipt(HashOf(env, h), h.instance, h.sentAt))
  }

  /** The row of a connector, apart from the receive time: that of its latest heartbeat, or as it was. */
  ghost predicate RowMatches(env: Env, start: Db, db: Db, latest: Option<Heartbeat>, c: string) {
    match latest
    case None => (c in db.connectors <==> c in start.connectors) && (c in db.connectors ==> db.connectors[c] == start.connectors[c])
    case Some(m) => c in db.connectors && db.connectors[c] == Snapshot(env, m, db.connectors[c].receivedAt)
  }

  ghost predicate ConnectionMatches(env: Env, was: Connection, now: Connection, accepted: seq<Heartbeat>) {
    && now.instance == was.instance
    && match now.instance
       case None => now == was
       case Some(c) =>
         match Latest(env, accepted, c)
         case None => now == was
         case Some(m) => now.status == ConnectionHealth(m.health) && now.lastSeenAt.Some?
  }

  ghost predicate Matches(env: Env, start: Db, db: Db, accepted: seq<Heartbeat>) {
    && DistinctIds(accepted) && ReceiptsMatch(env, db, accepted)
    && (forall c :: RowMatches(env, start, db, Latest(env, accepted, c), c))
    && |db.connections| == |start.connections|
    && forall i :: 0 <= i < |db.connections| ==> ConnectionMatches(env, start.connections[i], db.connections[i], accepted)
  }

  lemma PersistReceipts(env: Env, db: Db, h: Heartbeat, receivedAt: int)
    requires h.id !in db.receipts
    ensures Persist(env, db, h, receivedAt).0.receipts == db.receipts[h.id := Receipt(HashOf(env, h), h.instance, h.sentAt)]
  {
    hide HashOf, Replaces, Touch;
  }

  lemma AcceptReceipts(env: Env, db: Db, accepted: seq<Heartbeat>, h: Heartbeat, receivedAt: int)
    requires DistinctIds(accepted) && ReceiptsMatch(env, db, accepted) && h.id !in db.receipts
    ensures DistinctIds(accepted + [h]) && ReceiptsMatch(env, Persist(env, db, h, receivedAt).0, accepted + [h])
  {
    hide HashOf, Persist, ReceiptsMatch;
    PersistReceipts(env, db, h, receivedAt);
    NewId(env, db, accepted, h);
    assert forall i :: 0 <= i < |accepted| ==> accepted[i] in accepted;
    ReceiptAdded(env, db, accepted, h, Persist(env, db, h, receivedAt).0);
  }

  lemma NewId(env: Env, db: Db, accepted: seq<Heartbeat>, h: Heartbeat)
    requires ReceiptsMatch(env, db, accepted) && h.id !in db.receipts
    ensures forall x :: x in accepted ==> x.id != h.id
  {
  }

  lemma ReceiptAdded(env: Env, db: Db, accepted: seq<Heartbeat>, h: Heartbeat, db': Db)
    requires ReceiptsMatch(env, db, accepted) && h.id !in db.receipts
    requires db'.receipts == db.receipts[h.id := Receipt(HashOf(env, h), h.instance, h.sentAt)]
    ensures ReceiptsMatch(env, db', accepted + [h])
  {
    hide HashOf;
    forall id | id in db'.receipts ensures exists x :: x in accepted + [h] && x.id == id {
      if id == h.id { assert h in accepted + [h]; }
      else { var x :| x in accepted && x.id == id; assert x in accepted + [h]; }
    }
  }

  /** What the update leaves for its connector, and whether it reports an update. */
  lemma AcceptRow(env: Env, start: Db, db: Db, accepted: seq<Heartbeat>, h: Heartbeat, receivedAt: int)
    requires Fresh(start) && Matches(env, start, db, accepted) && h.id !in db.receipts
    ensures var (db', outcome) := Persist(env, db, h, receivedAt);
      var latest := Latest(env, accepted + [h], h.instance);
      && latest.Some? && RowMatches(env, start, db', latest, h.instance)
      && outcome == Accepted(latest == Some(h))
  {
    hide HashOf, Touch, Latest, ConnectionMatches;
    var hs := accepted + [h];
    assert hs[..|accepted|] == accepted && hs[|accepted|] == h;
    LatestStep(env, hs, h.instance);
    var before := Latest(env, accepted, h.instance);
    assert RowMatches(env, start, db, before, h.instance);
    assert before.Some? ==> before.value.id != h.id;
  }

  lemma AcceptOthers(env: Env, start: Db, db: Db, accepted: seq<Heartbeat>, h: Heartbeat, receivedAt: int, c: string)
    requires Matches(env, start, db, accepted) && h.id !in db.receipts && c != h.instance
    ensures Latest(env, accepted + [h], c) == Latest(env, accepted, c)
    ensures RowMatches(env, start, Persist(env, db, h, receivedAt).0, Latest(env, accepted + [h], c), c)
  {
    hide HashOf, Touch, Latest, ConnectionMatches;
    var hs := accepted + [h];
    assert hs[..|accepted|] == accepted && hs[|accepted|] == h;
    LatestStep(env, hs, c);
    assert RowMatches(env, start, db, Latest(env, accepted, c), c);
  }

  lemma ConnectionStep(env: Env, was: Connection, now: Connection, accepted: seq<Heartbeat>, h: Heartbeat, receivedAt: int)
    requires ConnectionMatches(env, was, now, accepted)
    ensures var touched := Latest(env, accepted + [h], h.instance) == Some(h) && now.instance == Some(h.instance);
      ConnectionMatches(env, was, if touched then Connection(now.instance, ConnectionHealth(h.health), Some(receivedAt)) else now, accepted + [h])
  {
    hide Latest;
    var hs := accepted + [h];
    assert hs[..|accepted|] == accepted && hs[|accepted|] == h;
    LatestStep(env, hs, h.instance);
    if now.instance.Some? { LatestStep(env, hs, now.instance.value); }
  }

  lemma AcceptConnection(env: Env, start: Db, db: Db, accepted: seq<Heartbeat>, h: Heartbeat, receivedAt: int, i: nat)
    requires Fresh(start) && Matches(env, start, db, accepted) && h.id !in db.receipts && i < |db.connections|
    ensures ConnectionMatches(env, start.connections[i], Persist(env, db, h, receivedAt).0.connections[i], accepted + [h])
  {
    hide HashOf, Latest, Replaces, RowMatches, ReceiptsMatch, DistinctIds, ConnectionMatches, Fresh;
    AcceptRow(env, start, db, accepted, h, receivedAt);
    ConnectionStep(env, start.connections[i], db.connections[i], accepted, h, receivedAt);
  }

  lemma AcceptMatches(env: Env, start: Db, db: Db, accepted: seq<Heartbeat>, h: Heartbeat, receivedAt: int)
    requires Fresh(start) && Matches(env, start, db, accepted) && h.id !in db.receipts
    ensures Matches(env, start, Persist(env, db, h, receivedAt).0, accepted + [h])
  {
    hide HashOf, Latest, Replaces, RowMatches, ConnectionMatches, ReceiptsMatch, DistinctIds, Fresh;
    var db' := Persist(env, db, h, receivedAt).0;
    AcceptReceipts(env, db, accepted, h, receivedAt);
    forall c ensures RowMatches(env, start, db', Latest(env, accepted + [h], c), c) {
      if c == h.instance { AcceptRow(env, start, db, accepted, h, receivedAt); }
      else { AcceptOthers(env, start, db, accepted, h, receivedAt, c); }
    }
    forall i | 0 <= i < |db'.connections| ensures ConnectionMatches(env, start.connections[i], db'.connections[i], accepted + [h]) {
      AcceptConnection(env, start, db, accepted, h, receivedAt, i);
    }
  }

  lemma NothingAccepted(env: Env, start: Db)
    requires Fresh(start)
    ensures Matches(env, start, start, [])
  {
  }

  /** After any deliveries, each connector's snapshot and the status of its connections are those of its
      newest accepted heartbeat. */
  lemma {:induction false} RunMatches(env: Env, start: Db, ds: seq<Delivery>)
    requires Fresh(start)
    ensures Matches(env, start, Run(env, start, ds), AcceptedOf(env, start, ds))
  {
    hide Matches, Persist;
    if ds == [] {
      NothingAccepted(env, start);
    } else {
      var n := |ds| - 1;
      RunMatches(env, start, ds[..n]);
      var db, accepted := Run(env, start, ds[..n]), AcceptedOf(env, start, ds[..n]);
      var h := ds[n].heartbeat;
      assert accepted + [] == accepted;
      if h.id !in db.receipts { AcceptMatches(env, start, db, accepted, h, ds[n].receivedAt); }
    }
  }

  // ---- what every delivery order guarantees ----------------------------------------------------

  /** The row of a connector shows this heartbeat, received at `t`. */
  ghost predicate Shows(env: Env, row: Connector, m: Heartbeat, t: int) {
    && row.sentAt == Some(m.sentAt) && row.lastId == Some(m.id) && row.health == m.health && row.content == m.payload
    && row.payloadHash == Some(Ingestion.PayloadHash(env.hash, m.payload)) && row.receivedAt == t
  }

  /** The first delivery of this heartbeat's identifier, received at `t`. */
  ghost predicate FirstReceived(ds: seq<Delivery>, m: Heartbeat, t: int) {
    exists i :: 0 <= i < |ds| && ds[i] == Delivery(m, t) && forall j :: 0 <= j < i ==> ds[j].heartbeat.id != m.id
  }

  /** The row of the newest accepted heartbeat's connector, stated without the search for it: it shows that
      heartbeat as first received, and the connections of the connector have its health and receive time. */
  lemma SnapshotIsMaximum(env: Env, start: Db, ds: seq<Delivery>, m: Heartbeat)
    requires Fresh(start) && IsLatest(env, AcceptedOf(env, start, ds), m)
    ensures var db := Run(env, start, ds);
      && m.instance in db.connectors
      && var t := db.connectors[m.instance].receivedAt;
         && FirstReceived(ds, m, t) && Shows(env, db.connectors[m.instance], m, t)
         && forall c :: c in db.connections && c.instance == Some(m.instance) ==>
              c.lastSeenAt == Some(t) && c.status == if m.health == Healthy then Available else DegradedConnection
  {
    hide HashOf, Latest, Run, AcceptedOf, Newer, FirstReceived;
    RunMatches(env, start, ds);
    var accepted := AcceptedOf(env, start, ds);
    LatestIsLatest(env, accepted, m.instance);
    LatestUnique(env, accepted, m, Latest(env, accepted, m.instance).value);
    RowReceived(env, start, ds, m.instance);
    var db := Run(env, start, ds);
    assert RowMatches(env, start, db, Some(m), m.instance);
    SnapshotShows(env, m, db.connectors[m.instance].receivedAt);
    forall c | c in db.connections && c.instance == Some(m.instance)
      ensures c.status == if m.health == Healthy then Available else DegradedConnection
    {
      var i :| 0 <= i < |db.connections| && db.connections[i] == c;
      assert ConnectionMatches(env, start.connections[i], db.connections[i], accepted);
    }
  }

  lemma SnapshotShows(env: Env, m: Heartbeat, t: int)
    ensures Shows(env, Snapshot(env, m, t), m, t)
  {
    hide Ingestion.PayloadHash;
  }

  lemma {:induction false} DeliveredKnown(env: Env, start: Db, ds: seq<Delivery>, i: nat)
    requires i < |ds|
    ensures ds[i].heartbeat.id in Run(env, start, ds).receipts
  {
    hide HashOf, Replaces, Touch;
    var n := |ds| - 1;
    if i < n { DeliveredKnown(env, start, ds[..n], i); }
  }

  lemma StillFirst(ds: seq<Delivery>, m: Heartbeat, t: int)
    requires ds != [] && FirstReceived(ds[..|ds| - 1], m, t)
    ensures FirstReceived(ds, m, t)
  {
    var front := ds[..|ds| - 1];
    var i :| 0 <= i < |front| && front[i] == Delivery(m, t) && forall j :: 0 <= j < i ==> front[j].heartbeat.id != m.id;
    assert forall j :: 0 <= j <= i ==> ds[j] == front[j];
  }

  lemma NowFirst(env: Env, start: Db, ds: seq<Delivery>)
    requires ds != [] && ds[|ds| - 1].heartbeat.id !in Run(env, start, ds[..|ds| - 1]).receipts
    ensures FirstReceived(ds, ds[|ds| - 1].heartbeat, ds[|ds| - 1].receivedAt)
  {
    hide Run;
    var n := |ds| - 1;
    forall j | 0 <= j < n ensures ds[j].heartbeat.id != ds[n].heartbeat.id {
      DeliveredKnown(env, start, ds[..n], j);
    }
    assert ds[n] == Delivery(ds[n].heartbeat, ds[n].receivedAt);
  }

  /** When the newest heartbeat of a connector was received. */
  ghost predicate ReceivedRow(db: Db, ds: seq<Delivery>, c: string, m: Heartbeat) {
    && c in db.connectors && FirstReceived(ds, m, db.connectors[c].receivedAt)
    && forall x :: x in db.connections && x.instance == Some(c) ==> x.lastSeenAt == Some(db.connectors[c].receivedAt)
  }

  lemma {:induction false} RowReceived(env: Env, start: Db, ds: seq<Delivery>, c: string)
    requires Fresh(start) && Latest(env, AcceptedOf(env, start, ds), c).Some?
    ensures ReceivedRow(Run(env, start, ds), ds, c, Latest(env, AcceptedOf(env, start, ds), c).value)
  {
    hide Latest, Matches, Persist, FirstReceived, ReceivedRow, Fresh;
    NoneLatest(env, c);
    if ds != [] {
      var n := |ds| - 1;
      var db, accepted := Run(env, start, ds[..n]), AcceptedOf(env, start, ds[..n]);
      var h, t := ds[n].heartbeat, ds[n].receivedAt;
      RunMatches(env, start, ds[..n]);
      var latest := Latest(env, AcceptedOf(env, start, ds), c).value;
      if h.id in db.receipts {
        assert accepted + [] == accepted;
        RowReceived(env, start, ds[..n], c);
        RowStays(db, db, ds, c, latest);
      } else {
        NowFirst(env, start, ds);
        PersistRow(env, start, db, accepted, h, t, c);
        if latest == h {
          RowNow(Persist(env, db, h, t).0, ds, c, h, t);
        } else {
          RowReceived(env, start, ds[..n], c);
          RowStays(db, Persist(env, db, h, t).0, ds, c, latest);
        }
      }
    }
  }

  lemma NoneLatest(env: Env, c: string)
    ensures Latest(env, [], c).None?
  {
  }

  /** The connections of one connector. */
  ghost predicate SameConnections(a: seq<Connection>, b: seq<Connection>, c: string) {
    forall x: Connection :: x.instance == Some(c) ==> (x in a <==> x in b)
  }

  lemma RowStays(db: Db, db': Db, ds: seq<Delivery>, c: string, m: Heartbeat)
    requires ds != [] && ReceivedRow(db, ds[..|ds| - 1], c, m)
    requires c in db.connectors ==> c in db'.connectors && db'.connectors[c] == db.connectors[c]
    requires SameConnections(db.connections, db'.connections, c)
    ensures ReceivedRow(db', ds, c, m)
  {
    hide FirstReceived;
    StillFirst(ds, m, db.connectors[c].receivedAt);
  }

  lemma RowNow(db: Db, ds: seq<Delivery>, c: string, m: Heartbeat, t: int)
    requires c in db.connectors && db.connectors[c].receivedAt == t && FirstReceived(ds, m, t)
    requires forall x :: x in db.connections && x.instance == Some(c) ==> x.lastSeenAt == Some(t)
    ensures ReceivedRow(db, ds, c, m)
  {
    hide FirstReceived;
  }

  /** What an accepted heartbeat does to the row and the connections of a connector. */
  lemma PersistRow(env: Env, start: Db, db: Db, accepted: seq<Heartbeat>, h: Heartbeat, t: int, c: string)
    requires Fresh(start) && Matches(env, start, db, accepted) && h.id !in db.receipts
    ensures var db' := Persist(env, db, h, t).0;
      var latest := Latest(env, accepted + [h], c);
      && (latest == Some(h) ==>
            && c in db'.connectors && db'.connectors[c].receivedAt == t
            && forall x :: x in db'.connections && x.instance == Some(c) ==> x.lastSeenAt == Some(t))
      && (latest.Some? && latest != Some(h) ==>
            && latest == Latest(env, accepted, c) && c in db.connectors && c in db'.connectors
            && db'.connectors[c] == db.connectors[c] && SameConnections(db.connections, db'.connections, c))
  {
    hide HashOf, Latest, ConnectionMatches, Touch, ReceiptsMatch;
    var hs := accepted + [h];
    assert hs[..|accepted|] == accepted && hs[|accepted|] == h;
    LatestStep(env, hs, c);
    assert RowMatches(env, start, db, Latest(env, accepted, c), c);
    AcceptRow(env, start, db, accepted, h, t);
    assert forall x :: x in accepted ==> x.id != h.id by { NewId(env, db, accepted, h); }
    TouchedOnly(db.connections, h.instance, ConnectionHealth(h.health), t, c);
  }

  lemma TouchedOnly(connections: seq<Connection>, instance: string, status: ConnectionStatus, t: int, c: string)
    ensures var r := Touch(connections, instance, status, t);
      && (c == instance ==> forall x :: x in r && x.instance == Some(c) ==> x.lastSeenAt == Some(t))
      && (c != instance ==> SameConnections(connections, r, c))
  {
    hide Touch;
    var r := Touch(connections, instance, status, t);
    if c != instance {
      forall x: Connection | x.instance == Some(c) ensures x in connections <==> x in r {
        if x in connections { var i :| 0 <= i < |connections| && connections[i] == x; assert r[i] == x; }
        if x in r { var i :| 0 <= i < |r| && r[i] == x; assert connections[i] == x; }
      }
    }
  }

  /** The answer to a delivery: accepted exactly for a new identifier, with an update exactly when it is
      newer than everything accepted before for its connector; otherwise nothing changes and the payloads
      are compared up to key order. */
  lemma AnswerExact(env: Env, start: Db, ds: seq<Delivery>, h: Heartbeat, receivedAt: int)
    requires Fresh(start) && Ingestion.Injective(env.hash) && Valid(h.payload)
    requires forall d :: d in ds ==> Valid(d.heartbeat.payload)
    ensures var (db', outcome) := Persist(env, Run(env, start, ds), h, receivedAt);
      var accepted := AcceptedOf(env, start, ds);
      && (outcome.Accepted? <==> forall x :: x in accepted ==> x.id != h.id)
      && (outcome.Accepted? ==> (outcome.snapshotUpdated <==> forall x :: x in accepted && x.instance == h.instance ==> Newer(env, h, x)))
      && (!outcome.Accepted? ==> db' == Run(env, start, ds))
      && (forall x :: x in accepted && x.id == h.id ==>
            && (outcome.Duplicate? <==> CanonicalJson.SameUpToKeyOrder(h.payload, x.payload))
            && (outcome.Conflict? ==> outcome.existingHash == Ingestion.PayloadHash(env.hash, x.payload)))
  {
    hide Latest, Run, AcceptedOf, RowMatches, ConnectionMatches, Valid, CanonicalJson.CanonicalText,
         CanonicalJson.SameUpToKeyOrder, Newer;
    RunMatches(env, start, ds);
    var db, accepted := Run(env, start, ds), AcceptedOf(env, start, ds);
    if h.id !in db.receipts { UpdateExact(env, start, db, accepted, h, receivedAt); }
    forall x | x in accepted && x.id == h.id
      ensures var outcome := Persist(env, db, h, receivedAt).1;
        && (outcome.Duplicate? <==> CanonicalJson.SameUpToKeyOrder(h.payload, x.payload))
        && (outcome.Conflict? ==> outcome.existingHash == Ingestion.PayloadHash(env.hash, x.payload))
    {
      AcceptedDelivered(env, start, ds, x);
      CanonicalJson.CanonicalTextExact(h.payload, x.payload);
    }
  }

  lemma UpdateExact(env: Env, start: Db, db: Db, accepted: seq<Heartbeat>, h: Heartbeat, receivedAt: int)
    requires Fresh(start) && Matches(env, start, db, accepted) && h.id !in db.receipts
    ensures Persist(env, db, h, receivedAt).1.Accepted?
    ensures Persist(env, db, h, receivedAt).1.snapshotUpdated <==>
            forall x :: x in accepted && x.instance == h.instance ==> Newer(env, h, x)
  {
    hide HashOf, Latest, Replaces, RowMatches, ConnectionMatches, Persist, ReceiptsMatch, Newer;
    AcceptReceipts(env, db, accepted, h, receivedAt);
    AcceptRow(env, start, db, accepted, h, receivedAt);
    NewId(env, db, accepted, h);
    var hs := accepted + [h];
    LatestIsLatest(env, hs, h.instance);
    assert h in hs && forall x :: x in accepted ==> x in hs && x != h;
    if forall x :: x in accepted && x.instance == h.instance ==> Newer(env, h, x) {
      LatestUnique(env, hs, h, Latest(env, hs, h.instance).value);
    }
  }

  lemma {:induction false} AcceptedDelivered(env: Env, start: Db, ds: seq<Delivery>, x: Heartbeat)
    requires x in AcceptedOf(env, start, ds)
    ensures exists d :: d in ds && d.heartbeat == x
  {
    hide Persist, Run;
    var n := |ds| - 1;
    if ds[n].heartbeat == x { assert ds[n] in ds; }
    else {
      AcceptedDelivered(env, start, ds[..n], x);
      var d :| d in ds[..n] && d.heartbeat == x;
      assert d in ds;
    }
  }

  // ---- convergence -----------------------------------------------------------------------------

  /** Equal identifiers carry equal heartbeats. */
  ghost predicate Coherent(ds: seq<Delivery>) {
    forall d, e :: d in ds && e in ds && d.heartbeat.id == e.heartbeat.id ==> d.heartbeat == e.heartbeat
  }

  lemma {:induction false} DeliveredAccepted(env: Env, start: Db, ds: seq<Delivery>, d: Delivery)
    requires Fresh(start) && Coherent(ds) && d in ds
    ensures d.heartbeat in AcceptedOf(env, start, ds)
  {
    hide HashOf, Replaces, RowMatches, ConnectionMatches;
    var n := |ds| - 1;
    assert ds == ds[..n] + [ds[n]];
    var accepted := AcceptedOf(env, start, ds[..n]);
    RunMatches(env, start, ds[..n]);
    if d in ds[..n] {
      DeliveredAccepted(env, start, ds[..n], d);
    } else if d.heartbeat.id in Run(env, start, ds[..n]).receipts {
      var x :| x in accepted && x.id == d.heartbeat.id;
      AcceptedDelivered(env, start, ds[..n], x);
      var e :| e in ds[..n] && e.heartbeat == x;
      assert e in ds;
    }
  }

  ghost predicate SameHeartbeats(a: seq<Delivery>, b: seq<Delivery>) {
    && (forall d :: d in a ==> Carried(b, d.heartbeat))
    && (forall d :: d in b ==> Carried(a, d.heartbeat))
  }

  ghost predicate Carried(ds: seq<Delivery>, h: Heartbeat) { exists d :: d in ds && d.heartbeat == h }

  lemma AcceptedSubset(env: Env, start: Db, a: seq<Delivery>, b: seq<Delivery>)
    requires Fresh(start) && Coherent(b) && forall d :: d in a ==> Carried(b, d.heartbeat)
    ensures forall h :: h in AcceptedOf(env, start, a) ==> h in AcceptedOf(env, start, b)
  {
    hide AcceptedOf, Fresh, Coherent;
    forall h | h in AcceptedOf(env, start, a) ensures h in AcceptedOf(env, start, b) {
      AcceptedDelivered(env, start, a, h);
      var d :| d in a && d.heartbeat == h;
      var e :| e in b && e.heartbeat == h;
      DeliveredAccepted(env, start, b, e);
    }
  }

  lemma SameLatest(env: Env, a: seq<Heartbeat>, b: seq<Heartbeat>, c: string)
    requires DistinctIds(a) && DistinctIds(b) && forall h :: h in a <==> h in b
    ensures Latest(env, a, c) == Latest(env, b, c)
  {
    hide Newer, Latest, DistinctIds;
    if Latest(env, a, c).Some? {
      assert Latest(env, a, c).value in b;
      LatestIsLatest(env, a, c);
      LatestIsLatest(env, b, c);
      LatestUnique(env, a, Latest(env, a, c).value, Latest(env, b, c).value);
    }
  }

  function Undated(c: Connector): Connector { c.(receivedAt := 0) }

  ghost predicate SameRow(a: Db, b: Db, c: string) {
    (c in a.connectors <==> c in b.connectors) && (c in a.connectors ==> Undated(a.connectors[c]) == Undated(b.connectors[c]))
  }

  /** Two deliveries of the same heartbeats, in any orders and with any repetitions, end with the same
      receipts, snapshots apart from the receive time, and connection statuses. */
  lemma Converges(env: Env, start: Db, a: seq<Delivery>, b: seq<Delivery>)
    requires Fresh(start) && Coherent(a) && Coherent(b) && SameHeartbeats(a, b)
    ensures var (x, y) := (Run(env, start, a), Run(env, start, b));
      && x.receipts == y.receipts
      && (forall c :: SameRow(x, y, c))
      && |x.connections| == |y.connections|
      && forall i :: 0 <= i < |x.connections| ==>
           x.connections[i].instance == y.connections[i].instance && x.connections[i].status == y.connections[i].status
  {
    hide HashOf, Latest, Run, AcceptedOf, Fresh, Coherent, DistinctIds, Carried;
    RunMatches(env, start, a);
    RunMatches(env, start, b);
    AcceptedSubset(env, start, a, b);
    AcceptedSubset(env, start, b, a);
    var (x, y) := (Run(env, start, a), Run(env, start, b));
    var xs, ys := AcceptedOf(env, start, a), AcceptedOf(env, start, b);
    SameReceipts(env, x, y, xs, ys);
    forall c ensures Latest(env, xs, c) == Latest(env, ys, c) && SameRow(x, y, c) {
      SameLatest(env, xs, ys, c);
      assert RowMatches(env, start, x, Latest(env, xs, c), c);
      assert RowMatches(env, start, y, Latest(env, ys, c), c);
    }
    forall i | 0 <= i < |x.connections|
      ensures x.connections[i].instance == y.connections[i].instance && x.connections[i].status == y.connections[i].status
    {
      assert ConnectionMatches(env, start.connections[i], x.connections[i], xs);
      assert ConnectionMatches(env, start.connections[i], y.connections[i], ys);
    }
  }

  lemma SameReceipts(env: Env, x: Db, y: Db, xs: seq<Heartbeat>, ys: seq<Heartbeat>)
    requires ReceiptsMatch(env, x, xs) && ReceiptsMatch(env, y, ys) && forall h :: h in xs <==> h in ys
    ensures x.receipts == y.receipts
  {
    hide HashOf;
    forall id | id in x.receipts ensures id in y.receipts && x.receipts[id] == y.receipts[id] {
      var h :| h in xs && h.id == id;
    }
    forall id | id in y.receipts ensures id in x.receipts {
      var h :| h in ys && h.id == id;
    }
  }
}

/** Intake of usage events: concurrent writers arbitrated by the unique event key, and the batch loop
    of one request. The payload hash is any injective function of the canonical text. */
module Ingestion {
  import opened Outcomes
  import opened Json
  import CanonicalJson

  datatype Key = Key(application: string, eventId: string)

  datatype UserKey = UserKey(application: string, externalId: string)

  /** A validated event on its way to the database. */
  datatype Submission = Submission(
    key: Key, payload: Json, user: UserKey, name: Option<string>, properties: Option<Json>, eventTime: int)

  datatype UserRow = UserRow(name: Option<string>, properties: Json, firstSeen: int, lastSeen: int)

  datatype Db = Db(registry: map<Key, string>, inbox: map<Key, Json>, users: map<UserKey, UserRow>)

  datatype Status = Accepted | Duplicate | Conflict | Rejected

  type Hash = string -> string

  ghost predicate Injective(hash: Hash) {
    forall a, b :: hash(a) == hash(b) ==> a == b
  }

  function PayloadHash(hash: Hash, payload: Json): string { hash(CanonicalJson.CanonicalText(payload)) }

  function StatusForExisting(stored: string, payloadHash: string): Status {
    if stored == payloadHash then Duplicate else Conflict
  }

  // ---- the transaction -------------------------------------------------------------------------

  /** The upsert of the user followed by the two conditional updates of the seen times. */
  function SeenUser(users: map<UserKey, UserRow>, s: Submission): UserRow {
    var t := s.eventTime;
    var row :=
      if s.user !in users then UserRow(s.name, if s.properties.Some? then s.properties.value else Obj([]), t, t)
      else
        var was := users[s.user];
        was.(name := if s.name.Some? then s.name else was.name,
             properties := if s.properties.Some? then s.properties.value else was.properties);
    row.(firstSeen := if row.firstSeen > t then t else row.firstSeen,
         lastSeen := if row.lastSeen < t then t else row.lastSeen)
  }

  /** Everything an accepted event writes, in one atomic commit. */
  function Committed(hash: Hash, db: Db, s: Submission): Db {
    Db(db.registry[s.key := PayloadHash(hash, s.payload)], db.inbox[s.key := s.payload],
       db.users[s.user := SeenUser(db.users, s)])
  }

  // ---- concurrent writers ----------------------------------------------------------------------

  /** Where a writer stands: not yet looked, found the key absent, rolled back by a unique conflict,
      answered, or thrown. */
  datatype Phase = Start | Writing | Lost | Answered(status: Status) | Failed

  /** One atomic segment of a writer. `Collide` is a unique conflict on another row, such as the user;
      `Break` is any other error. */
  datatype Action = Read | Commit | Collide | Break | Reread

  /** The log lists the writers that committed, in order. */
  datatype State = State(db: Db, phases: seq<Phase>, log: seq<nat>)

  function Initial(db: Db, writers: nat): State {
    State(db, seq(writers, _ => Start), [])
  }

  /** The answer to a writer that finds its key stored. */
  function Classified(hash: Hash, db: Db, sub: Submission): Phase
    requires sub.key in db.registry
  {
    Answered(StatusForExisting(db.registry[sub.key], PayloadHash(hash, sub.payload)))
  }

  function Step(hash: Hash, subs: seq<Submission>, s: State, w: nat, action: Action): (r: State)
    requires |s.phases| == |subs|
    ensures |r.phases| == |subs|
  {
    if w >= |subs| then s
    else
      var sub := subs[w];
      match (s.phases[w], action)
      case (Start, Read) =>
        if sub.key in s.db.registry then s.(phases := s.phases[w := Classified(hash, s.db, sub)])
        else s.(phases := s.phases[w := Writing])
      case (Writing, Commit) =>
        if sub.key in s.db.registry then s.(phases := s.phases[w := Lost])
        else State(Committed(hash, s.db, sub), s.phases[w := Answered(Accepted)], s.log + [w])
      case (Writing, Collide) => s.(phases := s.phases[w := Lost])
      case (Lost, Reread) =>
        if sub.key in s.db.registry then s.(phases := s.phases[w := Classified(hash, s.db, sub)])
        else s.(phases := s.phases[w := Failed])
      case (Start, Break) => s.(phases := s.phases[w := Failed])
      case (Writing, Break) => s.(phases := s.phases[w := Failed])
      case (Lost, Break) => s.(phases := s.phases[w := Failed])
      case _ => s
  }

  datatype Event = Event(writer: nat, action: Action)

  /** Every interleaving is a sequence of segments; a segment that is not enabled does nothing. */
  function Run(hash: Hash, subs: seq<Submission>, s: State, schedule: seq<Event>): (r: State)
    requires |s.phases| == |subs|
    ensures |r.phases| == |subs|
    decreases schedule
  {
    if schedule == [] then s
    else Run(hash, subs, Step(hash, subs, s, schedule[0].writer, schedule[0].action), schedule[1..])
  }

  ghost predicate InRange(log: seq<nat>, n: nat) {
    forall i :: 0 <= i < |log| ==> log[i] < n
  }

  /** The database after only the listed writers, one after the other. */
  ghost function Replay(hash: Hash, subs: seq<Submission>, db: Db, log: seq<nat>): Db
    requires InRange(log, |subs|)
  {
    if log == [] then db
    else Committed(hash, Replay(hash, subs, db, log[..|log| - 1]), subs[log[|log| - 1]])
  }

  ghost predicate AnsweredBy(hash: Hash, db: Db, sub: Submission, phase: Phase) {
    phase.Answered? ==>
      && sub.key in db.registry
      && (if db.registry[sub.key] == PayloadHash(hash, sub.payload) then phase.status == Accepted || phase.status == Duplicate
          else phase.status == Conflict)
  }

  /** The writers of the log, and only they, were told accepted, and their keys were new and differ. */
  ghost predicate LogValid(subs: seq<Submission>, db0: Db, s: State) {
    && |s.phases| == |subs|
    && InRange(s.log, |subs|)
    && (forall w :: 0 <= w < |subs| ==> (s.phases[w] == Answered(Accepted) <==> w in s.log))
    && (forall w :: w in s.log ==> subs[w].key !in db0.registry)
    && (forall i, j :: 0 <= i < j < |s.log| ==> subs[s.log[i]].key != subs[s.log[j]].key)
  }

  ghost predicate Invariant(hash: Hash, subs: seq<Submission>, db0: Db, s: State) {
    && LogValid(subs, db0, s)
    && s.db == Replay(hash, subs, db0, s.log)
    && (forall w :: 0 <= w < |subs| ==> AnsweredBy(hash, s.db, subs[w], s.phases[w]))
  }

  ghost predicate LoggedKey(subs: seq<Submission>, log: seq<nat>, k: Key)
    requires InRange(log, |subs|)
  {
    exists w :: w in log && subs[w].key == k
  }

  ghost predicate Stored(hash: Hash, db: Db, s: Submission) {
    && s.key in db.registry && db.registry[s.key] == PayloadHash(hash, s.payload)
    && s.key in db.inbox && db.inbox[s.key] == s.payload
  }

  lemma {:induction false} ReplayOrigin(hash: Hash, subs: seq<Submission>, db0: Db, log: seq<nat>, k: Key)
    requires InRange(log, |subs|)
    ensures k in Replay(hash, subs, db0, log).registry <==> k in db0.registry || LoggedKey(subs, log, k)
    ensures k in db0.registry && !LoggedKey(subs, log, k) ==> Replay(hash, subs, db0, log).registry[k] == db0.registry[k]
  {
    hide PayloadHash, SeenUser;
    if log != [] {
      var n := |log| - 1;
      assert log == log[..n] + [log[n]];
      ReplayOrigin(hash, subs, db0, log[..n], k);
    }
  }

  lemma {:induction false} ReplayStored(hash: Hash, subs: seq<Submission>, db0: Db, log: seq<nat>, i: nat)
    requires InRange(log, |subs|) && i < |log|
    requires forall j :: i < j < |log| ==> subs[log[i]].key != subs[log[j]].key
    ensures Stored(hash, Replay(hash, subs, db0, log), subs[log[i]])
  {
    hide PayloadHash, SeenUser;
    var n := |log| - 1;
    if i < n { ReplayStored(hash, subs, db0, log[..n], i); }
  }

  /** The registry after a replay: the old entries, and the hash and payload of each listed writer. */
  lemma ReplayRegistry(hash: Hash, subs: seq<Submission>, db0: Db, log: seq<nat>)
    requires InRange(log, |subs|) && forall w :: w in log ==> subs[w].key !in db0.registry
    requires forall i, j :: 0 <= i < j < |log| ==> subs[log[i]].key != subs[log[j]].key
    ensures var r := Replay(hash, subs, db0, log);
      && (forall k :: k in r.registry <==> k in db0.registry || LoggedKey(subs, log, k))
      && (forall k :: k in db0.registry ==> k in r.registry && r.registry[k] == db0.registry[k])
      && (forall w :: w in log ==> Stored(hash, r, subs[w]))
  {
    hide Replay, Stored;
    var r := Replay(hash, subs, db0, log);
    forall k ensures k in r.registry <==> k in db0.registry || LoggedKey(subs, log, k)
      ensures k in db0.registry ==> k in r.registry && r.registry[k] == db0.registry[k]
    {
      ReplayOrigin(hash, subs, db0, log, k);
    }
    forall w | w in log ensures Stored(hash, r, subs[w]) {
      var i :| 0 <= i < |log| && log[i] == w;
      ReplayStored(hash, subs, db0, log, i);
    }
  }

  lemma AnswersStand(hash: Hash, subs: seq<Submission>, db: Db, sub: Submission, phases: seq<Phase>)
    requires sub.key !in db.registry && |phases| == |subs|
    requires forall w :: 0 <= w < |subs| ==> AnsweredBy(hash, db, subs[w], phases[w])
    ensures forall w :: 0 <= w < |subs| ==> AnsweredBy(hash, Committed(hash, db, sub), subs[w], phases[w])
  {
    hide PayloadHash, SeenUser;
  }

  lemma CommitKeepsInvariant(hash: Hash, subs: seq<Submission>, db0: Db, s: State, w: nat)
    requires Invariant(hash, subs, db0, s) && w < |subs| && s.phases[w] == Writing && subs[w].key !in s.db.registry
    ensures Invariant(hash, subs, db0, Step(hash, subs, s, w, Commit))
  {
    hide PayloadHash, SeenUser, AnsweredBy, Committed, Replay;
    var r := Step(hash, subs, s, w, Commit);
    ReplayRegistry(hash, subs, db0, s.log);
    AnswersStand(hash, subs, s.db, subs[w], s.phases);
    assert r.log[..|r.log| - 1] == s.log;
    assert r.db == Replay(hash, subs, db0, r.log) by { ReplayOne(hash, subs, db0, s.log, w); }
    assert AnsweredBy(hash, r.db, subs[w], Answered(Accepted)) by { CommitAnswers(hash, s.db, subs[w]); }
    forall i, j | 0 <= i < j < |r.log| ensures subs[r.log[i]].key != subs[r.log[j]].key {
      assert r.log[i] in s.log;
    }
  }

  lemma ReplayOne(hash: Hash, subs: seq<Submission>, db0: Db, log: seq<nat>, w: nat)
    requires w < |subs| && InRange(log, |subs|)
    ensures Replay(hash, subs, db0, log + [w]) == Committed(hash, Replay(hash, subs, db0, log), subs[w])
  {
    assert (log + [w])[..|log|] == log;
  }

  lemma CommitAnswers(hash: Hash, db: Db, sub: Submission)
    ensures AnsweredBy(hash, Committed(hash, db, sub), sub, Answered(Accepted))
  {
  }

  lemma StepKeepsInvariant(hash: Hash, subs: seq<Submission>, db0: Db, s: State, w: nat, action: Action)
    requires Invariant(hash, subs, db0, s)
    ensures Invariant(hash, subs, db0, Step(hash, subs, s, w, action))
  {
    hide PayloadHash, SeenUser, Replay, Committed;
    if w < |subs| && s.phases[w] == Writing && action == Commit && subs[w].key !in s.db.registry {
      CommitKeepsInvariant(hash, subs, db0, s, w);
    }
  }

  lemma {:induction false} RunKeepsInvariant(hash: Hash, subs: seq<Submission>, db0: Db, s: State, schedule: seq<Event>)
    requires Invariant(hash, subs, db0, s)
    ensures Invariant(hash, subs, db0, Run(hash, subs, s, schedule))
    decreases schedule
  {
    hide Step, Replay, AnsweredBy;
    if schedule != [] {
      StepKeepsInvariant(hash, subs, db0, s, schedule[0].writer, schedule[0].action);
      RunKeepsInvariant(hash, subs, db0, Step(hash, subs, s, schedule[0].writer, schedule[0].action), schedule[1..]);
    }
  }

  lemma FromStart(hash: Hash, subs: seq<Submission>, db0: Db, schedule: seq<Event>)
    ensures Invariant(hash, subs, db0, Run(hash, subs, Initial(db0, |subs|), schedule))
  {
    RunKeepsInvariant(hash, subs, db0, Initial(db0, |subs|), schedule);
  }

  // ---- what every run guarantees ---------------------------------------------------------------

  /** At most one writer per key is told accepted, and none for a key that was there before. */
  lemma AtMostOneAccepted(hash: Hash, subs: seq<Submission>, db0: Db, schedule: seq<Event>, i: nat, j: nat)
    requires i < |subs| && j < |subs|
    requires var s := Run(hash, subs, Initial(db0, |subs|), schedule);
      s.phases[i] == Answered(Accepted) && s.phases[j] == Answered(Accepted)
    ensures subs[i].key == subs[j].key ==> i == j
    ensures subs[i].key !in db0.registry
  {
    hide Run, Replay, AnsweredBy;
    FromStart(hash, subs, db0, schedule);
    var s := Run(hash, subs, Initial(db0, |subs|), schedule);
    assert i in s.log && j in s.log;
    var a :| 0 <= a < |s.log| && s.log[a] == i;
    var b :| 0 <= b < |s.log| && s.log[b] == j;
  }

  /** A stored hash and its payload never change or disappear, from any point of a run on. */
  lemma {:induction false} StoredHashNeverChanges(hash: Hash, subs: seq<Submission>, s: State, schedule: seq<Event>, k: Key)
    requires |s.phases| == |subs| && k in s.db.registry
    ensures var r := Run(hash, subs, s, schedule);
      && k in r.db.registry && r.db.registry[k] == s.db.registry[k]
      && (k in s.db.inbox ==> k in r.db.inbox && r.db.inbox[k] == s.db.inbox[k])
    decreases schedule
  {
    hide PayloadHash, SeenUser;
    if schedule != [] {
      var next := Step(hash, subs, s, schedule[0].writer, schedule[0].action);
      assert k in next.db.registry && next.db.registry[k] == s.db.registry[k];
      StoredHashNeverChanges(hash, subs, next, schedule[1..], k);
    }
  }

  /** Losers leave no trace: the database is what the accepted writers alone produce. */
  lemma LosersLeaveNoTrace(hash: Hash, subs: seq<Submission>, db0: Db, schedule: seq<Event>)
    ensures var s := Run(hash, subs, Initial(db0, |subs|), schedule);
      && InRange(s.log, |subs|)
      && (forall w :: 0 <= w < |subs| ==> (w in s.log <==> s.phases[w] == Answered(Accepted)))
      && s.db == Replay(hash, subs, db0, s.log)
  {
    hide Run, Replay, AnsweredBy;
    FromStart(hash, subs, db0, schedule);
  }

  /** For a key that was new, every answered writer is told accepted, or is told duplicate exactly when
      its payload differs from the accepted one at most in key order, and conflict otherwise. */
  lemma AnswersCompareWithWinner(hash: Hash, subs: seq<Submission>, db0: Db, schedule: seq<Event>, w: nat) returns (winner: nat)
    requires Injective(hash) && w < |subs| && subs[w].key !in db0.registry
    requires forall x :: x in subs ==> Valid(x.payload)
    requires Run(hash, subs, Initial(db0, |subs|), schedule).phases[w].Answered?
    ensures winner < |subs| && subs[winner].key == subs[w].key
    ensures var phases := Run(hash, subs, Initial(db0, |subs|), schedule).phases;
      && phases[winner] == Answered(Accepted)
      && (phases[w] == Answered(Accepted) <==> w == winner)
      && (w != winner ==>
            phases[w] == Answered(if CanonicalJson.SameUpToKeyOrder(subs[w].payload, subs[winner].payload) then Duplicate else Conflict))
  {
    hide Run, Replay, Valid, CanonicalJson.SameUpToKeyOrder, CanonicalJson.CanonicalText;
    FromStart(hash, subs, db0, schedule);
    var s := Run(hash, subs, Initial(db0, |subs|), schedule);
    ReplayRegistry(hash, subs, db0, s.log);
    assert LoggedKey(subs, s.log, subs[w].key);
    winner :| winner in s.log && subs[winner].key == subs[w].key;
    assert Stored(hash, s.db, subs[winner]);
    assert subs[w] in subs && subs[winner] in subs;
    CanonicalJson.CanonicalTextExact(subs[w].payload, subs[winner].payload);
    if s.phases[w] == Answered(Accepted) { AtMostOneAccepted(hash, subs, db0, schedule, w, winner); }
  }

  /** For a key that was there before, nobody is accepted and the comparison is with its hash. */
  lemma AnswersCompareWithStored(hash: Hash, subs: seq<Submission>, db0: Db, schedule: seq<Event>, w: nat)
    requires w < |subs| && subs[w].key in db0.registry
    requires Run(hash, subs, Initial(db0, |subs|), schedule).phases[w].Answered?
    ensures Run(hash, subs, Initial(db0, |subs|), schedule).phases[w] ==
            Answered(if db0.registry[subs[w].key] == PayloadHash(hash, subs[w].payload) then Duplicate else Conflict)
  {
    hide Run, Replay, PayloadHash;
    FromStart(hash, subs, db0, schedule);
    var s := Run(hash, subs, Initial(db0, |subs|), schedule);
    ReplayRegistry(hash, subs, db0, s.log);
    assert s.phases[w] == Answered(Accepted) <==> w in s.log;
  }

  // ---- seen times ------------------------------------------------------------------------------

  ghost function EventTimes(subs: seq<Submission>, log: seq<nat>, user: UserKey): set<int>
    requires InRange(log, |subs|)
  {
    set w | w in log && subs[w].user == user :: subs[w].eventTime
  }

  lemma EventTimesOne(subs: seq<Submission>, log: seq<nat>, user: UserKey)
    requires log != [] && InRange(log, |subs|)
    ensures var n := |log| - 1;
      EventTimes(subs, log, user) ==
        EventTimes(subs, log[..n], user) + if subs[log[n]].user == user then {subs[log[n]].eventTime} else {}
  {
    var n := |log| - 1;
    assert log == log[..n] + [log[n]];
  }

  lemma NoEventTimes(subs: seq<Submission>, user: UserKey)
    ensures EventTimes(subs, [], user) == {}
  {
  }

  lemma {:induction false} ReplaySeen(hash: Hash, subs: seq<Submission>, db0: Db, log: seq<nat>, user: UserKey)
    requires user !in db0.users && InRange(log, |subs|)
    ensures var users := Replay(hash, subs, db0, log).users;
      var times := EventTimes(subs, log, user);
      && (user in users <==> times != {})
      && (user in users ==>
            && users[user].firstSeen in times && users[user].lastSeen in times
            && forall t :: t in times ==> users[user].firstSeen <= t <= users[user].lastSeen)
  {
    hide PayloadHash, EventTimes;
    if log == [] {
      NoEventTimes(subs, user);
    } else {
      ReplaySeen(hash, subs, db0, log[..|log| - 1], user);
      EventTimesOne(subs, log, user);
    }
  }

  /** A user created by intake has been seen from the least to the greatest time of its committed
      events, whatever the order in which they committed. */
  lemma SeenIsMinAndMax(hash: Hash, subs: seq<Submission>, db0: Db, schedule: seq<Event>, user: UserKey)
    requires user !in db0.users
    ensures var s := Run(hash, subs, Initial(db0, |subs|), schedule);
      var times := set w | 0 <= w < |subs| && s.phases[w] == Answered(Accepted) && subs[w].user == user :: subs[w].eventTime;
      && (user in s.db.users <==> times != {})
      && (user in s.db.users ==>
            && s.db.users[user].firstSeen in times && s.db.users[user].lastSeen in times
            && forall t :: t in times ==> s.db.users[user].firstSeen <= t <= s.db.users[user].lastSeen)
  {
    hide Run, Replay, AnsweredBy;
    FromStart(hash, subs, db0, schedule);
    var s := Run(hash, subs, Initial(db0, |subs|), schedule);
    ReplaySeen(hash, subs, db0, s.log, user);
    assert EventTimes(subs, s.log, user) ==
           set w | 0 <= w < |subs| && s.phases[w] == Answered(Accepted) && subs[w].user == user :: subs[w].eventTime;
  }

  // ---- names and properties --------------------------------------------------------------------

  /** The last writer of the log that is about this user and gives a value. */
  ghost predicate LastGiven(subs: seq<Submission>, log: seq<nat>, user: UserKey, given: Submission -> bool, i: int)
    requires InRange(log, |subs|)
  {
    && 0 <= i < |log| && subs[log[i]].user == user && given(subs[log[i]])
    && forall j :: i < j < |log| && subs[log[j]].user == user ==> !given(subs[log[j]])
  }

  ghost predicate NoneGiven(subs: seq<Submission>, log: seq<nat>, user: UserKey, given: Submission -> bool)
    requires InRange(log, |subs|)
  {
    forall j :: 0 <= j < |log| && subs[log[j]].user == user ==> !given(subs[log[j]])
  }

  function NameGiven(): Submission -> bool { (s: Submission) => s.name.Some? }

  function PropertiesGiven(): Submission -> bool { (s: Submission) => s.properties.Some? }

  /** A user's name and properties are those of the last committed event that gives them, or what they were
      before; a user created by intake starts with no name and no properties. */
  ghost predicate Profile(subs: seq<Submission>, db0: Db, log: seq<nat>, user: UserKey, row: UserRow)
    requires InRange(log, |subs|)
  {
    && (forall i :: LastGiven(subs, log, user, NameGiven(), i) ==> row.name == subs[log[i]].name)
    && (NoneGiven(subs, log, user, NameGiven()) ==> row.name == if user in db0.users then db0.users[user].name else None)
    && (forall i :: LastGiven(subs, log, user, PropertiesGiven(), i) ==> Some(row.properties) == subs[log[i]].properties)
    && (NoneGiven(subs, log, user, PropertiesGiven()) ==>
          row.properties == if user in db0.users then db0.users[user].properties else Obj([]))
  }

  lemma {:induction false} ReplayProfile(hash: Hash, subs: seq<Submission>, db0: Db, log: seq<nat>, user: UserKey)
    requires InRange(log, |subs|)
    ensures var users := Replay(hash, subs, db0, log).users;
      && (user in users <==> user in db0.users || exists i :: 0 <= i < |log| && subs[log[i]].user == user)
      && (user in users ==> Profile(subs, db0, log, user, users[user]))
  {
    hide PayloadHash, Profile;
    if log == [] {
      NoProfile(subs, db0, user);
    } else {
      var n := |log| - 1;
      var front, users := log[..n], Replay(hash, subs, db0, log[..n]).users;
      ReplayProfile(hash, subs, db0, front, user);
      if exists i :: 0 <= i < n && subs[front[i]].user == user {
        var i :| 0 <= i < n && subs[front[i]].user == user;
        assert subs[log[i]].user == user;
      }
      if user in users || subs[log[n]].user == user { ProfileStep(subs, db0, log, users, user); }
    }
  }

  lemma NoProfile(subs: seq<Submission>, db0: Db, user: UserKey)
    ensures user in db0.users ==> Profile(subs, db0, [], user, db0.users[user])
  {
  }

  lemma ProfileStep(subs: seq<Submission>, db0: Db, log: seq<nat>, users: map<UserKey, UserRow>, user: UserKey)
    requires log != [] && InRange(log, |subs|) && (user in users || subs[log[|log| - 1]].user == user)
    requires user in users ==> Profile(subs, db0, log[..|log| - 1], user, users[user])
    requires user !in users ==> user !in db0.users && forall i :: 0 <= i < |log| - 1 ==> subs[log[i]].user != user
    ensures var sub := subs[log[|log| - 1]];
      Profile(subs, db0, log, user, if sub.user == user then SeenUser(users, sub) else users[user])
  {
    var n := |log| - 1;
    GivenStep(subs, log, user, NameGiven());
    GivenStep(subs, log, user, PropertiesGiven());
  }

  lemma GivenStep(subs: seq<Submission>, log: seq<nat>, user: UserKey, given: Submission -> bool)
    requires log != [] && InRange(log, |subs|)
    ensures var n := |log| - 1;
      var here := subs[log[n]].user == user && given(subs[log[n]]);
      && (forall i :: LastGiven(subs, log, user, given, i) <==> if here then i == n else LastGiven(subs, log[..n], user, given, i))
      && (NoneGiven(subs, log, user, given) <==> !here && NoneGiven(subs, log[..n], user, given))
  {
    var n := |log| - 1;
    assert forall j :: 0 <= j < n ==> log[..n][j] == log[j];
  }

  /** Whatever the interleaving. */
  lemma ProfileIsLastGiven(hash: Hash, subs: seq<Submission>, db0: Db, schedule: seq<Event>, user: UserKey)
    ensures var s := Run(hash, subs, Initial(db0, |subs|), schedule);
      && InRange(s.log, |subs|)
      && (user in s.db.users <==> user in db0.users || exists i :: 0 <= i < |s.log| && subs[s.log[i]].user == user)
      && (user in s.db.users ==> Profile(subs, db0, s.log, user, s.db.users[user]))
  {
    hide Run, Replay, AnsweredBy, Profile;
    FromStart(hash, subs, db0, schedule);
    ReplayProfile(hash, subs, db0, Run(hash, subs, Initial(db0, |subs|), schedule).log, user);
  }

  // ---- one request -----------------------------------------------------------------------------

  /** An entry of a batch after schema and property validation. */
  datatype Candidate = Malformed | BadProperty | WellFormed(sub: Submission)

  datatype Limits = Limits(maxBatchSize: nat, maxBatchBytes: nat, maxEventBytes: nat, size: string -> nat)

  datatype IngestError = PayloadTooLarge | InvalidEnvelope | TransactionFailed

  datatype Response = Response(accepted: nat, duplicates: nat, conflicts: nat, rejected: nat, results: seq<Status>)

  predicate Admitted(limits: Limits, c: Candidate) {
    c.WellFormed? && limits.size(CanonicalJson.CanonicalText(c.sub.payload)) <= limits.maxEventBytes
  }

  function Persist(hash: Hash, db: Db, sub: Submission): (Db, Status) {
    if sub.key in db.registry then (db, StatusForExisting(db.registry[sub.key], PayloadHash(hash, sub.payload)))
    else (Committed(hash, db, sub), Accepted)
  }

  function Item(hash: Hash, limits: Limits, db: Db, c: Candidate): (Db, Status) {
    if Admitted(limits, c) then Persist(hash, db, c.sub) else (db, Rejected)
  }

  function Batch(hash: Hash, limits: Limits, db: Db, cs: seq<Candidate>): (r: (Db, seq<Status>))
    ensures |r.1| == |cs|
  {
    if cs == [] then (db, [])
    else
      var (mid, front) := Batch(hash, limits, db, cs[..|cs| - 1]);
      var (last, status) := Item(hash, limits, mid, cs[|cs| - 1]);
      (last, front + [status])
  }

  function Count(results: seq<Status>, status: Status): (n: nat)
    ensures n <= |results|
  {
    if results == [] then 0
    else Count(results[..|results| - 1], status) + if results[|results| - 1] == status then 1 else 0
  }

  /** A count is the number of results with that status. */
  lemma {:induction false} CountExact(results: seq<Status>, status: Status)
    ensures Count(results, status) == multiset(results)[status]
  {
    if results != [] {
      var n := |results| - 1;
      assert results == results[..n] + [results[n]];
      CountExact(results[..n], status);
    }
  }

  /** The four counts partition the results. */
  lemma {:induction false} CountsPartition(results: seq<Status>)
    ensures Count(results, Accepted) + Count(results, Duplicate) + Count(results, Conflict) + Count(results, Rejected) == |results|
  {
    if results != [] { CountsPartition(results[..|results| - 1]); }
  }

  class Intake {
    var db: Db

    constructor (initial: Db)
      ensures db == initial
    {
      db := initial;
    }

    method PersistEvent(hash: Hash, sub: Submission) returns (status: Status)
      modifies this
      ensures (db, status) == Persist(hash, old(db), sub)
    {
      if sub.key in db.registry {
        return StatusForExisting(db.registry[sub.key], PayloadHash(hash, sub.payload));
      }
      db := db.(users := db.users[sub.user := SeenUser(db.users, sub)]);
      db := db.(registry := db.registry[sub.key := PayloadHash(hash, sub.payload)], inbox := db.inbox[sub.key := sub.payload]);
      status := Accepted;
    }

    /** The batch loop, one event after the other. An event whose transaction throws ends the request with
        the events before it stored. */
    method Ingest(hash: Hash, limits: Limits, batchBytes: nat, cs: seq<Candidate>, throws: nat -> bool)
      returns (r: Result<Response, IngestError>)
      modifies this
      ensures r.Ok? <==>
        batchBytes <= limits.maxBatchBytes && 1 <= |cs| <= limits.maxBatchSize && !StopsBefore(limits, cs, throws, |cs|)
      ensures r == Err(TransactionFailed) ==> exists i :: 0 <= i < |cs| && StopsAt(limits, cs, throws, i)
                                               && db == Batch(hash, limits, old(db), cs[..i]).0
      ensures r.Err? && r.error != TransactionFailed ==> db == old(db)
      ensures r.Ok? ==>
        && (db, r.value.results) == Batch(hash, limits, old(db), cs)
        && r.value.accepted + r.value.duplicates + r.value.conflicts + r.value.rejected == |cs|
        && r.value.accepted == multiset(r.value.results)[Accepted] && r.value.duplicates == multiset(r.value.results)[Duplicate]
        && r.value.conflicts == multiset(r.value.results)[Conflict] && r.value.rejected == multiset(r.value.results)[Rejected]
    {
      hide Count, Persist;
      if batchBytes > limits.maxBatchBytes { return Err(PayloadTooLarge); }
      if cs == [] { return Err(InvalidEnvelope); }
      if |cs| > limits.maxBatchSize { return Err(PayloadTooLarge); }
      var results: seq<Status> := [];
      for i := 0 to |cs|
        invariant (db, results) == Batch(hash, limits, old(db), cs[..i])
        invariant !StopsBefore(limits, cs, throws, i)
      {
        assert cs[..i + 1][..i] == cs[..i];
        if Admitted(limits, cs[i]) {
          if throws(i) { return Err(TransactionFailed); }
          var status := PersistEvent(hash, cs[i].sub);
          results := results + [status];
        } else {
          results := results + [Rejected];
        }
      }
      assert cs[..|cs|] == cs;
      CountsPartition(results);
      forall status ensures Count(results, status) == multiset(results)[status] { CountExact(results, status); }
      r := Ok(Response(Count(results, Accepted), Count(results, Duplicate), Count(results, Conflict), Count(results, Rejected), results));
    }
  }

  /** Some event before position `n` is admitted and its transaction throws. */
  ghost predicate StopsBefore(limits: Limits, cs: seq<Candidate>, throws: nat -> bool, n: nat)
    requires n <= |cs|
  {
    exists j :: 0 <= j < n && Admitted(limits, cs[j]) && throws(j)
  }

  /** The first event whose transaction throws. */
  ghost predicate StopsAt(limits: Limits, cs: seq<Candidate>, throws: nat -> bool, i: nat)
    requires i < |cs|
  {
    Admitted(limits, cs[i]) && throws(i) && !StopsBefore(limits, cs, throws, i)
  }

  /** A writer that runs alone does what the sequential transaction does. */
  lemma AloneIsPersist(hash: Hash, subs: seq<Submission>, s: State, w: nat)
    requires |s.phases| == |subs| && w < |subs| && s.phases[w] == Start
    ensures var r := Run(hash, subs, s, [Event(w, Read), Event(w, Commit)]);
      (r.db, r.phases[w]) == (Persist(hash, s.db, subs[w]).0, Answered(Persist(hash, s.db, subs[w]).1))
  {
    hide PayloadHash, Committed;
    var mid := Step(hash, subs, s, w, Read);
    assert [Event(w, Read), Event(w, Commit)][1..] == [Event(w, Commit)];
    assert [Event(w, Commit)][1..] == [];
    assert Run(hash, subs, mid, [Event(w, Commit)]) == Step(hash, subs, mid, w, Commit);
  }

  // ---- what a batch answers --------------------------------------------------------------------

  /** Well-formed, and its canonical text within the limit for one event. */
  ghost predicate Fits(limits: Limits, c: Candidate) {
    c.WellFormed? && limits.size(CanonicalJson.CanonicalText(c.sub.payload)) <= limits.maxEventBytes
  }

  ghost predicate FitsWith(limits: Limits, c: Candidate, k: Key) { Fits(limits, c) && c.sub.key == k }

  /** The first event of a batch that fits and has this key. */
  ghost predicate FirstWith(limits: Limits, cs: seq<Candidate>, k: Key, j: int) {
    0 <= j < |cs| && FitsWith(limits, cs[j], k) && cs[j].WellFormed? && forall i :: 0 <= i < j ==> !FitsWith(limits, cs[i], k)
  }

  ghost predicate Brings(limits: Limits, cs: seq<Candidate>, k: Key) {
    exists c :: c in cs && FitsWith(limits, c, k)
  }

  /** After a batch a key is stored if it was or an event brings it, with the hash of the first that does. */
  lemma {:induction false} BatchRegistry(hash: Hash, limits: Limits, db: Db, cs: seq<Candidate>, k: Key)
    ensures var r := Batch(hash, limits, db, cs).0.registry;
      && (k in r <==> k in db.registry || Brings(limits, cs, k))
      && (k in db.registry ==> r[k] == db.registry[k])
      && (k !in db.registry ==> forall j :: FirstWith(limits, cs, k, j) ==> k in r && r[k] == PayloadHash(hash, cs[j].sub.payload))
  {
    hide Item, PayloadHash, FitsWith, FirstWith;
    if cs == [] {
      assert forall j :: !FirstWith(limits, cs, k, j) by { NoFirst(limits, k); }
    } else {
      var n := |cs| - 1;
      assert cs == cs[..n] + [cs[n]];
      BatchRegistry(hash, limits, db, cs[..n], k);
      ItemRegistry(hash, limits, Batch(hash, limits, db, cs[..n]).0, cs[n], k);
      FirstStep(limits, cs, k);
    }
  }

  lemma NoFirst(limits: Limits, k: Key)
    ensures forall j :: !FirstWith(limits, [], k, j)
  {
  }

  lemma FirstStep(limits: Limits, cs: seq<Candidate>, k: Key)
    requires cs != []
    ensures var n := |cs| - 1;
      forall j :: FirstWith(limits, cs, k, j) <==>
        FirstWith(limits, cs[..n], k, j) || (j == n && FitsWith(limits, cs[n], k) && !Brings(limits, cs[..n], k))
    ensures forall j :: FirstWith(limits, cs, k, j) ==> 0 <= j < |cs| && cs[j].WellFormed? && Brings(limits, cs, k)
    ensures forall j :: FirstWith(limits, cs[..|cs| - 1], k, j) ==> 0 <= j < |cs| - 1 && cs[..|cs| - 1][j] == cs[j]
                                                                    && Brings(limits, cs[..|cs| - 1], k)
  {
    hide FitsWith;
    var n := |cs| - 1;
    FitsWellFormed(limits, cs[n], k);
    assert forall j :: 0 <= j < n ==> cs[..n][j] == cs[j] && cs[j] in cs[..n];
  }

  lemma FitsWellFormed(limits: Limits, c: Candidate, k: Key)
    ensures FitsWith(limits, c, k) ==> c.WellFormed?
  {
  }

  lemma ItemRegistry(hash: Hash, limits: Limits, db: Db, c: Candidate, k: Key)
    ensures var r := Item(hash, limits, db, c).0.registry;
      && (k in r <==> k in db.registry || FitsWith(limits, c, k))
      && (FitsWith(limits, c, k) ==> c.WellFormed?)
      && (k in r ==> r[k] == if k in db.registry then db.registry[k] else PayloadHash(hash, c.sub.payload))
  {
    hide PayloadHash, SeenUser;
  }

  /** Every answer of a batch: rejected exactly if it does not fit; accepted exactly if its key was not stored
      and it is the first to bring it; otherwise duplicate or conflict as its payload has the stored hash, or
      the hash of the event that brought the key, or not. */
  lemma {:induction false} BatchAnswers(hash: Hash, limits: Limits, db: Db, cs: seq<Candidate>, i: nat)
    requires i < |cs|
    ensures var s := Batch(hash, limits, db, cs).1[i];
      && (s == Rejected <==> !Fits(limits, cs[i]))
      && (Fits(limits, cs[i]) ==>
            var k, own := cs[i].sub.key, PayloadHash(hash, cs[i].sub.payload);
            && (s == Accepted <==> k !in db.registry && !Brings(limits, cs[..i], k))
            && (k in db.registry ==> s == if db.registry[k] == own then Duplicate else Conflict)
            && (k !in db.registry ==> forall j :: FirstWith(limits, cs[..i], k, j) ==>
                  s == if PayloadHash(hash, cs[j].sub.payload) == own then Duplicate else Conflict))
  {
    hide Item, PayloadHash, FirstWith, Brings, CanonicalJson.CanonicalText;
    var n := |cs| - 1;
    if i < n {
      BatchAnswers(hash, limits, db, cs[..n], i);
      assert cs[..n][i] == cs[i] && cs[..n][..i] == cs[..i];
    } else {
      ItemAnswer(hash, limits, Batch(hash, limits, db, cs[..n]).0, cs[n]);
      if Fits(limits, cs[n]) { BatchRegistry(hash, limits, db, cs[..n], cs[n].sub.key); }
    }
    forall k, j | FirstWith(limits, cs[..i], k, j) ensures 0 <= j < i && cs[..i][j] == cs[j] && cs[j].WellFormed? && Brings(limits, cs[..i], k) {
      FirstBrings(limits, cs[..i], k, j);
    }
  }

  lemma FirstBrings(limits: Limits, cs: seq<Candidate>, k: Key, j: int)
    requires FirstWith(limits, cs, k, j)
    ensures 0 <= j < |cs| && cs[j].WellFormed? && Brings(limits, cs, k)
  {
  }

  lemma ItemAnswer(hash: Hash, limits: Limits, db: Db, c: Candidate)
    ensures var s := Item(hash, limits, db, c).1;
      && (s == Rejected <==> !Fits(limits, c))
      && (Fits(limits, c) ==>
            && (s == Accepted <==> c.sub.key !in db.registry)
            && (c.sub.key in db.registry ==> s == if db.registry[c.sub.key] == PayloadHash(hash, c.sub.payload) then Duplicate else Conflict))
  {
    hide PayloadHash, SeenUser;
  }

  // ---- retries ---------------------------------------------------------------------------------

  ghost predicate Extends(later: Db, earlier: Db) {
    forall k :: k in earlier.registry ==> k in later.registry && later.registry[k] == earlier.registry[k]
  }

  function Retried(status: Status): Status { if status == Accepted then Duplicate else status }

  /** A retry is validated anew, under the limits and property definitions of its own time; an event that is
      admitted both times is the same event. */
  ghost predicate RetryOf(limits: Limits, cs: seq<Candidate>, limits': Limits, cs': seq<Candidate>) {
    && |cs'| == |cs|
    && forall i :: 0 <= i < |cs| && Admitted(limits, cs[i]) && Admitted(limits', cs'[i]) ==> cs'[i] == cs[i]
  }

  /** The retry with everything left out that was admitted before. */
  function FirstTime(limits: Limits, cs: seq<Candidate>, cs': seq<Candidate>): (r: seq<Candidate>)
    requires |cs'| == |cs|
    ensures |r| == |cs| && forall i :: 0 <= i < |r| ==> r[i] == if Admitted(limits, cs[i]) then Malformed else cs'[i]
  {
    seq(|cs|, i requires 0 <= i < |cs| => if Admitted(limits, cs[i]) then Malformed else cs'[i])
  }

  lemma ItemRetried(hash: Hash, limits: Limits, db: Db, c: Candidate, later: Db, limits': Limits)
    requires Extends(later, Item(hash, limits, db, c).0) && Admitted(limits, c) && Admitted(limits', c)
    ensures Item(hash, limits', later, c) == (later, Retried(Item(hash, limits, db, c).1))
  {
    hide PayloadHash, SeenUser;
    assert c.sub.key in Item(hash, limits, db, c).0.registry;
  }

  lemma ItemExtends(hash: Hash, limits: Limits, db: Db, c: Candidate)
    ensures Extends(Item(hash, limits, db, c).0, db)
  {
    hide PayloadHash, SeenUser;
  }

  lemma {:induction false} BatchExtends(hash: Hash, limits: Limits, db: Db, cs: seq<Candidate>)
    ensures Extends(Batch(hash, limits, db, cs).0, db)
  {
    hide Item;
    if cs != [] {
      var n := |cs| - 1;
      BatchExtends(hash, limits, db, cs[..n]);
      ItemExtends(hash, limits, Batch(hash, limits, db, cs[..n]).0, cs[n]);
    }
  }

  /** Sending a batch again, after any further intake: an event admitted both times is told duplicate where
      it was accepted and the same as before otherwise, and writes nothing; every other event is answered,
      and written, as if those had been left out of the batch. */
  lemma {:induction false} RetryIsIdempotent(hash: Hash, limits: Limits, db: Db, cs: seq<Candidate>, later: Db,
                                             limits': Limits, cs': seq<Candidate>)
    requires Extends(later, Batch(hash, limits, db, cs).0) && RetryOf(limits, cs, limits', cs')
    ensures var again, first := Batch(hash, limits', later, cs'), Batch(hash, limits', later, FirstTime(limits, cs, cs'));
      && again.0 == first.0
      && forall i :: 0 <= i < |cs| ==>
           again.1[i] == if Admitted(limits, cs[i]) && Admitted(limits', cs'[i]) then Retried(Batch(hash, limits, db, cs).1[i])
                         else first.1[i]
    decreases |cs|
  {
    hide Item, Extends, Admitted, Batch;
    if cs != [] {
      var n := |cs| - 1;
      var front, front' := cs[..n], cs'[..n];
      var first := FirstTime(limits, cs, cs');
      var mid, mid' := Batch(hash, limits, db, front).0, Batch(hash, limits', later, front').0;
      BatchLast(hash, limits, db, cs);
      BatchLast(hash, limits', later, cs');
      BatchLast(hash, limits', later, first);
      ExtendsBack(hash, limits, mid, cs[n], later);
      RetryIsIdempotent(hash, limits, db, front, later, limits', front');
      assert first[..n] == FirstTime(limits, front, front');
      BatchExtends(hash, limits', later, front');
      ItemAgain(hash, limits, mid, cs[n], later, mid', limits', cs'[n]);
    }
  }

  lemma BatchLast(hash: Hash, limits: Limits, db: Db, cs: seq<Candidate>)
    requires cs != []
    ensures var n := |cs| - 1;
      var front := Batch(hash, limits, db, cs[..n]);
      var last := Item(hash, limits, front.0, cs[n]);
      Batch(hash, limits, db, cs) == (last.0, front.1 + [last.1])
  {
    hide Item;
  }

  lemma ExtendsBack(hash: Hash, limits: Limits, db: Db, c: Candidate, later: Db)
    requires Extends(later, Item(hash, limits, db, c).0)
    ensures Extends(later, db)
  {
    hide Item;
    ItemExtends(hash, limits, db, c);
  }

  /** The last event of a retry, and of the retry with known events left out. */
  lemma ItemAgain(hash: Hash, limits: Limits, db: Db, c: Candidate, later: Db, now: Db, limits': Limits, c': Candidate)
    requires Extends(later, Item(hash, limits, db, c).0) && Extends(now, later)
    requires Admitted(limits, c) && Admitted(limits', c') ==> c' == c
    ensures var again := Item(hash, limits', now, c');
      var first := Item(hash, limits', now, if Admitted(limits, c) then Malformed else c');
      && again.0 == first.0
      && again.1 == if Admitted(limits, c) && Admitted(limits', c') then Retried(Item(hash, limits, db, c).1) else first.1
  {
    hide Persist;
    if Admitted(limits, c) && Admitted(limits', c') {
      assert Extends(now, Item(hash, limits, db, c).0);
      ItemRetried(hash, limits, db, c, now, limits');
    }
  }

  /** A batch without admitted events writes nothing. */
  lemma {:induction false} NothingNew(hash: Hash, limits: Limits, db: Db, cs: seq<Candidate>)
    requires forall i :: 0 <= i < |cs| ==> !Admitted(limits, cs[i])
    ensures Batch(hash, limits, db, cs).0 == db && forall i :: 0 <= i < |cs| ==> Batch(hash, limits, db, cs).1[i] == Rejected
  {
    hide Admitted, Persist;
    if cs != [] { NothingNew(hash, limits, db, cs[..|cs| - 1]); }
  }

  /** When everything the retry admits was admitted before, the database is unchanged, and the retry is told
      duplicate where it was accepted, the same where it is admitted again, and rejected elsewhere. */
  lemma RetryWritesNothing(hash: Hash, limits: Limits, db: Db, cs: seq<Candidate>, later: Db, limits': Limits, cs': seq<Candidate>)
    requires Extends(later, Batch(hash, limits, db, cs).0) && RetryOf(limits, cs, limits', cs')
    requires forall i :: 0 <= i < |cs| && Admitted(limits', cs'[i]) ==> Admitted(limits, cs[i])
    ensures Batch(hash, limits', later, cs').0 == later
    ensures forall i :: 0 <= i < |cs| ==>
      Batch(hash, limits', later, cs').1[i] ==
        if Admitted(limits', cs'[i]) then Retried(Batch(hash, limits, db, cs).1[i]) else Rejected
  {
    hide Batch, Extends, Item;
    RetryIsIdempotent(hash, limits, db, cs, later, limits', cs');
    NothingNew(hash, limits', later, FirstTime(limits, cs, cs'));
  }
}

/** The recovery scan for queued background jobs: up to ten workers share one cursor over the rows, and
    the queue deduplicates by job identifier. Workers interleave at every wait for the queue. */
module Recovery {
  import opened Outcomes
  import opened Ordering
  import opened JobQueue

  const CONCURRENCY: nat := 10

  /** A persisted job: its identifier, whether it is still queued, of the supported type, and whether its
      parameters are an object. */
  datatype Job = Job(id: string, queued: bool, supported: bool, parametersOk: bool)

  datatype RowResult = Enqueued | AlreadyPresent | Failed

  /** Where a worker waits: at the loop head, for a lookup to reach the queue or to be answered, for an
      add to reach the queue or to be answered, or nowhere any more. */
  datatype Worker =
    | Ready
    | Looking(index: nat)
    | Looked(index: nat, present: bool)
    | Adding(index: nat)
    | Added(index: nat)
    | Finished

  datatype Done = Done(index: nat, result: RowResult)

  /** `claims` and `completed` record which rows were taken and how each one ended; `late` holds adds whose
      caller has given up while the command is still on its way. */
  datatype State = State(
    cursor: nat, scanned: nat, enqueued: nat, alreadyPresent: nat, failed: nat, workers: seq<Worker>,
    queue: seq<string>, late: seq<string>, claims: seq<nat>, completed: seq<Done>)

  /** An atomic segment. `Claim` reads the clock, `Refuse` is an error reply or a timeout of the worker's
      queue operation, `LateAdd` is a given-up add reaching the queue, `OtherAdd` is another process. */
  datatype Action =
    | Claim(worker: nat, expired: bool)
    | Lookup(worker: nat)
    | Answer(worker: nat)
    | Land(worker: nat)
    | Refuse(worker: nat)
    | TimeOut(worker: nat)
    | LateAdd(position: nat)
    | OtherAdd(id: string)

  function Initial(rows: seq<Job>, queue: seq<string>): State {
    State(0, 0, 0, 0, 0, seq(if |rows| < CONCURRENCY then |rows| else CONCURRENCY, _ => Ready), queue, [], [], [])
  }

  /** The worker's row ends with `result`, and the worker is back at the loop head. */
  function Finish(s: State, w: nat, index: nat, result: RowResult): State
    requires w < |s.workers|
  {
    s.(workers := s.workers[w := Ready], completed := s.completed + [Done(index, result)],
       enqueued := s.enqueued + if result == Enqueued then 1 else 0,
       alreadyPresent := s.alreadyPresent + if result == AlreadyPresent then 1 else 0,
       failed := s.failed + if result == Failed then 1 else 0)
  }

  /** The loop head: stop after the deadline, else take the next row if there is one. */
  function ClaimNext(rows: seq<Job>, s: State, w: nat, expired: bool): State
    requires w < |s.workers|
  {
    if expired then s.(workers := s.workers[w := Worker.Finished])
    else
      var index := s.cursor;
      if index >= |rows| then s.(cursor := index + 1, workers := s.workers[w := Worker.Finished])
      else
        var taken := s.(cursor := index + 1, scanned := s.scanned + 1, claims := s.claims + [index],
                        workers := s.workers[w := Looking(index)]);
        if !rows[index].queued then Finish(taken, w, index, AlreadyPresent)
        else if !rows[index].supported then Finish(taken, w, index, Failed)
        else taken
  }

  function AnswerWorker(rows: seq<Job>, s: State, w: nat): State
    requires w < |s.workers|
  {
    match s.workers[w]
    case Looked(i, present) =>
      if present then Finish(s, w, i, AlreadyPresent)
      else if i < |rows| && rows[i].parametersOk then s.(workers := s.workers[w := Adding(i)])
      else Finish(s, w, i, Failed)
    case Added(i) => Finish(s, w, i, Enqueued)
    case _ => s
  }

  /** An action that is not possible in a state does nothing. */
  function Step(rows: seq<Job>, s: State, a: Action): (r: State)
    ensures |r.workers| == |s.workers|
  {
    match a
    case LateAdd(p) =>
      if p < |s.late| then s.(queue := Add(s.queue, s.late[p]), late := s.late[..p] + s.late[p + 1..]) else s
    case OtherAdd(id) => s.(queue := Add(s.queue, id))
    case Claim(w, expired) =>
      if w < |s.workers| && s.workers[w].Ready? then ClaimNext(rows, s, w, expired) else s
    case Lookup(w) =>
      if w < |s.workers| && s.workers[w].Looking? && s.workers[w].index < |rows| then
        var i := s.workers[w].index;
        s.(workers := s.workers[w := Looked(i, rows[i].id in s.queue)])
      else s
    case Answer(w) => if w < |s.workers| then AnswerWorker(rows, s, w) else s
    case Land(w) =>
      if w < |s.workers| && s.workers[w].Adding? && s.workers[w].index < |rows| then
        var i := s.workers[w].index;
        s.(workers := s.workers[w := Added(i)], queue := Add(s.queue, rows[i].id))
      else s
    case Refuse(w) =>
      if w < |s.workers| && !s.workers[w].Ready? && !s.workers[w].Finished? then Finish(s, w, s.workers[w].index, Failed) else s
    case TimeOut(w) =>
      if w < |s.workers| && s.workers[w].Adding? && s.workers[w].index < |rows| then
        var i := s.workers[w].index;
        Finish(s.(late := s.late + [rows[i].id]), w, i, Failed)
      else s
  }

  function Run(rows: seq<Job>, s: State, schedule: seq<Action>): (r: State)
    ensures |r.workers| == |s.workers|
  {
    if schedule == [] then s else Step(rows, Run(rows, s, schedule[..|schedule| - 1]), schedule[|schedule| - 1])
  }

  // ---- the invariant ---------------------------------------------------------------------------

  predicate Busy(w: Worker) { !w.Ready? && !w.Finished? }

  function BusyCount(workers: seq<Worker>): nat {
    if workers == [] then 0 else BusyCount(workers[..|workers| - 1]) + if Busy(workers[|workers| - 1]) then 1 else 0
  }

  function ResultCount(completed: seq<Done>, result: RowResult): nat {
    if completed == [] then 0
    else ResultCount(completed[..|completed| - 1], result) + if completed[|completed| - 1].result == result then 1 else 0
  }

  /** Rows are claimed one after the other from the first. */
  ghost predicate Claims(rows: seq<Job>, s: State) {
    && s.scanned == |s.claims| && s.scanned == (if s.cursor < |rows| then s.cursor else |rows|)
    && forall k :: 0 <= k < |s.claims| ==> s.claims[k] == k
  }

  /** Completed rows and rows being worked on are claimed, and no row is there twice. */
  ghost predicate Exclusive(s: State) {
    && (forall k :: 0 <= k < |s.completed| ==> s.completed[k].index < s.scanned)
    && (forall j, k :: 0 <= j < k < |s.completed| ==> s.completed[j].index != s.completed[k].index)
    && (forall w :: 0 <= w < |s.workers| && Busy(s.workers[w]) ==> s.workers[w].index < s.scanned)
    && (forall v, w :: 0 <= v < w < |s.workers| && Busy(s.workers[v]) && Busy(s.workers[w]) ==>
          s.workers[v].index != s.workers[w].index)
    && (forall k, w :: 0 <= k < |s.completed| && 0 <= w < |s.workers| && Busy(s.workers[w]) ==>
          s.completed[k].index != s.workers[w].index)
  }

  ghost predicate Counts(s: State) {
    && s.scanned == |s.completed| + BusyCount(s.workers)
    && s.enqueued == ResultCount(s.completed, Enqueued) && s.alreadyPresent == ResultCount(s.completed, AlreadyPresent)
    && s.failed == ResultCount(s.completed, Failed)
  }

  /** A row reported as enqueued or present, and a row found present or already added, is in the queue. */
  ghost predicate Delivered(rows: seq<Job>, s: State) {
    && (forall d :: d in s.completed && d.result != Failed && d.index < |rows| && rows[d.index].queued ==> rows[d.index].id in s.queue)
    && (forall w :: w in s.workers && ((w.Looked? && w.present) || w.Added?) && w.index < |rows| ==> rows[w.index].id in s.queue)
  }

  lemma {:induction false} BusyCountUpdate(workers: seq<Worker>, w: nat, x: Worker)
    requires w < |workers|
    ensures BusyCount(workers[w := x]) + (if Busy(workers[w]) then 1 else 0) == BusyCount(workers) + (if Busy(x) then 1 else 0)
  {
    var n := |workers| - 1;
    var after := workers[w := x];
    if w < n {
      BusyCountUpdate(workers[..n], w, x);
      assert after[..n] == workers[..n][w := x];
    } else {
      assert after[..n] == workers[..n];
    }
  }

  ghost predicate Tracks(rows: seq<Job>, s: State) {
    Claims(rows, s) && Exclusive(s) && Counts(s)
  }

  lemma FinishTracks(rows: seq<Job>, s: State, w: nat, result: RowResult)
    requires Tracks(rows, s) && w < |s.workers| && Busy(s.workers[w])
    ensures Tracks(rows, Finish(s, w, s.workers[w].index, result))
  {
    hide BusyCount;
    var r := Finish(s, w, s.workers[w].index, result);
    BusyCountUpdate(s.workers, w, Ready);
    assert r.completed[..|s.completed|] == s.completed;
  }

  /** A worker that stays on its row. */
  lemma MoveTracks(rows: seq<Job>, s: State, w: nat, x: Worker)
    requires Tracks(rows, s) && w < |s.workers| && Busy(s.workers[w]) && Busy(x) && x.index == s.workers[w].index
    ensures Tracks(rows, s.(workers := s.workers[w := x]))
  {
    hide BusyCount, ResultCount;
    BusyCountUpdate(s.workers, w, x);
  }

  lemma StopTracks(rows: seq<Job>, s: State, w: nat, cursor: nat)
    requires Tracks(rows, s) && w < |s.workers| && s.workers[w].Ready?
    requires cursor == s.cursor || (s.cursor >= |rows| && cursor == s.cursor + 1)
    ensures Tracks(rows, s.(cursor := cursor, workers := s.workers[w := Worker.Finished]))
  {
    hide BusyCount, ResultCount;
    BusyCountUpdate(s.workers, w, Worker.Finished);
  }

  lemma TakeTracks(rows: seq<Job>, s: State, w: nat)
    requires Tracks(rows, s) && w < |s.workers| && s.workers[w].Ready? && s.cursor < |rows|
    ensures Tracks(rows, s.(cursor := s.cursor + 1, scanned := s.scanned + 1, claims := s.claims + [s.cursor],
                            workers := s.workers[w := Looking(s.cursor)]))
  {
    hide BusyCount, ResultCount;
    BusyCountUpdate(s.workers, w, Looking(s.cursor));
  }

  lemma ClaimTracks(rows: seq<Job>, s: State, w: nat, expired: bool)
    requires Tracks(rows, s) && w < |s.workers| && s.workers[w].Ready?
    ensures Tracks(rows, ClaimNext(rows, s, w, expired))
  {
    hide Tracks, Finish;
    if expired {
      StopTracks(rows, s, w, s.cursor);
      assert s.(cursor := s.cursor, workers := s.workers[w := Worker.Finished]) == s.(workers := s.workers[w := Worker.Finished]);
    } else if s.cursor >= |rows| {
      StopTracks(rows, s, w, s.cursor + 1);
    } else {
      TakeTracks(rows, s, w);
      var taken := s.(cursor := s.cursor + 1, scanned := s.scanned + 1, claims := s.claims + [s.cursor],
                      workers := s.workers[w := Looking(s.cursor)]);
      FinishTracks(rows, taken, w, AlreadyPresent);
      FinishTracks(rows, taken, w, Failed);
    }
  }

  /** The queue and the adds on their way play no part in the bookkeeping. */
  lemma QueueApart(rows: seq<Job>, s: State, queue: seq<string>, late: seq<string>)
    requires Tracks(rows, s)
    ensures Tracks(rows, s.(queue := queue, late := late))
  {
    hide BusyCount, ResultCount;
  }

  lemma StepTracks(rows: seq<Job>, s: State, a: Action)
    requires Tracks(rows, s)
    ensures Tracks(rows, Step(rows, s, a))
  {
    hide Tracks, Finish, ClaimNext, Add;
    var r := Step(rows, s, a);
    match a {
      case LateAdd(_) => QueueApart(rows, s, r.queue, r.late);
      case OtherAdd(_) => QueueApart(rows, s, r.queue, r.late);
      case Claim(w, expired) => if w < |s.workers| && s.workers[w].Ready? { ClaimTracks(rows, s, w, expired); }
      case Lookup(w) =>
        if r != s { MoveTracks(rows, s, w, r.workers[w]); }
      case Answer(w) =>
        if w < |s.workers| && (s.workers[w].Looked? || s.workers[w].Added?) {
          FinishTracks(rows, s, w, AlreadyPresent);
          FinishTracks(rows, s, w, Failed);
          FinishTracks(rows, s, w, Enqueued);
          MoveTracks(rows, s, w, Adding(s.workers[w].index));
        }
      case Land(w) =>
        if r != s {
          MoveTracks(rows, s, w, r.workers[w]);
          QueueApart(rows, s.(workers := r.workers), r.queue, s.late);
        }
      case Refuse(w) => if w < |s.workers| && Busy(s.workers[w]) { FinishTracks(rows, s, w, Failed); }
      case TimeOut(w) =>
        if w < |s.workers| && s.workers[w].Adding? && s.workers[w].index < |rows| {
          var late := s.late + [rows[s.workers[w].index].id];
          QueueApart(rows, s, s.queue, late);
          FinishTracks(rows, s.(queue := s.queue, late := late), w, Failed);
          assert s.(queue := s.queue, late := late) == s.(late := late);
        }
    }
  }

  lemma FinishDelivered(rows: seq<Job>, s: State, w: nat, index: nat, result: RowResult)
    requires Delivered(rows, s) && w < |s.workers|
    requires result == Failed || (index < |rows| && (rows[index].queued ==> rows[index].id in s.queue))
    ensures Delivered(rows, Finish(s, w, index, result))
  {
  }

  lemma MoveDelivered(rows: seq<Job>, s: State, w: nat, x: Worker)
    requires Delivered(rows, s) && w < |s.workers|
    requires ((x.Looked? && x.present) || x.Added?) && x.index < |rows| ==> rows[x.index].id in s.queue
    ensures Delivered(rows, s.(workers := s.workers[w := x]))
  {
  }

  lemma QueueGrows(rows: seq<Job>, s: State, queue: seq<string>, late: seq<string>)
    requires Delivered(rows, s) && s.queue <= queue
    ensures Delivered(rows, s.(queue := queue, late := late))
  {
    assert forall id :: id in s.queue ==> id in queue;
  }

  lemma ClaimDelivered(rows: seq<Job>, s: State, w: nat, expired: bool)
    requires Delivered(rows, s) && w < |s.workers|
    ensures Delivered(rows, ClaimNext(rows, s, w, expired))
  {
    hide Finish;
    if !expired && s.cursor < |rows| {
      var i := s.cursor;
      var taken := s.(cursor := i + 1, scanned := s.scanned + 1, claims := s.claims + [i], workers := s.workers[w := Looking(i)]);
      assert Delivered(rows, taken);
      FinishDelivered(rows, taken, w, i, Failed);
      if !rows[i].queued { FinishDelivered(rows, taken, w, i, AlreadyPresent); }
    }
  }

  lemma AnswerDelivered(rows: seq<Job>, s: State, w: nat)
    requires Tracks(rows, s) && Delivered(rows, s) && w < |s.workers|
    ensures Delivered(rows, AnswerWorker(rows, s, w))
  {
    hide Finish, BusyCount, ResultCount, Counts;
    assert s.workers[w] in s.workers;
    match s.workers[w] {
      case Looked(i, present) =>
        FinishDelivered(rows, s, w, i, Failed);
        if present { FinishDelivered(rows, s, w, i, AlreadyPresent); }
        MoveDelivered(rows, s, w, Adding(i));
      case Added(i) => FinishDelivered(rows, s, w, i, Enqueued);
      case _ =>
    }
  }

  lemma StepDelivered(rows: seq<Job>, s: State, a: Action)
    requires Tracks(rows, s) && Delivered(rows, s)
    ensures Delivered(rows, Step(rows, s, a))
  {
    hide Tracks, Delivered, Finish, ClaimNext, AnswerWorker, Add;
    var r := Step(rows, s, a);
    match a {
      case LateAdd(_) => QueueGrows(rows, s, r.queue, r.late);
      case OtherAdd(_) => QueueGrows(rows, s, r.queue, r.late);
      case Claim(w, expired) => if w < |s.workers| { ClaimDelivered(rows, s, w, expired); }
      case Lookup(w) => if r != s { MoveDelivered(rows, s, w, r.workers[w]); }
      case Answer(w) => if w < |s.workers| { AnswerDelivered(rows, s, w); }
      case Land(w) =>
        if r != s {
          QueueGrows(rows, s, r.queue, s.late);
          MoveDelivered(rows, s.(queue := r.queue, late := s.late), w, r.workers[w]);
        }
      case Refuse(w) => if r != s { FinishDelivered(rows, s, w, s.workers[w].index, Failed); }
      case TimeOut(w) =>
        if w < |s.workers| && s.workers[w].Adding? && s.workers[w].index < |rows| {
          var late := s.late + [rows[s.workers[w].index].id];
          QueueGrows(rows, s, s.queue, late);
          FinishDelivered(rows, s.(queue := s.queue, late := late), w, s.workers[w].index, Failed);
          assert s.(queue := s.queue, late := late) == s.(late := late);
        }
    }
  }

  lemma StepQueue(rows: seq<Job>, s: State, a: Action)
    ensures s.queue <= Step(rows, s, a).queue
    ensures Distinct(s.queue) ==> Distinct(Step(rows, s, a).queue)
  {
    hide Add;
  }

  // ---- what every interleaving guarantees ------------------------------------------------------

  lemma {:induction false} NoneBusy(n: nat)
    ensures BusyCount(seq(n, _ => Ready)) == 0
  {
    if n > 0 {
      NoneBusy(n - 1);
      assert seq(n, _ => Ready)[..n - 1] == seq(n - 1, _ => Ready);
    }
  }

  lemma {:induction false} RunInvariant(rows: seq<Job>, queue: seq<string>, schedule: seq<Action>)
    ensures var s := Run(rows, Initial(rows, queue), schedule);
      && Tracks(rows, s) && Delivered(rows, s) && queue <= s.queue && (Distinct(queue) ==> Distinct(s.queue))
  {
    hide Step, Distinct, Claims, Exclusive, BusyCount;
    if schedule == [] {
      var s := Initial(rows, queue);
      NoneBusy(|s.workers|);
      assert Claims(rows, s) && Exclusive(s) by { InitialTracks(rows, queue); }
    } else {
      var n := |schedule| - 1;
      RunInvariant(rows, queue, schedule[..n]);
      var s := Run(rows, Initial(rows, queue), schedule[..n]);
      StepTracks(rows, s, schedule[n]);
      StepDelivered(rows, s, schedule[n]);
      StepQueue(rows, s, schedule[n]);
    }
  }

  lemma InitialTracks(rows: seq<Job>, queue: seq<string>)
    ensures Claims(rows, Initial(rows, queue)) && Exclusive(Initial(rows, queue))
  {
  }

  /** Each row is claimed at most once, in order. */
  lemma ClaimedAtMostOnce(rows: seq<Job>, queue: seq<string>, schedule: seq<Action>)
    ensures var s := Run(rows, Initial(rows, queue), schedule);
      && Distinct(s.claims) && |s.claims| == s.scanned <= |rows| && forall i :: i in s.claims <==> 0 <= i < s.scanned
  {
    hide Run, Delivered, Exclusive, Counts;
    RunInvariant(rows, queue, schedule);
    var s := Run(rows, Initial(rows, queue), schedule);
    forall i | 0 <= i < s.scanned ensures i in s.claims { assert s.claims[i] == i; }
  }

  lemma {:induction false} ResultsAddUp(completed: seq<Done>)
    ensures ResultCount(completed, Enqueued) + ResultCount(completed, AlreadyPresent) + ResultCount(completed, Failed) == |completed|
  {
    if completed != [] { ResultsAddUp(completed[..|completed| - 1]); }
  }

  lemma {:induction false} IdleCount(workers: seq<Worker>)
    requires forall w :: w in workers ==> !Busy(w)
    ensures BusyCount(workers) == 0
  {
    if workers != [] { IdleCount(workers[..|workers| - 1]); }
  }

  ghost predicate Ended(s: State) { forall w :: w in s.workers ==> w.Finished? }

  /** When the scan returns, every claimed row has exactly one outcome, the three counts add up to the
      scanned rows, and every row reported as enqueued or present is in the queue. At every earlier point
      the difference is the rows still being worked on. */
  lemma ScannedAddsUp(rows: seq<Job>, queue: seq<string>, schedule: seq<Action>)
    requires forall row :: row in rows ==> row.queued
    ensures var s := Run(rows, Initial(rows, queue), schedule);
      && s.scanned == s.enqueued + s.alreadyPresent + s.failed + BusyCount(s.workers)
      && (Ended(s) ==> s.scanned == s.enqueued + s.alreadyPresent + s.failed == |s.completed|)
      && (forall j, k :: 0 <= j < k < |s.completed| ==> s.completed[j].index != s.completed[k].index)
      && (forall d :: d in s.completed ==>
            d.index < |rows| && d.index < s.scanned && (d.result != Failed ==> rows[d.index].id in s.queue))
  {
    hide Run, BusyCount, ResultCount;
    RunInvariant(rows, queue, schedule);
    var s := Run(rows, Initial(rows, queue), schedule);
    ResultsAddUp(s.completed);
    if Ended(s) { IdleCount(s.workers); }
  }

  // ---- outcomes --------------------------------------------------------------------------------

  /** What a row must be like to end this way: added only if it is queued, supported and has parameters;
      reported as present unless it is queued and unsupported; failed only if it is queued. */
  predicate Deserves(row: Job, result: RowResult) {
    match result
    case Enqueued => row.queued && row.supported && row.parametersOk
    case AlreadyPresent => row.queued ==> row.supported
    case Failed => row.queued
  }

  predicate Proceeds(row: Job, w: Worker) {
    row.queued && row.supported && (w.Adding? || w.Added? ==> row.parametersOk)
  }

  ghost predicate Justified(rows: seq<Job>, s: State) {
    && (forall d :: d in s.completed ==> d.index < |rows| && Deserves(rows[d.index], d.result))
    && (forall w :: 0 <= w < |s.workers| && Busy(s.workers[w]) ==>
          s.workers[w].index < |rows| && Proceeds(rows[s.workers[w].index], s.workers[w]))
  }

  lemma FinishJustified(rows: seq<Job>, s: State, w: nat, index: nat, result: RowResult)
    requires w < |s.workers| && index < |rows| && Deserves(rows[index], result)
    requires forall d :: d in s.completed ==> d.index < |rows| && Deserves(rows[d.index], d.result)
    requires forall v :: 0 <= v < |s.workers| && v != w && Busy(s.workers[v]) ==>
               s.workers[v].index < |rows| && Proceeds(rows[s.workers[v].index], s.workers[v])
    ensures Justified(rows, Finish(s, w, index, result))
  {
    hide Deserves, Proceeds;
  }

  lemma MoveJustified(rows: seq<Job>, s: State, w: nat, x: Worker)
    requires Justified(rows, s) && w < |s.workers| && (Busy(x) ==> x.index < |rows| && Proceeds(rows[x.index], x))
    ensures Justified(rows, s.(workers := s.workers[w := x]))
  {
    hide Deserves, Proceeds;
  }

  lemma ClaimJustified(rows: seq<Job>, s: State, w: nat, expired: bool)
    requires Justified(rows, s) && w < |s.workers| && s.workers[w].Ready?
    ensures Justified(rows, ClaimNext(rows, s, w, expired))
  {
    hide Finish, Justified;
    MoveJustified(rows, s, w, Worker.Finished);
    QueueJustified(rows, s.(workers := s.workers[w := Worker.Finished]), ClaimNext(rows, s, w, expired));
    if !expired && s.cursor < |rows| { TakeJustified(rows, s, w); }
  }

  lemma TakeJustified(rows: seq<Job>, s: State, w: nat)
    requires Justified(rows, s) && w < |s.workers| && s.workers[w].Ready? && s.cursor < |rows|
    ensures Justified(rows, ClaimNext(rows, s, w, false))
  {
  }

  lemma AnswerJustified(rows: seq<Job>, s: State, w: nat)
    requires Justified(rows, s) && w < |s.workers|
    ensures Justified(rows, AnswerWorker(rows, s, w))
  {
    hide Finish, Justified;
    JustifiedAt(rows, s, w);
    match s.workers[w] {
      case Looked(i, present) =>
        if present { FinishFrom(rows, s, w, i, AlreadyPresent); }
        else if rows[i].parametersOk { MoveJustified(rows, s, w, Adding(i)); }
        else { FinishFrom(rows, s, w, i, Failed); }
      case Added(i) => FinishFrom(rows, s, w, i, Enqueued);
      case _ =>
    }
  }

  lemma JustifiedAt(rows: seq<Job>, s: State, w: nat)
    requires Justified(rows, s) && w < |s.workers|
    ensures Busy(s.workers[w]) ==> s.workers[w].index < |rows| && Proceeds(rows[s.workers[w].index], s.workers[w])
  {
  }

  lemma FinishFrom(rows: seq<Job>, s: State, w: nat, index: nat, result: RowResult)
    requires Justified(rows, s) && w < |s.workers| && index < |rows| && Deserves(rows[index], result)
    ensures Justified(rows, Finish(s, w, index, result))
  {
    hide Finish, Deserves, Proceeds;
    FinishJustified(rows, s, w, index, result);
  }

  lemma QueueJustified(rows: seq<Job>, s: State, r: State)
    requires Justified(rows, s)
    ensures r.completed == s.completed && r.workers == s.workers ==> Justified(rows, r)
  {
  }

  lemma StepJustified(rows: seq<Job>, s: State, a: Action)
    requires Justified(rows, s)
    ensures Justified(rows, Step(rows, s, a))
  {
    hide Justified, Finish, ClaimNext, AnswerWorker, Add;
    var r := Step(rows, s, a);
    QueueJustified(rows, s, r);
    match a {
      case Claim(w, expired) =>
        if w < |s.workers| && s.workers[w].Ready? { ClaimJustified(rows, s, w, expired); }
      case Lookup(w) =>
        if w < |s.workers| { JustifiedAt(rows, s, w); MoveTo(rows, s, w, r); }
      case Answer(w) =>
        if w < |s.workers| { AnswerJustified(rows, s, w); }
      case Land(w) =>
        if w < |s.workers| { JustifiedAt(rows, s, w); MoveTo(rows, s, w, r); }
      case Refuse(w) =>
        if w < |s.workers| { JustifiedAt(rows, s, w); RefusedJustified(rows, s, s, w); }
      case TimeOut(w) =>
        if w < |s.workers| && s.workers[w].Adding? && s.workers[w].index < |rows| {
          JustifiedAt(rows, s, w);
          RefusedJustified(rows, s, s.(late := s.late + [rows[s.workers[w].index].id]), w);
        }
      case LateAdd(_) =>
      case OtherAdd(_) =>
    }
  }

  lemma MoveTo(rows: seq<Job>, s: State, w: nat, r: State)
    requires Justified(rows, s) && w < |s.workers|
    ensures && r.completed == s.completed && |r.workers| == |s.workers| && r.workers == s.workers[w := r.workers[w]]
            && (Busy(r.workers[w]) ==> r.workers[w].index < |rows| && Proceeds(rows[r.workers[w].index], r.workers[w]))
            ==> Justified(rows, r)
  {
    hide Justified, Proceeds;
    if && r.completed == s.completed && |r.workers| == |s.workers| && r.workers == s.workers[w := r.workers[w]]
       && (Busy(r.workers[w]) ==> r.workers[w].index < |rows| && Proceeds(rows[r.workers[w].index], r.workers[w]))
    {
      MoveJustified(rows, s, w, r.workers[w]);
      QueueJustified(rows, s.(workers := s.workers[w := r.workers[w]]), r);
    }
  }

  /** `t` is `s`, perhaps with an add on its way. */
  lemma RefusedJustified(rows: seq<Job>, s: State, t: State, w: nat)
    requires Justified(rows, s) && w < |s.workers| && t.workers == s.workers && t.completed == s.completed
    ensures Busy(s.workers[w]) ==> Justified(rows, Finish(t, w, s.workers[w].index, Failed))
  {
    hide Justified, Finish;
    QueueJustified(rows, s, t);
    JustifiedAt(rows, s, w);
    if Busy(s.workers[w]) { FinishFrom(rows, t, w, s.workers[w].index, Failed); }
  }

  /** In every run, every row ends as it deserves, and at most ten rows are worked on at a time. */
  lemma {:induction false} OutcomesDeserved(rows: seq<Job>, queue: seq<string>, schedule: seq<Action>)
    ensures var s := Run(rows, Initial(rows, queue), schedule);
      && (forall d :: d in s.completed ==> d.index < |rows| && Deserves(rows[d.index], d.result))
      && |s.workers| <= 10 && BusyCount(s.workers) <= 10
  {
    hide Step, BusyCount;
    var s := Run(rows, Initial(rows, queue), schedule);
    RunJustified(rows, queue, schedule);
    BusyBound(s.workers);
  }

  lemma {:induction false} RunJustified(rows: seq<Job>, queue: seq<string>, schedule: seq<Action>)
    ensures Justified(rows, Run(rows, Initial(rows, queue), schedule))
  {
    hide Step;
    if schedule != [] {
      var n := |schedule| - 1;
      RunJustified(rows, queue, schedule[..n]);
      StepJustified(rows, Run(rows, Initial(rows, queue), schedule[..n]), schedule[n]);
    }
  }

  lemma {:induction false} BusyBound(workers: seq<Worker>)
    ensures BusyCount(workers) <= |workers|
  {
    if workers != [] { BusyBound(workers[..|workers| - 1]); }
  }

  ghost predicate ClaimedId(rows: seq<Job>, s: State, id: string) {
    exists i :: 0 <= i < |rows| && i < s.scanned && rows[i].id == id
  }

  ghost predicate AddedElsewhere(schedule: seq<Action>, id: string) { exists i :: 0 <= i < |schedule| && schedule[i] == OtherAdd(id) }

  /** Where an entry of the queue comes from: the start, another process, or a claimed row. */
  ghost predicate HasOrigin(rows: seq<Job>, queue: seq<string>, schedule: seq<Action>, s: State, id: string) {
    id in queue || AddedElsewhere(schedule, id) || ClaimedId(rows, s, id)
  }

  /** What one step adds to the queue or to the adds on their way. */
  lemma StepOrigin(rows: seq<Job>, s: State, a: Action, id: string)
    requires Tracks(rows, s)
    ensures var r := Step(rows, s, a);
      && s.scanned <= r.scanned
      && (id in r.queue ==> id in s.queue || id in s.late || a == OtherAdd(id) || ClaimedId(rows, s, id))
      && (id in r.late ==> id in s.late || ClaimedId(rows, s, id))
  {
    hide Claims, Counts, ResultCount, BusyCount;
    var r := Step(rows, s, a);
    match a {
      case Land(w) =>
        if w < |s.workers| && s.workers[w].Adding? && s.workers[w].index < |rows| && id == rows[s.workers[w].index].id {
          assert ClaimedId(rows, s, id);
        }
      case TimeOut(w) =>
        if w < |s.workers| && s.workers[w].Adding? && s.workers[w].index < |rows| && id == rows[s.workers[w].index].id {
          assert ClaimedId(rows, s, id);
        }
      case _ =>
    }
  }

  lemma ClaimedStays(rows: seq<Job>, s: State, r: State, id: string)
    requires s.scanned <= r.scanned && ClaimedId(rows, s, id)
    ensures ClaimedId(rows, r, id)
  {
  }

  lemma {:induction false} QueueOrigin(rows: seq<Job>, queue: seq<string>, schedule: seq<Action>, id: string)
    ensures var s := Run(rows, Initial(rows, queue), schedule);
      && (id in s.queue ==> HasOrigin(rows, queue, schedule, s, id))
      && (id in s.late ==> ClaimedId(rows, s, id))
  {
    hide Step, ClaimedId, Tracks, Delivered, AddedElsewhere;
    if schedule != [] {
      var n := |schedule| - 1;
      var s := Run(rows, Initial(rows, queue), schedule[..n]);
      var r := Step(rows, s, schedule[n]);
      QueueOrigin(rows, queue, schedule[..n], id);
      RunInvariant(rows, queue, schedule[..n]);
      StepOrigin(rows, s, schedule[n], id);
      if ClaimedId(rows, s, id) { ClaimedStays(rows, s, r, id); }
      LongerSchedule(schedule, id);
    }
  }

  lemma LongerSchedule(schedule: seq<Action>, id: string)
    requires schedule != []
    ensures AddedElsewhere(schedule[..|schedule| - 1], id) || schedule[|schedule| - 1] == OtherAdd(id) ==> AddedElsewhere(schedule, id)
  {
    var n := |schedule| - 1;
    if AddedElsewhere(schedule[..n], id) {
      var i :| 0 <= i < n && schedule[..n][i] == OtherAdd(id);
      assert schedule[i] == OtherAdd(id);
    }
  }

  /** However adds of this process, late adds and other processes interleave, the queue never holds two
      entries for one identifier, never loses one, and holds only what was there, what another process
      added, and rows of this scan. */
  lemma OneEntryPerJob(rows: seq<Job>, queue: seq<string>, schedule: seq<Action>)
    requires Distinct(queue)
    ensures var s := Run(rows, Initial(rows, queue), schedule);
      Distinct(s.queue) && queue <= s.queue && forall id :: id in s.queue ==> HasOrigin(rows, queue, schedule, s, id)
  {
    hide Run, HasOrigin;
    RunInvariant(rows, queue, schedule);
    forall id | id in Run(rows, Initial(rows, queue), schedule).queue
      ensures HasOrigin(rows, queue, schedule, Run(rows, Initial(rows, queue), schedule), id)
    {
      QueueOrigin(rows, queue, schedule, id);
    }
  }

  /** A given-up add that lands changes nothing but the queue, where it can only make a later lookup of its
      own identifier say present. */
  lemma LateAddOnlyShows(rows: seq<Job>, s: State, p: nat, w: nat)
    requires p < |s.late|
    ensures var r := Step(rows, s, LateAdd(p));
      && r == s.(queue := r.queue, late := r.late) && |r.late| == |s.late| - 1
      && (w < |s.workers| && s.workers[w].Looking? && s.workers[w].index < |rows| ==>
            var found := rows[s.workers[w].index].id in s.queue;
            && Step(rows, s, Lookup(w)).workers[w] == Looked(s.workers[w].index, found)
            && Step(rows, r, Lookup(w)).workers[w] == Looked(s.workers[w].index, found || rows[s.workers[w].index].id == s.late[p]))
  {
  }

  lemma StepKeepsAdd(rows: seq<Job>, s: State, a: Action, id: string)
    requires id in s.queue || id in s.late
    ensures id in Step(rows, s, a).queue || id in Step(rows, s, a).late
  {
    hide Finish, ClaimNext;
    match a {
      case LateAdd(p) =>
        if p < |s.late| { assert s.late == s.late[..p] + [s.late[p]] + s.late[p + 1..]; }
      case Claim(w, expired) => if w < |s.workers| { ClaimKeepsQueue(rows, s, w, expired); }
      case Answer(w) => if w < |s.workers| { AnswerKeepsQueue(rows, s, w); }
      case Refuse(w) => if w < |s.workers| && Busy(s.workers[w]) { FinishKeepsQueue(s, w, s.workers[w].index, Failed); }
      case TimeOut(w) =>
        if w < |s.workers| && s.workers[w].Adding? && s.workers[w].index < |rows| {
          var i := s.workers[w].index;
          FinishKeepsQueue(s.(late := s.late + [rows[i].id]), w, i, Failed);
        }
      case _ =>
    }
  }

  lemma FinishKeepsQueue(s: State, w: nat, index: nat, result: RowResult)
    requires w < |s.workers|
    ensures Finish(s, w, index, result).queue == s.queue && Finish(s, w, index, result).late == s.late
  {
  }

  lemma ClaimKeepsQueue(rows: seq<Job>, s: State, w: nat, expired: bool)
    requires w < |s.workers|
    ensures ClaimNext(rows, s, w, expired).queue == s.queue && ClaimNext(rows, s, w, expired).late == s.late
  {
  }

  lemma AnswerKeepsQueue(rows: seq<Job>, s: State, w: nat)
    requires w < |s.workers|
    ensures AnswerWorker(rows, s, w).queue == s.queue && AnswerWorker(rows, s, w).late == s.late
  {
  }

  lemma {:induction false} AddNeverLost(rows: seq<Job>, s: State, schedule: seq<Action>, id: string)
    requires id in s.queue || id in s.late
    ensures var r := Run(rows, s, schedule); id in r.queue || id in r.late
  {
    hide Step;
    if schedule != [] {
      var n := |schedule| - 1;
      AddNeverLost(rows, s, schedule[..n], id);
      StepKeepsAdd(rows, Run(rows, s, schedule[..n]), schedule[n], id);
    }
  }

  /** An add that its caller gives up on is never lost: whatever happens afterwards, its job is in the queue or
      the add is still on its way; until it lands, only the caller's counters know of the timeout. */
  lemma TimedOutAddSurvives(rows: seq<Job>, s: State, w: nat, after: seq<Action>)
    requires w < |s.workers| && s.workers[w].Adding? && s.workers[w].index < |rows|
    ensures var id := rows[s.workers[w].index].id;
      var r := Run(rows, Step(rows, s, TimeOut(w)), after);
      id in r.queue || id in r.late
  {
    hide Run;
    var id := rows[s.workers[w].index].id;
    assert id in Step(rows, s, TimeOut(w)).late;
    AddNeverLost(rows, Step(rows, s, TimeOut(w)), after, id);
  }

  ghost predicate NeverExpires(schedule: seq<Action>) {
    forall a :: a in schedule && a.Claim? ==> !a.expired
  }

  ghost predicate SomeFinished(s: State) { exists w :: w in s.workers && w.Finished? }

  lemma StepStops(rows: seq<Job>, s: State, a: Action)
    requires SomeFinished(s) ==> s.cursor > |rows|
    requires a.Claim? ==> !a.expired
    ensures var r := Step(rows, s, a); SomeFinished(r) ==> r.cursor > |rows|
  {
    var r := Step(rows, s, a);
    assert r.cursor >= s.cursor;
    if s.cursor <= |rows| && r.cursor <= |rows| {
      forall w | 0 <= w < |r.workers| ensures !r.workers[w].Finished? {
        assert s.workers[w] in s.workers;
      }
    }
  }

  lemma {:induction false} StopsOnlyAtEnd(rows: seq<Job>, queue: seq<string>, schedule: seq<Action>)
    requires NeverExpires(schedule)
    ensures var s := Run(rows, Initial(rows, queue), schedule);
      SomeFinished(s) ==> s.cursor > |rows|
  {
    hide Step;
    if schedule != [] {
      var n := |schedule| - 1;
      assert schedule[n] in schedule;
      StopsOnlyAtEnd(rows, queue, schedule[..n]);
      StepStops(rows, Run(rows, Initial(rows, queue), schedule[..n]), schedule[n]);
    }
  }

  lemma FirstFinished(s: State)
    requires |s.workers| > 0 && Ended(s)
    ensures SomeFinished(s)
  {
    assert s.workers[0] in s.workers;
  }

  /** A scan that ends without reaching its deadline has claimed every row. */
  lemma {:induction false} ClaimsEveryRow(rows: seq<Job>, queue: seq<string>, schedule: seq<Action>)
    requires NeverExpires(schedule) && Ended(Run(rows, Initial(rows, queue), schedule))
    ensures Run(rows, Initial(rows, queue), schedule).scanned == |rows|
  {
    hide Run, Delivered, Exclusive, Counts, SomeFinished, Ended, NeverExpires, Distinct;
    RunInvariant(rows, queue, schedule);
    StopsOnlyAtEnd(rows, queue, schedule);
    if rows != [] { FirstFinished(Run(rows, Initial(rows, queue), schedule)); }
  }

  // ---- overlapping scans -----------------------------------------------------------------------

  /** The service field that makes overlapping requests share one scan. Scans are numbered as they
      start. */
  class Coalescer {
    var recovery: Option<nat>
    var started: nat
    ghost var running: set<nat>

    ghost predicate Valid()
      reads this
    {
      && running == (if recovery.Some? then {recovery.value} else {})
      && forall r :: r in running ==> r < started
    }

    constructor ()
      ensures Valid() && running == {}
    {
      recovery, started, running := None, 0, {};
    }

    /** Join the running scan, or start one when none runs. */
    method RecoverPending() returns (scan: nat)
      requires Valid()
      modifies this
      ensures Valid() && running == {scan}
      ensures old(running) != {} ==> old(running) == {scan} && started == old(started)
      ensures old(running) == {} ==> scan == old(started) && started == old(started) + 1
    {
      if recovery.Some? { return recovery.value; }
      scan := started;
      started := started + 1;
      running := running + {scan};
      recovery := Some(scan);
    }

    method Settle(scan: nat)
      requires Valid() && scan in running
      modifies this
      ensures Valid() && running == {} && started == old(started)
    {
      running := running - {scan};
      if recovery == Some(scan) { recovery := None; }
    }
  }
}

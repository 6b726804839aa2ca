/** The control-plane scheduler: each tick adds jobs named after the minute, hour or day it falls in, and
    the queue drops a job whose name it already holds. */
module Scheduler {
  import opened Ordering
  import opened Civil
  import opened JobQueue

  datatype Kind = ConnectorCheck | UnpricedAlert | KeyExpiry

  /** A job name: what it does and the start of its minute, hour or UTC day. */
  datatype JobId = JobId(kind: Kind, period: int)

  function StartOf(t: int, unit: int): int
    requires unit > 0
  {
    t - t % unit
  }

  predicate FirstTwoMinutes(t: int) { (t % HOUR) / MINUTE < 2 }

  function TickIds(now: int): seq<JobId> {
    [JobId(ConnectorCheck, StartOf(now, MINUTE))]
    + (if FirstTwoMinutes(now) then [JobId(UnpricedAlert, StartOf(now, HOUR))] else [])
    + (if (now % DAY) / HOUR == 0 && FirstTwoMinutes(now) then [JobId(KeyExpiry, StartOf(now, DAY))] else [])
  }

  class ControlPlane {
    var queue: seq<JobId>

    constructor ()
      ensures queue == []
    {
      queue := [];
    }

    method Enqueue(id: JobId, identifiers: seq<JobId>) returns (r: seq<JobId>)
      modifies this
      ensures queue == Add(old(queue), id) && r == identifiers + [id]
    {
      queue := Add(queue, id);
      r := identifiers + [id];
    }

    method Tick(now: int) returns (identifiers: seq<JobId>)
      modifies this
      ensures identifiers == TickIds(now) && queue == AddAll(old(queue), TickIds(now))
    {
      hide Add, FirstTwoMinutes;
      identifiers := Enqueue(JobId(ConnectorCheck, StartOf(now, MINUTE)), []);
      AddOne(old(queue), [], identifiers[0]);
      if FirstTwoMinutes(now) {
        AddOne(old(queue), identifiers, JobId(UnpricedAlert, StartOf(now, HOUR)));
        identifiers := Enqueue(JobId(UnpricedAlert, StartOf(now, HOUR)), identifiers);
      }
      if (now % DAY) / HOUR == 0 && FirstTwoMinutes(now) {
        AddOne(old(queue), identifiers, JobId(KeyExpiry, StartOf(now, DAY)));
        identifiers := Enqueue(JobId(KeyExpiry, StartOf(now, DAY)), identifiers);
      }
      assert identifiers == TickIds(now);
    }
  }

  lemma AddOne(queue: seq<JobId>, ids: seq<JobId>, id: JobId)
    ensures AddAll(queue, ids + [id]) == Add(AddAll(queue, ids), id)
  {
    assert (ids + [id])[..|ids|] == ids;
  }

  /** A job is due in the minute it is named after, or in the first two minutes of its hour or UTC day. */
  predicate Due(id: JobId, now: int) {
    match id.kind
    case ConnectorCheck => id.period % MINUTE == 0 && id.period <= now < id.period + MINUTE
    case UnpricedAlert => id.period % HOUR == 0 && id.period <= now < id.period + 2 * MINUTE
    case KeyExpiry => id.period % DAY == 0 && id.period <= now < id.period + 2 * MINUTE
  }

  lemma StartExact(t: int, unit: int, start: int)
    requires unit > 0
    ensures StartOf(t, unit) == start <==> start % unit == 0 && start <= t < start + unit
  {
    var q, r := t / unit, t % unit;
    assert t == unit * q + r;
    WholeMultiple(unit, q);
    if start % unit == 0 && start <= t < start + unit {
      var p := start / unit;
      assert start == unit * p;
      SameMultiple(unit, p, q, t - start, r);
    }
  }

  lemma WholeMultiple(unit: int, q: int)
    requires unit > 0
    ensures (unit * q) % unit == 0
  {
    var m := unit * q;
    assert m == unit * (m / unit) + m % unit;
    SameMultiple(unit, q, m / unit, 0, m % unit);
  }

  lemma SameMultiple(unit: int, p: int, q: int, a: int, b: int)
    requires unit > 0 && 0 <= a < unit && 0 <= b < unit && unit * p + a == unit * q + b
    ensures p == q && a == b
  {
    var d := p - q;
    assert unit * d == b - a;
    assert d >= 1 ==> unit * d >= unit;
    assert d <= -1 ==> unit * d <= -unit;
  }

  lemma TwoMinutes(t: int)
    ensures FirstTwoMinutes(t) <==> t < StartOf(t, HOUR) + 2 * MINUTE
    ensures (t % DAY) / HOUR == 0 && FirstTwoMinutes(t) <==> t < StartOf(t, DAY) + 2 * MINUTE
  {
    var q, r := t / DAY, t % DAY;
    var h, m := r / HOUR, r % HOUR;
    assert t == HOUR * (24 * q + h) + m;
    HourRest(24 * q + h, m);
  }

  lemma HourRest(k: int, m: int)
    requires 0 <= m < HOUR
    ensures (HOUR * k + m) % HOUR == m
  {
  }

  /** A tick names exactly the jobs that are due. */
  lemma TickExact(now: int, id: JobId)
    ensures id in TickIds(now) <==> Due(id, now)
  {
    hide StartOf, FirstTwoMinutes;
    StartExact(now, MINUTE, id.period);
    StartExact(now, HOUR, id.period);
    StartExact(now, DAY, id.period);
    TwoMinutes(now);
  }

  /** The queue holds exactly the jobs that were due at some tick. */
  lemma QueueByTime(ticks: seq<int>, id: JobId)
    ensures id in Run([], ticks) <==> exists i :: 0 <= i < |ticks| && Due(id, ticks[i])
  {
    hide Run, TickIds, Due;
    QueueExact(ticks);
    forall i | 0 <= i < |ticks| ensures id in TickIds(ticks[i]) <==> Due(id, ticks[i]) { TickExact(ticks[i], id); }
  }

  function Run(queue: seq<JobId>, ticks: seq<int>): seq<JobId> {
    if ticks == [] then queue else AddAll(Run(queue, ticks[..|ticks| - 1]), TickIds(ticks[|ticks| - 1]))
  }

  ghost predicate Named(ticks: seq<int>, id: JobId) {
    exists i :: 0 <= i < |ticks| && id in TickIds(ticks[i])
  }

  /** The queue holds each name at most once, and exactly the names that some tick gave. */
  lemma {:induction false} QueueExact(ticks: seq<int>)
    ensures Distinct(Run([], ticks))
    ensures forall id :: id in Run([], ticks) <==> Named(ticks, id)
  {
    hide TickIds;
    if ticks != [] {
      var n := |ticks| - 1;
      QueueExact(ticks[..n]);
      forall id ensures Named(ticks, id) <==> Named(ticks[..n], id) || id in TickIds(ticks[n]) {
        if Named(ticks[..n], id) {
          var i :| 0 <= i < n && id in TickIds(ticks[..n][i]);
          assert id in TickIds(ticks[i]);
        }
        if Named(ticks, id) && id !in TickIds(ticks[n]) {
          var i :| 0 <= i < |ticks| && id in TickIds(ticks[i]);
          assert id in TickIds(ticks[..n][i]);
        }
      }
    }
  }

  /** Ticks at most two minutes apart. */
  ghost predicate Steady(ticks: seq<int>) {
    forall i :: 0 < i < |ticks| ==> ticks[i - 1] < ticks[i] <= ticks[i - 1] + 2 * MINUTE
  }

  /** Between the first and the last tick, every instant is followed by a tick within two minutes. */
  lemma {:induction false} TickSoonAfter(ticks: seq<int>, t: int) returns (i: nat)
    requires Steady(ticks) && ticks != [] && ticks[0] <= t <= ticks[|ticks| - 1]
    ensures i < |ticks| && t <= ticks[i] < t + 2 * MINUTE
  {
    i := 0;
    while ticks[i] < t
      invariant i < |ticks| && (i > 0 ==> ticks[i - 1] < t) && (i == 0 ==> ticks[i] <= t)
      decreases |ticks| - i
    {
      i := i + 1;
    }
  }

  lemma WithinHour(t: int, start: int)
    requires start % HOUR == 0 && start <= t < start + HOUR
    ensures t % HOUR == t - start && StartOf(t, HOUR) == start
  {
  }

  lemma WithinDay(t: int, start: int)
    requires start % DAY == 0 && start <= t < start + DAY
    ensures t % DAY == t - start && StartOf(t, DAY) == start
  {
  }

  /** Each hour that starts between the first and the last tick has exactly one alert job, and each UTC
      day exactly one expiry job. */
  lemma OncePerPeriod(ticks: seq<int>, start: int)
    requires Steady(ticks) && ticks != [] && ticks[0] <= start <= ticks[|ticks| - 1]
    ensures var queue := Run([], ticks);
      && Distinct(queue)
      && (start % HOUR == 0 ==> JobId(UnpricedAlert, start) in queue)
      && (start % DAY == 0 ==> JobId(KeyExpiry, start) in queue)
  {
    hide Run;
    QueueExact(ticks);
    var i := TickSoonAfter(ticks, start);
    var t := ticks[i];
    if start % DAY == 0 {
      DayStartsHour(start);
      WithinDay(t, start);
    }
    if start % HOUR == 0 {
      WithinHour(t, start);
      assert FirstTwoMinutes(t);
      assert JobId(UnpricedAlert, start) in TickIds(t);
      assert start % DAY == 0 ==> JobId(KeyExpiry, start) in TickIds(t);
    }
  }

  lemma DayStartsHour(t: int)
    requires t % DAY == 0
    ensures t % HOUR == 0
  {
    var q := t / DAY;
    assert t == (q * 24) * HOUR;
  }
}

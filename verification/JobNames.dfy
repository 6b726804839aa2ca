/** The text the scheduler's queue compares: the job name with colons replaced by dashes. It identifies the
    kind of job and its period. */
module JobNames {
  import opened Ordering
  import opened Numerals
  import opened Civil
  import opened JobQueue
  import opened Scheduler
  import LocalDateTime

  /** `name.replaceAll(":", "-")` */
  function Dashed(s: string): (r: string)
    ensures |r| == |s| && forall i :: 0 <= i < |s| ==> r[i] == if s[i] == ':' then '-' else s[i]
  {
    seq(|s|, i requires 0 <= i < |s| => if s[i] == ':' then '-' else s[i])
  }

  function KindText(k: Kind): string {
    match k case ConnectorCheck => "connector" case UnpricedAlert => "unpriced" case KeyExpiry => "api-key"
  }

  /** A job name that a tick in the years 0 to 9999 gives: its period starts on a whole minute. */
  predicate Printable(id: JobId) { id.period % MINUTE == 0 && 0 <= PartsOf(id.period).date.year <= 9999 }

  /** The minute of the period, or the whole instant. */
  function PeriodText(id: JobId): string
    requires Printable(id)
  {
    if id.kind == ConnectorCheck then LocalDateTime.Render(PartsOf(id.period), false)
    else LocalDateTime.Render(PartsOf(id.period), true) + ".000Z"
  }

  function Prefix(k: Kind): string { "maintenance:" + KindText(k) + ":" }

  /** The identifier the queue compares. */
  function JobText(id: JobId): string
    requires Printable(id)
  {
    Dashed(Prefix(id.kind) + PeriodText(id))
  }

  /** The first letter of the kind is in the text. */
  lemma KindLetter(k: Kind, rest: string)
    ensures var s := Dashed(Prefix(k) + rest);
      |s| > 12 && s[12] == match k case ConnectorCheck => 'c' case UnpricedAlert => 'u' case KeyExpiry => 'a'
  {
    assert (Prefix(k) + rest)[12] == Prefix(k)[12] == KindText(k)[0];
  }

  lemma SameTail(head: string, a: string, b: string)
    requires Dashed(head + a) == Dashed(head + b)
    ensures Dashed(a) == Dashed(b)
  {
    assert |head + a| == |head + b|;
    forall i | 0 <= i < |a| ensures Dashed(a)[i] == Dashed(b)[i] {
      assert Dashed(head + a)[|head| + i] == Dashed(head + b)[|head| + i];
    }
  }

  lemma ColonPlaces(s: string, i: nat)
    requires LocalDateTime.Shaped(s) && i < |s|
    ensures s[i] == ':' <==> i == 13 || i == 16
  {
    assert forall t: string, j :: IsDigits(t) && 0 <= j < |t| ==> t[j] != ':';
    if i < 4 { assert s[0..4][i] == s[i]; }
    else if 5 <= i < 7 { assert s[5..7][i - 5] == s[i]; }
    else if 8 <= i < 10 { assert s[8..10][i - 8] == s[i]; }
    else if 11 <= i < 13 { assert s[11..13][i - 11] == s[i]; }
    else if 14 <= i < 16 { assert s[14..16][i - 14] == s[i]; }
    else if i >= 17 { assert s[17..19][i - 17] == s[i]; }
  }

  /** Date-times of one form have their colons in the same places, so replacing them loses nothing. */
  lemma SameDate(a: string, b: string, tail: string)
    requires LocalDateTime.Shaped(a) && LocalDateTime.Shaped(b) && Dashed(a + tail) == Dashed(b + tail)
    ensures a == b
  {
    hide LocalDateTime.Shaped;
    assert |a + tail| == |b + tail|;
    forall i | 0 <= i < |a| ensures a[i] == b[i] {
      assert Dashed(a + tail)[i] == Dashed(b + tail)[i];
      ColonPlaces(a, i);
      ColonPlaces(b, i);
    }
  }

  lemma SamePeriod(a: JobId, b: JobId)
    requires Printable(a) && Printable(b) && a.kind == b.kind && Dashed(PeriodText(a)) == Dashed(PeriodText(b))
    ensures a == b
  {
    hide PartsOf, LocalDateTime.Render, LocalDateTime.Shaped, LocalDateTime.Fields, Dashed;
    var seconds := a.kind != ConnectorCheck;
    var p, q := PartsOf(a.period), PartsOf(b.period);
    LocalDateTime.RenderShaped(p, seconds);
    LocalDateTime.RenderShaped(q, seconds);
    var x, y := LocalDateTime.Render(p, seconds), LocalDateTime.Render(q, seconds);
    assert x + "" == x && y + "" == y;
    SameDate(x, y, if seconds then ".000Z" else "");
    WholeMinuteSeconds(a.period);
    WholeMinuteSeconds(b.period);
  }

  lemma WholeMinuteSeconds(t: int)
    requires t % MINUTE == 0
    ensures PartsOf(t).second == 0 && UtcValue(PartsOf(t)) == t
  {
    LocalDateTime.WholeMinute(t);
  }

  /** Two names have the same text only if they are the same. */
  lemma JobTextInjective(a: JobId, b: JobId)
    requires Printable(a) && Printable(b) && JobText(a) == JobText(b)
    ensures a == b
  {
    hide Printable, PeriodText, Prefix, Dashed;
    KindLetter(a.kind, PeriodText(a));
    KindLetter(b.kind, PeriodText(b));
    SameTail(Prefix(a.kind), PeriodText(a), PeriodText(b));
    SamePeriod(a, b);
  }

  function Texts(queue: seq<JobId>): (r: seq<string>)
    requires forall id :: id in queue ==> Printable(id)
    ensures |r| == |queue| && forall i :: 0 <= i < |r| ==> queue[i] in queue && r[i] == JobText(queue[i])
  {
    hide Printable, JobText;
    seq(|queue|, i requires 0 <= i < |queue| => assert queue[i] in queue; JobText(queue[i]))
  }

  lemma KnownByText(queue: seq<JobId>, id: JobId)
    requires Printable(id) && forall x :: x in queue ==> Printable(x)
    ensures JobText(id) in Texts(queue) <==> id in queue
  {
    hide Printable, JobText;
    if id in queue {
      var i :| 0 <= i < |queue| && queue[i] == id;
      assert Texts(queue)[i] == JobText(id);
    }
    if JobText(id) in Texts(queue) {
      var i :| 0 <= i < |queue| && Texts(queue)[i] == JobText(id);
      JobTextInjective(queue[i], id);
    }
  }

  /** Adding by text, as the queue does, is adding by name. */
  lemma AddByText(queue: seq<JobId>, id: JobId)
    requires Printable(id) && forall x :: x in queue ==> Printable(x)
    ensures Add(Texts(queue), JobText(id)) == Texts(Add(queue, id))
  {
    hide Printable, JobText;
    KnownByText(queue, id);
    if id !in queue { assert Texts(queue + [id]) == Texts(queue) + [JobText(id)]; }
  }

  lemma {:induction false} AddAllByText(queue: seq<JobId>, ids: seq<JobId>)
    requires (forall x :: x in queue ==> Printable(x)) && (forall x :: x in ids ==> Printable(x))
    ensures AddAll(Texts(queue), Texts(ids)) == Texts(AddAll(queue, ids))
    decreases |ids|
  {
    hide Printable, JobText;
    if ids != [] {
      var n := |ids| - 1;
      assert ids[n] in ids;
      AddAllByText(queue, ids[..n]);
      assert Texts(ids)[..n] == Texts(ids[..n]);
      AddByText(AddAll(queue, ids[..n]), ids[n]);
    }
  }

  ghost predicate PrintableTicks(ticks: seq<int>) {
    forall i :: 0 <= i < |ticks| ==> 0 <= PartsOf(ticks[i]).date.year <= 9999
  }

  /** The queue of texts after the ticks. */
  ghost function RunTexts(ticks: seq<int>): seq<string>
    requires PrintableTicks(ticks)
  {
    if ticks == [] then []
    else
      var n := |ticks| - 1;
      TickPrintable(ticks[n]);
      AddAll(RunTexts(ticks[..n]), Texts(TickIds(ticks[n])))
  }

  /** The queue the scheduler keeps, which compares texts, is the queue of names printed. */
  lemma {:induction false} RunByText(ticks: seq<int>)
    requires PrintableTicks(ticks)
    ensures forall x :: x in Run([], ticks) ==> Printable(x)
    ensures RunTexts(ticks) == Texts(Run([], ticks))
  {
    hide Printable, JobText, TickIds;
    if ticks != [] {
      var n := |ticks| - 1;
      RunByText(ticks[..n]);
      TickPrintable(ticks[n]);
      AddAllByText(Run([], ticks[..n]), TickIds(ticks[n]));
    }
  }

  /** In the queue of texts too, every hour and UTC day that starts between the first and the last tick has
      its job exactly once. */
  lemma OncePerPeriodByText(ticks: seq<int>, start: int)
    requires PrintableTicks(ticks) && Steady(ticks) && ticks != [] && ticks[0] <= start <= ticks[|ticks| - 1]
    ensures Distinct(RunTexts(ticks))
    ensures start % HOUR == 0 ==>
      Printable(JobId(UnpricedAlert, start)) && JobText(JobId(UnpricedAlert, start)) in RunTexts(ticks)
    ensures start % DAY == 0 ==> Printable(JobId(KeyExpiry, start)) && JobText(JobId(KeyExpiry, start)) in RunTexts(ticks)
  {
    hide Printable, JobText, Run, RunTexts, PrintableTicks;
    OncePerPeriod(ticks, start);
    RunByText(ticks);
    var queue := Run([], ticks);
    DistinctTexts(queue);
    if start % HOUR == 0 { KnownByText(queue, JobId(UnpricedAlert, start)); }
    if start % DAY == 0 { KnownByText(queue, JobId(KeyExpiry, start)); }
  }

  lemma DistinctTexts(queue: seq<JobId>)
    requires Distinct(queue) && forall x :: x in queue ==> Printable(x)
    ensures Distinct(Texts(queue))
  {
    hide Printable, JobText;
    forall i, j | 0 <= i < j < |queue| ensures Texts(queue)[i] != Texts(queue)[j] {
      if Texts(queue)[i] == Texts(queue)[j] { JobTextInjective(queue[i], queue[j]); }
    }
  }

  /** What a tick names is printable. */
  lemma TickPrintable(now: int)
    requires 0 <= PartsOf(now).date.year <= 9999
    ensures forall id :: id in TickIds(now) ==> Printable(id)
  {
    hide PartsOf;
    forall id | id in TickIds(now) ensures Printable(id) { StartPrintable(now, id.period); }
  }

  lemma StartPrintable(now: int, start: int)
    requires 0 <= PartsOf(now).date.year <= 9999
    requires start == StartOf(now, MINUTE) || start == StartOf(now, HOUR) || start == StartOf(now, DAY)
    ensures start % MINUTE == 0 && 0 <= PartsOf(start).date.year <= 9999
  {
    hide PartsOf, DayNumber;
    SameDay(now, start);
    DayNumberInjective(PartsOf(start).date, PartsOf(now).date);
  }

  lemma SameDay(now: int, start: int)
    requires start == StartOf(now, MINUTE) || start == StartOf(now, HOUR) || start == StartOf(now, DAY)
    ensures start / DAY == now / DAY && start % MINUTE == 0
  {
    var n, r := now / DAY, now % DAY;
    assert now == n * DAY + r;
    MinuteStart(n, r);
    HourStart(n, r);
    DayAndRest(n, 0);
  }

  lemma MinuteRest(m: int, k: int)
    requires 0 <= k < MINUTE
    ensures (m * MINUTE + k) % MINUTE == k
  {
  }

  lemma HourRest(m: int, k: int)
    requires 0 <= k < HOUR
    ensures (m * HOUR + k) % HOUR == k
  {
  }

  lemma MinuteStart(n: int, r: int)
    requires 0 <= r < DAY
    ensures var s := StartOf(n * DAY + r, MINUTE); s / DAY == n && s % MINUTE == 0
  {
    var q := r / MINUTE;
    var m := n * 1_440 + q;
    assert n * DAY + r == m * MINUTE + (r - q * MINUTE);
    MinuteRest(m, r - q * MINUTE);
    MinuteRest(m, 0);
    assert m * MINUTE == n * DAY + q * MINUTE;
    DayAndRest(n, q * MINUTE);
  }

  lemma HourStart(n: int, r: int)
    requires 0 <= r < DAY
    ensures var s := StartOf(n * DAY + r, HOUR); s / DAY == n && s % MINUTE == 0
  {
    var q := r / HOUR;
    var m := n * 24 + q;
    assert n * DAY + r == m * HOUR + (r - q * HOUR);
    HourRest(m, r - q * HOUR);
    MinuteRest(m * 60, 0);
    assert m * HOUR == n * DAY + q * HOUR;
    DayAndRest(n, q * HOUR);
  }
}

/** Exactly when calendar windows work: every instant is inside its own window if and only if the computed
    midnights separate the days at every boundary of the period. */
module QuotaPeriods {
  import opened Outcomes
  import opened Civil
  import opened QuotaWindow

  /** A date on which a period starts. */
  predicate Boundary(period: PeriodType, d: Date) { ValidDate(d) && StartDate(period, d) == d }

  ghost predicate AllSplit(period: PeriodType, off: Zone) {
    forall d :: Boundary(period, d) ==> SplitsAt(off, d)
  }

  /** The window computed at `t` contains `t`. */
  ghost predicate Inside(period: PeriodType, off: Zone, t: int) {
    var s := StartDate(period, LocalDate(off, t));
    Midnight(off, s) <= t < Midnight(off, EndDate(period, s))
  }

  lemma InsideIsWindow(period: PeriodType, off: Zone, t: int)
    requires IsCalendar(period)
    ensures var w := PeriodWindow(period, off, t, None).value;
      w.end.Some? && (Inside(period, off, t) <==> w.start <= t < w.end.value)
  {
    hide Midnight, StartDate, EndDate, LocalDate;
  }

  ghost predicate ShowsPeriod(period: PeriodType, off: Zone, d: Date, t: int) { StartDate(period, LocalDate(off, t)) == d }

  /** The clock shows some instant of every period. A zone that skips a whole date does not. */
  ghost predicate EveryPeriodShown(period: PeriodType, off: Zone) {
    forall d :: Boundary(period, d) ==> exists t :: ShowsPeriod(period, off, d, t)
  }

  /** Between a boundary and the end of its period there is no other boundary. */
  lemma NoBoundaryBetween(period: PeriodType, a: Date, b: Date)
    requires IsCalendar(period) && Boundary(period, a) && Boundary(period, b) && DayNumber(a) < DayNumber(b)
    ensures Boundary(period, EndDate(period, a)) && DayNumber(a) < DayNumber(EndDate(period, a)) <= DayNumber(b)
  {
    hide DayNumber, StartDate, EndDate;
    PeriodContains(period, a);
    PeriodNext(period, a);
    if DayNumber(b) < DayNumber(EndDate(period, a)) { PeriodUnique(period, a, b); }
  }

  /** The midnight computed for the end of a period is not before that of its start. */
  ghost predicate StepsInOrder(period: PeriodType, off: Zone) {
    forall d :: Boundary(period, d) ==> Midnight(off, d) <= Midnight(off, EndDate(period, d))
  }

  lemma ShownStepsInOrder(period: PeriodType, off: Zone)
    requires EveryPeriodShown(period, off) && (forall t :: Inside(period, off, t))
    ensures StepsInOrder(period, off)
  {
    hide StartDate, EndDate, Midnight, LocalDate;
    forall d | Boundary(period, d) ensures Midnight(off, d) <= Midnight(off, EndDate(period, d)) {
      var t :| ShowsPeriod(period, off, d, t);
      assert Inside(period, off, t);
    }
  }

  /** Then the computed midnights follow the order of the boundaries. */
  lemma {:induction false} MidnightsInOrder(period: PeriodType, off: Zone, a: Date, b: Date)
    requires IsCalendar(period) && StepsInOrder(period, off)
    requires Boundary(period, a) && Boundary(period, b) && DayNumber(a) <= DayNumber(b)
    ensures Midnight(off, a) <= Midnight(off, b)
    decreases DayNumber(b) - DayNumber(a)
  {
    hide DayNumber, StartDate, EndDate, Midnight;
    if DayNumber(a) == DayNumber(b) {
      DayNumberInjective(a, b);
    } else {
      NoBoundaryBetween(period, a, b);
      MidnightsInOrder(period, off, EndDate(period, a), b);
    }
  }

  /** The boundaries of the period that an instant is in. */
  lemma OwnBoundaries(period: PeriodType, off: Zone, t: int)
    requires IsCalendar(period)
    ensures var n := DayNumber(LocalDate(off, t));
      var s := StartDate(period, LocalDate(off, t));
      var e := EndDate(period, s);
      Boundary(period, s) && Boundary(period, e) && DayNumber(s) <= n < DayNumber(e)
  {
    hide DayNumber, StartDate, EndDate, LocalDate;
    var d := LocalDate(off, t);
    PeriodContains(period, d);
    PeriodNext(period, d);
    PeriodUnique(period, d, StartDate(period, d));
  }

  lemma InsideSplits(period: PeriodType, off: Zone, d: Date, t: int)
    requires IsCalendar(period) && StepsInOrder(period, off) && (forall u :: Inside(period, off, u)) && Boundary(period, d)
    ensures t < Midnight(off, d) <==> DayNumber(LocalDate(off, t)) < DayNumber(d)
  {
    hide DayNumber, StartDate, EndDate, LocalDate, Midnight, StepsInOrder;
    OwnBoundaries(period, off, t);
    var s := StartDate(period, LocalDate(off, t));
    var e := EndDate(period, s);
    assert Inside(period, off, t);
    if DayNumber(LocalDate(off, t)) < DayNumber(d) {
      NoBoundaryBetween(period, s, d);
      MidnightsInOrder(period, off, e, d);
    } else {
      BoundaryBefore(period, LocalDate(off, t), d);
      MidnightsInOrder(period, off, d, s);
    }
  }

  /** A boundary on or before a date is on or before the start of its period. */
  lemma BoundaryBefore(period: PeriodType, k: Date, d: Date)
    requires IsCalendar(period) && ValidDate(k) && Boundary(period, d) && DayNumber(d) <= DayNumber(k)
    ensures DayNumber(d) <= DayNumber(StartDate(period, k))
  {
    hide DayNumber, StartDate, EndDate;
    PeriodContains(period, k);
    StartsAfter(period, d, k);
  }

  /** In a zone whose clock shows every period: every instant is inside its own window if and only if the
      computed midnights separate the days at every boundary. The second implies the first in any zone. */
  lemma InsideExactly(period: PeriodType, off: Zone)
    requires IsCalendar(period)
    ensures AllSplit(period, off) ==> forall t :: Inside(period, off, t)
    ensures EveryPeriodShown(period, off) ==> ((forall t :: Inside(period, off, t)) <==> AllSplit(period, off))
  {
    hide DayNumber, StartDate, EndDate, LocalDate, Midnight, SplitsAt, EveryPeriodShown, StepsInOrder, Inside;
    if AllSplit(period, off) {
      forall t ensures Inside(period, off, t) { SplitInside(period, off, t); }
    } else if EveryPeriodShown(period, off) && forall t :: Inside(period, off, t) {
      ShownStepsInOrder(period, off);
      forall d | Boundary(period, d) ensures SplitsAt(off, d) { AllInsideSplits(period, off, d); }
    }
  }

  lemma SplitInside(period: PeriodType, off: Zone, t: int)
    requires IsCalendar(period) && AllSplit(period, off)
    ensures Inside(period, off, t)
  {
    hide DayNumber, StartDate, EndDate, LocalDate, Midnight, SplitsAt;
    OwnBoundaries(period, off, t);
    var s := StartDate(period, LocalDate(off, t));
    BoundaryDates(off, s, t);
    BoundaryDates(off, EndDate(period, s), t);
  }

  lemma AllInsideSplits(period: PeriodType, off: Zone, d: Date)
    requires IsCalendar(period) && StepsInOrder(period, off) && (forall u :: Inside(period, off, u)) && Boundary(period, d)
    ensures SplitsAt(off, d)
  {
    hide DayNumber, StartDate, EndDate, Midnight, StepsInOrder, Inside;
    forall t ensures t < Midnight(off, d) <==> t + off(t) < Target(d) {
      InsideSplits(period, off, d, t);
      DayFloor(t + off(t), DayNumber(d));
    }
  }

  /** The midnight computed for a boundary lies between the two periods that meet there, as far as the clock
      shows them. */
  ghost predicate SplitsNear(period: PeriodType, off: Zone, d: Date) {
    forall t :: (ShowsPeriod(period, off, d, t) ==> Midnight(off, d) <= t)
             && (EndDate(period, StartDate(period, LocalDate(off, t))) == d ==> t < Midnight(off, d))
  }

  /** In any zone, also one that skips whole dates: every instant is inside its own window if and only if
      every computed midnight lies between the two periods that meet there. */
  lemma InsideNear(period: PeriodType, off: Zone)
    requires IsCalendar(period)
    ensures (forall t :: Inside(period, off, t)) <==> (forall d :: Boundary(period, d) ==> SplitsNear(period, off, d))
  {
    hide StartDate, EndDate, LocalDate, Midnight, DayNumber, Boundary;
    if forall d :: Boundary(period, d) ==> SplitsNear(period, off, d) {
      forall t ensures Inside(period, off, t) {
        OwnBoundaries(period, off, t);
        var s := StartDate(period, LocalDate(off, t));
        assert SplitsNear(period, off, s) && SplitsNear(period, off, EndDate(period, s));
        assert ShowsPeriod(period, off, s, t);
      }
    }
    if forall t :: Inside(period, off, t) {
      forall d ensures SplitsNear(period, off, d) {
        forall t ensures (ShowsPeriod(period, off, d, t) ==> Midnight(off, d) <= t)
                      && (EndDate(period, StartDate(period, LocalDate(off, t))) == d ==> t < Midnight(off, d))
        {
          assert Inside(period, off, t);
        }
      }
    }
  }

  // ---- dates the clock does not show -----------------------------------------------------------

  /** The first instant of a UTC day shows that date or the one before, the last one that date or the next. */
  lemma AroundDay(off: Zone, n: int)
    requires LocalDateTime.ValidZone(off)
    ensures n - 1 <= DayNumber(LocalDate(off, n * DAY)) <= n
    ensures n <= DayNumber(LocalDate(off, n * DAY + DAY - 1)) <= n + 1
  {
    hide DayNumber;
    var a, b := n * DAY, n * DAY + DAY - 1;
    assert -DAY < off(a) < DAY && -DAY < off(b) < DAY;
    DayFloor(a + off(a), n - 1);
    DayFloor(a + off(a), n + 1);
    DayFloor(b + off(b), n);
    DayFloor(b + off(b), n + 2);
  }

  /** Weeks and months are shown in every zone, because no two dates in a row are skipped. */
  lemma LongPeriodsShown(period: PeriodType, off: Zone)
    requires (period == CalendarWeek || period == CalendarMonth) && LocalDateTime.ValidZone(off)
    ensures EveryPeriodShown(period, off)
  {
    hide DayNumber, StartDate, EndDate, LocalDate, LocalDateTime.ValidZone;
    forall d | Boundary(period, d) ensures exists t :: ShowsPeriod(period, off, d, t) {
      var t := DayNumber(d) * DAY + DAY - 1;
      AroundDay(off, DayNumber(d));
      SecondDay(period, d);
      PeriodUnique(period, d, LocalDate(off, t));
      assert ShowsPeriod(period, off, d, t);
    }
  }

  lemma SecondDay(period: PeriodType, d: Date)
    requires (period == CalendarWeek || period == CalendarMonth) && Boundary(period, d)
    ensures DayNumber(d) + 2 <= DayNumber(EndDate(period, d))
  {
    hide DayNumber;
    if period == CalendarWeek {
      hide EndDate;
      WeekDates(d);
    } else {
      var second := d.(day := 2);
      assert ValidDate(second) && StartDate(period, second) == d;
      NextDayNumber(d);
      PeriodContains(period, second);
    }
  }

  lemma NextDayNumber(d: Date)
    requires d.day == 1
    ensures DayNumber(d.(day := 2)) == DayNumber(d) + 1
  {
    hide DaysBeforeYear, DaysBeforeMonth;
  }

  /** The computed midnight is less than a day from midnight in UTC. */
  lemma MidnightNear(off: Zone, d: Date)
    requires LocalDateTime.ValidZone(off)
    ensures Target(d) - DAY < Midnight(off, d) < Target(d) + DAY
  {
    hide Target, Iterate;
    TargetWholeSecond(d);
    IterateStep(off, Target(d), 3);
    assert -DAY < off(Iterate(off, Target(d), 3)) < DAY;
  }

  lemma DaysAround(off: Zone, d: Date)
    requires LocalDateTime.ValidZone(off)
    ensures DayNumber(d) - 2 <= DayNumber(LocalDate(off, Midnight(off, d))) <= DayNumber(d) + 1
  {
    hide DayNumber, Midnight;
    var m, n := Midnight(off, d), DayNumber(d);
    MidnightNear(off, d);
    assert -DAY < off(m) < DAY;
    DayFloor(m + off(m), n - 2);
    DayFloor(m + off(m), n + 2);
  }

  /** When day windows partition time, the midnights before and after a date that is not shown coincide. */
  lemma UnshownDay(off: Zone, d: Date)
    requires LocalDateTime.ValidZone(off) && ValidDate(d) && (forall now :: Partitions(CalendarDay, off, now))
    requires forall t :: DayNumber(LocalDate(off, t)) != DayNumber(d)
    ensures Midnight(off, d) == Midnight(off, AddDays(d, 1))
  {
    hide DayNumber, Midnight, LocalDate, AddDays, LocalDateTime.ValidZone, DateOf;
    var n := DayNumber(d);
    var before := n * DAY;
    AroundDay(off, n);
    var p := LocalDate(off, before);
    DayNumberInjective(AddDays(p, 1), d);
    assert Partitions(CalendarDay, off, before);
    var m := Midnight(off, d);
    assert Partitions(CalendarDay, off, m);
    var q := LocalDate(off, m);
    DaysAround(off, d);
    if DayNumber(q) == n - 1 { DayNumberInjective(q, p); }
    if DayNumber(q) == n - 2 { DayNumberInjective(AddDays(q, 1), p); }
    DayNumberInjective(q, AddDays(d, 1));
  }

  /** Windows that partition time have their midnights in order, whatever dates the clock skips. */
  lemma PartitionsInOrder(period: PeriodType, off: Zone)
    requires IsCalendar(period) && LocalDateTime.ValidZone(off) && (forall now :: Partitions(period, off, now))
    ensures StepsInOrder(period, off)
  {
    hide DayNumber, StartDate, EndDate, Midnight, LocalDate, LocalDateTime.ValidZone, Partitions, Inside, StepsInOrder;
    forall t ensures Inside(period, off, t) { PartitionsInside(period, off, t); }
    if period == CalendarDay {
      DaysInOrder(off);
    } else {
      LongPeriodsShown(period, off);
      ShownStepsInOrder(period, off);
    }
  }

  lemma DaysInOrder(off: Zone)
    requires LocalDateTime.ValidZone(off) && (forall now :: Partitions(CalendarDay, off, now))
    ensures StepsInOrder(CalendarDay, off)
  {
    hide DayNumber, Midnight, LocalDate, LocalDateTime.ValidZone, Partitions, AddDays;
    forall d | Boundary(CalendarDay, d) ensures Midnight(off, d) <= Midnight(off, EndDate(CalendarDay, d)) {
      if t :| DayNumber(LocalDate(off, t)) == DayNumber(d) {
        DayNumberInjective(LocalDate(off, t), d);
        PartitionsInside(CalendarDay, off, t);
      } else {
        UnshownDay(off, d);
      }
    }
  }

  /** In every zone, also one that skips whole dates: windows partition time at every instant if and only if
      the computed midnights separate the days at every boundary. */
  lemma PartitionsExactly(period: PeriodType, off: Zone)
    requires IsCalendar(period)
    ensures AllSplit(period, off) ==> forall now :: Partitions(period, off, now)
    ensures LocalDateTime.ValidZone(off) ==> ((forall now :: Partitions(period, off, now)) <==> AllSplit(period, off))
  {
    hide DayNumber, StartDate, EndDate, LocalDate, Midnight, SplitsAt, Partitions, Inside, LocalDateTime.ValidZone, StepsInOrder;
    if AllSplit(period, off) {
      forall now ensures Partitions(period, off, now) { SplitPartitions(period, off, now); }
    }
    if LocalDateTime.ValidZone(off) && forall now :: Partitions(period, off, now) {
      forall t ensures Inside(period, off, t) { PartitionsInside(period, off, t); }
      PartitionsInOrder(period, off);
      forall d | Boundary(period, d) ensures SplitsAt(off, d) { AllInsideSplits(period, off, d); }
    }
  }

  lemma SplitPartitions(period: PeriodType, off: Zone, now: int)
    requires IsCalendar(period) && AllSplit(period, off)
    ensures Partitions(period, off, now)
  {
    hide DayNumber, StartDate, EndDate, LocalDate, Midnight, SplitsAt, Partitions;
    OwnBoundaries(period, off, now);
    var e := EndDate(period, StartDate(period, LocalDate(off, now)));
    OwnBoundaries(period, off, Midnight(off, e));
    WindowPartition(period, off, now);
  }

  lemma PartitionsInside(period: PeriodType, off: Zone, t: int)
    requires IsCalendar(period) && Partitions(period, off, t)
    ensures Inside(period, off, t)
  {
    hide StartDate, EndDate, LocalDate, Midnight;
    InsideIsWindow(period, off, t);
  }

  // ---- in terms of the zone --------------------------------------------------------------------

  ghost predicate ChangesAtMostOnceNear(off: Zone, d: Date) {
    exists change, before, after :: OneChange(off, Target(d), change, before, after)
  }

  /** Near midnight of `d` the zone changes at most once, in a way that `localMidnight` can handle. */
  ghost predicate Handled(off: Zone, d: Date) {
    exists change, before, after ::
      OneChange(off, Target(d), change, before, after) && SplitCondition(Target(d), change, before, after)
  }

  lemma HandledExactly(off: Zone, d: Date)
    requires LocalDateTime.ValidZone(off) && ChangesAtMostOnceNear(off, d)
    ensures SplitsAt(off, d) <==> Handled(off, d)
  {
    hide OneChange, SplitCondition, Splits, Target, LocalDateTime.ValidZone;
    var change, before, after :| OneChange(off, Target(d), change, before, after);
    SplitsExactly(off, d, change, before, after);
    if x, y, z :| OneChange(off, Target(d), x, y, z) && SplitCondition(Target(d), x, y, z) { SplitsExactly(off, d, x, y, z); }
  }

  /** For a zone that changes at most once within two days of every boundary, windows partition time if and
      only if every boundary has a change that the iteration can handle, or none. */
  lemma PartitionsByZone(period: PeriodType, off: Zone)
    requires IsCalendar(period) && LocalDateTime.ValidZone(off)
    requires forall d :: Boundary(period, d) ==> ChangesAtMostOnceNear(off, d)
    ensures (forall now :: Partitions(period, off, now)) <==> (forall d :: Boundary(period, d) ==> Handled(off, d))
  {
    hide Boundary, Partitions, SplitsAt, Handled, ChangesAtMostOnceNear, LocalDateTime.ValidZone;
    PartitionsExactly(period, off);
    forall d | Boundary(period, d) ensures SplitsAt(off, d) <==> Handled(off, d) { HandledExactly(off, d); }
  }

  // ---- zones that change once ------------------------------------------------------------------

  /** A zone that changes by less than a day shows every date, hence every period. */
  lemma ChangeZoneShows(period: PeriodType, change: int, before: int, after: int)
    requires IsCalendar(period) && -DAY < before < DAY && -DAY < after < DAY && after - before < DAY
    ensures EveryPeriodShown(period, LocalDateTime.ChangeZone(change, before, after))
  {
    hide DayNumber, StartDate, Target;
    var off := LocalDateTime.ChangeZone(change, before, after);
    forall d | Boundary(period, d) ensures exists t :: ShowsPeriod(period, off, d, t) {
      var t := DateShown(d, change, before, after);
      DayNumberInjective(LocalDate(off, t), d);
      assert ShowsPeriod(period, off, d, t);
    }
  }

  lemma DateShown(d: Date, change: int, before: int, after: int) returns (t: int)
    requires after - before < DAY
    ensures (t + LocalDateTime.ChangeZone(change, before, after)(t)) / DAY == DayNumber(d)
  {
    hide DayNumber;
    var n := DayNumber(d);
    // The start of the date before the change, or its last millisecond after it.
    t := if n * DAY - before < change then n * DAY - before else n * DAY + DAY - 1 - after;
    assert t < change <==> n * DAY - before < change;
    DayAndRest(n, 0);
    DayAndRest(n, DAY - 1);
  }
}

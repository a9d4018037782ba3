/** The time-adjust mode of src/adjust.rs: the field the buttons act on, the
    calendar step `adjust`, the three button actions on the shared state, and
    the render task's redraw / ghosting-clear loop. */
module Adjust {
  import opened Wrappers
  import opened Fb
  import opened Calendar

  datatype AdjustField = Minutes | Hours | Days | Months | Years | Store

  datatype AdjustDirection = Forward | Backward

  /** The state shared by the input and render tasks. */
  datatype State = State(field: AdjustField, time: DateTime)

  /** The state adjust mode starts in: Years selected, at instant zero
      (`from_timestamp(0, 0)`), which is midnight of 1970-01-01. */
  function InitialState(): (s: State)
    ensures s.field == Years && ValidDateTime(s.time)
    ensures Seconds(s.time) == 0 && s.time.secs == 0
  {
    State(Years, DateTime(Date(1970, 1, 1), 0))
  }

  // ---------------------------------------------------------------------
  // Field selection.

  /** `AdjustField::cycle`. */
  function Cycle(f: AdjustField): (g: AdjustField)
    ensures g != f
  {
    match f
    case Minutes => Hours
    case Hours => Days
    case Days => Months
    case Months => Years
    case Years => Store
    case Store => Minutes
  }

  function CycleN(f: AdjustField, n: nat): AdjustField
    decreases n
  {
    if n == 0 then f else CycleN(Cycle(f), n - 1)
  }

  /** The cycle has period exactly six from every field, so it visits all six
      fields before coming back. */
  lemma {:induction false} CyclePeriodSix(f: AdjustField)
    ensures CycleN(f, 6) == f
    ensures forall n :: 0 < n < 6 ==> CycleN(f, n) != f
  {
    match f
    case Minutes =>
    case Hours =>
    case Days =>
    case Months =>
    case Years =>
    case Store =>
  }

  // ---------------------------------------------------------------------
  // `adjust`.

  /** The time-of-day step chosen by direction (`adjust_time`). */
  function AdjustTime(dir: AdjustDirection, secs: int, rhs: int): (r: (int, int))
    requires 0 <= secs < SecsPerDay
    ensures 0 <= r.0 < SecsPerDay
  {
    match dir
    case Forward => OverflowingAdd(secs, rhs)
    case Backward => OverflowingSub(secs, rhs)
  }

  /** `adjust_date_duration`: a signed-duration date step, keeping the date
      when the step fails. */
  function AdjustDateDuration(dir: AdjustDirection, d: Date, secs: int): (r: Date)
    requires ValidDate(d)
    ensures ValidDate(r)
  {
    (match dir
     case Forward => CheckedAddSigned(d, secs)
     case Backward => CheckedSubSigned(d, secs)).GetOr(d)
  }

  /** `adjust_date_months`: a month date step, keeping the date when the step
      fails. */
  function AdjustDateMonths(dir: AdjustDirection, d: Date, months: nat): (r: Date)
    requires ValidDate(d)
    ensures ValidDate(r)
  {
    (match dir
     case Forward => CheckedAddMonths(d, months)
     case Backward => CheckedSubMonths(d, months)).GetOr(d)
  }

  /** `adjust`: move the selected field one unit in the given direction. */
  function Adjust(field: AdjustField, dir: AdjustDirection, t: DateTime): (r: DateTime)
    requires ValidDateTime(t)
    ensures ValidDateTime(r)
  {
    var (time, overflow) :=
      match field
      case Minutes => AdjustTime(dir, t.secs, 60)
      case Hours => AdjustTime(dir, t.secs, 3600)
      case _ => (t.secs, 0);
    var date :=
      match field
      case Days => AdjustDateDuration(dir, t.date, SecsPerDay)
      case Months => AdjustDateMonths(dir, t.date, 1)
      case Years => AdjustDateMonths(dir, t.date, 12)
      case _ => t.date;
    DateTime(AdjustDateDuration(dir, date, overflow), time)
  }

  /** The one-day step in a direction. */
  function StepDay(dir: AdjustDirection, d: Date): (r: Option<Date>)
    requires ValidDate(d)
  {
    match dir
    case Forward => NextDay(d)
    case Backward => PrevDay(d)
  }

  /** The date the one-day step cannot leave. */
  function EdgeDate(dir: AdjustDirection): Date {
    match dir
    case Forward => MaxDate
    case Backward => MinDate
  }

  function Sign(dir: AdjustDirection): int {
    match dir
    case Forward => 1
    case Backward => -1
  }

  /** Seconds in one unit of a time field. */
  function Unit(field: AdjustField): int
    requires field == Minutes || field == Hours
  {
    if field == Minutes then 60 else 3600
  }

  /** A whole-day duration moves the date by one day in the adjust direction,
      a zero duration leaves it. */
  lemma {:induction false} AdjustDateDurationDays(dir: AdjustDirection, d: Date)
    requires ValidDate(d)
    ensures AdjustDateDuration(dir, d, 0) == d
    ensures AdjustDateDuration(dir, d, SecsPerDay) == StepDay(dir, d).GetOr(d)
  {
    assert DurationDays(0) == 0 && DurationDays(SecsPerDay) == 1;
    match dir
    case Forward =>
      assert CheckedAddDays(d, 1) == NextDay(d);
    case Backward =>
      assert CheckedAddDays(d, -1) == PrevDay(d);
  }

  /** The Store field adjusts nothing. */
  lemma {:induction false} AdjustStoreIdentity(dir: AdjustDirection, t: DateTime)
    requires ValidDateTime(t)
    ensures Adjust(Store, dir, t) == t
  {
    AdjustDateDurationDays(dir, t.date);
  }

  /** The time step of one unit: the overflow is one day exactly when
      midnight is crossed, in seconds, and signed the way `adjust` feeds it
      back into the date. */
  lemma {:induction false} AdjustTimeUnit(dir: AdjustDirection, secs: int, u: int)
    requires 0 <= secs < SecsPerDay && 0 < u < SecsPerDay
    ensures var delta := Sign(dir) * u;
      var crosses := !(0 <= secs + delta < SecsPerDay);
      && AdjustTime(dir, secs, u).0 == (secs + delta) % SecsPerDay
      && AdjustTime(dir, secs, u).1 == (if crosses then SecsPerDay else 0)
  {
    OverflowingSpec(secs, u);
  }

  /** For Minutes and Hours, `adjust` is the time step followed by the date
      step by the overflow. */
  lemma {:induction false} AdjustTimeField(field: AdjustField, dir: AdjustDirection, t: DateTime)
    requires ValidDateTime(t)
    requires field == Minutes || field == Hours
    ensures var step := AdjustTime(dir, t.secs, Unit(field));
      Adjust(field, dir, t) == DateTime(AdjustDateDuration(dir, t.date, step.1), step.0)
  {
  }

  /** For Minutes and Hours the time of day moves by one unit modulo a day,
      and the date takes the one-day step exactly when midnight is crossed. */
  lemma {:induction false} AdjustClockStep(field: AdjustField, dir: AdjustDirection, t: DateTime)
    requires ValidDateTime(t)
    requires field == Minutes || field == Hours
    ensures var delta := Sign(dir) * Unit(field);
      var r := Adjust(field, dir, t);
      var crosses := !(0 <= t.secs + delta < SecsPerDay);
      && r.secs == (t.secs + delta) % SecsPerDay
      && r.date == (if crosses then StepDay(dir, t.date).GetOr(t.date) else t.date)
  {
    AdjustTimeUnit(dir, t.secs, Unit(field));
    AdjustTimeField(field, dir, t);
    AdjustDateDurationDays(dir, t.date);
  }

  /** Minutes and Hours move the time of day by one unit modulo a day; the
      date moves one day in the same direction exactly when midnight is
      crossed, unless that day step leaves the range. Whenever the date step
      succeeds, the instant moves by exactly one unit. */
  lemma {:induction false} AdjustClock(field: AdjustField, dir: AdjustDirection, t: DateTime)
    requires ValidDateTime(t)
    requires field == Minutes || field == Hours
    ensures var delta := Sign(dir) * Unit(field);
      var r := Adjust(field, dir, t);
      var crosses := !(0 <= t.secs + delta < SecsPerDay);
      && r.secs == (t.secs + delta) % SecsPerDay
      && r.date == (if crosses then StepDay(dir, t.date).GetOr(t.date) else t.date)
      && (r.date == t.date && crosses <==> crosses && t.date == EdgeDate(dir))
      && (!(crosses && t.date == EdgeDate(dir)) ==> Seconds(r) == Seconds(t) + delta)
  {
    AdjustClockStep(field, dir, t);
    match dir
    case Forward => NextDaySpec(t.date);
    case Backward => PrevDaySpec(t.date);
  }

  /** Days, Months and Years never touch the time of day. */
  lemma {:induction false} AdjustDateKeepsTime(field: AdjustField, dir: AdjustDirection, t: DateTime)
    requires ValidDateTime(t)
    requires field == Days || field == Months || field == Years
    ensures Adjust(field, dir, t).secs == t.secs
    ensures Adjust(field, dir, t).date ==
      if field == Days then AdjustDateDuration(dir, t.date, SecsPerDay)
      else AdjustDateMonths(dir, t.date, if field == Months then 1 else 12)
  {
    var date :=
      if field == Days then AdjustDateDuration(dir, t.date, SecsPerDay)
      else AdjustDateMonths(dir, t.date, if field == Months then 1 else 12);
    AdjustDateDurationDays(dir, date);
  }

  /** Days moves the date one day in the direction, and leaves it exactly at
      the edge of the range. */
  lemma {:induction false} AdjustDaysSpec(dir: AdjustDirection, t: DateTime)
    requires ValidDateTime(t)
    ensures var r := Adjust(Days, dir, t);
      && r.secs == t.secs
      && (r.date == t.date <==> t.date == EdgeDate(dir))
      && (r.date != t.date ==> DayNumber(r.date) == DayNumber(t.date) + Sign(dir))
  {
    AdjustDateKeepsTime(Days, dir, t);
    AdjustDateDurationDays(dir, t.date);
    match dir
    case Forward => NextDaySpec(t.date);
    case Backward => PrevDaySpec(t.date);
  }

  /** Months and Years shift the date by 1 or 12 calendar months with the day
      clamped to the target month, or leave it when the target year is
      outside the range. */
  lemma {:induction false} AdjustMonthsSpec(field: AdjustField, dir: AdjustDirection, t: DateTime)
    requires ValidDateTime(t)
    requires field == Months || field == Years
    ensures var n := Sign(dir) * (if field == Months then 1 else 12);
      var r := Adjust(field, dir, t);
      var inRange := MinYear <= (MonthIndex(t.date) + n) / 12 <= MaxYear;
      && r.secs == t.secs
      && (!inRange ==> r.date == t.date)
      && (inRange ==> MonthIndex(r.date) == MonthIndex(t.date) + n
                      && r.date.day == Min(t.date.day, DaysInMonth(r.date.year, r.date.month)))
  {
    var n := Sign(dir) * (if field == Months then 1 else 12);
    AdjustDateKeepsTime(field, dir, t);
    DiffMonthsSpec(t.date, n);
  }

  /** The worked cases: 23:59 plus a minute is midnight of the next day,
      00:30 minus an hour is 23:30 of the previous day, January 31st plus a
      month is the last day of February, and February 29th plus a year is
      February 28th. */
  lemma AdjustExamples()
    ensures Adjust(Minutes, Forward, DateTime(Date(2024, 1, 31), 23 * 3600 + 59 * 60))
      == DateTime(Date(2024, 2, 1), 0)
    ensures Adjust(Hours, Backward, DateTime(Date(2024, 3, 1), 30 * 60))
      == DateTime(Date(2024, 2, 29), 23 * 3600 + 30 * 60)
    ensures Adjust(Months, Forward, DateTime(Date(2024, 1, 31), 0)) == DateTime(Date(2024, 2, 29), 0)
    ensures Adjust(Months, Forward, DateTime(Date(2023, 1, 31), 0)) == DateTime(Date(2023, 2, 28), 0)
    ensures Adjust(Years, Forward, DateTime(Date(2024, 2, 29), 0)) == DateTime(Date(2025, 2, 28), 0)
  {
  }

  /** Going forward and then back by a minute, an hour or a day returns to the
      start, unless the forward step was stopped at the last date. */
  lemma {:induction false} AdjustRoundTrip(field: AdjustField, t: DateTime)
    requires ValidDateTime(t)
    requires field == Minutes || field == Hours || field == Days
    requires t.date != MaxDate
    ensures Adjust(field, Backward, Adjust(field, Forward, t)) == t
  {
    var r := Adjust(field, Forward, t);
    NextPrevInverse(t.date);
    NextDaySpec(t.date);
    if field == Days {
      AdjustDaysSpec(Forward, t);
      AdjustDaysSpec(Backward, r);
      AdjustDateDurationDays(Forward, t.date);
      AdjustDateDurationDays(Backward, r.date);
    } else {
      AdjustClock(field, Forward, t);
      AdjustClock(field, Backward, r);
      PrevDaySpec(r.date);
    }
  }

  /** Going forward and then back by a month or a year returns to the start
      when the forward step stays in range and the day exists in every
      month; otherwise the clamp is not undone (see AdjustClampNotUndone). */
  lemma {:induction false} AdjustMonthsRoundTrip(field: AdjustField, t: DateTime)
    requires ValidDateTime(t)
    requires field == Months || field == Years
    requires t.date.day <= 28
    requires MonthIndex(t.date) + (if field == Months then 1 else 12) <= MaxYear * 12 + 11
    ensures Adjust(field, Backward, Adjust(field, Forward, t)) == t
  {
    var r := Adjust(field, Forward, t);
    AdjustMonthsSpec(field, Forward, t);
    AdjustMonthsSpec(field, Backward, r);
    var b := Adjust(field, Backward, r);
    assert MonthIndex(b.date) == MonthIndex(t.date);
    assert b.date.year == t.date.year && b.date.month == t.date.month;
  }

  /** January 31st plus a month is February 28th in 2023, and minus a month
      from there is January 28th: the month steps are not inverse. */
  lemma AdjustClampNotUndone()
    ensures Adjust(Months, Backward, Adjust(Months, Forward, DateTime(Date(2023, 1, 31), 0)))
      == DateTime(Date(2023, 1, 28), 0)
  {
  }

  // ---------------------------------------------------------------------
  // The input task's button actions, each one read-modify-write of the state.

  /** The field-cycle button. */
  function OnFieldCycle(s: State): (r: State)
    ensures r.time == s.time && r.field != s.field
  {
    s.(field := Cycle(s.field))
  }

  /** The backward button. */
  function OnBackward(s: State): (r: State)
    requires ValidDateTime(s.time)
    ensures ValidDateTime(r.time) && r.field == s.field
  {
    s.(time := Adjust(s.field, Backward, s.time))
  }

  /** The forward button; on Store the commit is not written yet and the
      state is left alone. */
  function OnForward(s: State): (r: State)
    requires ValidDateTime(s.time)
    ensures ValidDateTime(r.time) && r.field == s.field
  {
    if s.field == Store then s else s.(time := Adjust(s.field, Forward, s.time))
  }

  /** With Store selected neither adjust button changes anything, and the
      forward button's Store branch agrees with calling `adjust`. */
  lemma {:induction false} StoreButtonsInert(s: State)
    requires ValidDateTime(s.time)
    ensures s.field == Store ==> OnForward(s) == s && OnBackward(s) == s
    ensures OnForward(s) == s.(time := Adjust(s.field, Forward, s.time))
  {
    AdjustStoreIdentity(Forward, s.time);
    AdjustStoreIdentity(Backward, s.time);
  }

  // ---------------------------------------------------------------------
  // The render task's polling loop.

  /** Unchanged polls while dirty before the display is quick-cleared. */
  const StaleLimit: nat := 500

  /** What the render loop does after one poll of the shared state. */
  datatype Decision = StayPolling | Redraw | QuickClearThenRedraw

  /** The render loop's own variables: `dirty` and `tries`. */
  datatype Control = Control(dirty: bool, tries: nat)

  /** The states the loop can be in: `tries` stays below the limit and only
      advances while dirty. */
  predicate Reachable(c: Control) {
    c.tries < StaleLimit && (!c.dirty ==> c.tries == 0)
  }

  /** One poll: `differs` is whether the shared state differs from the local
      snapshot. A redraw restarts with `tries` reset to 0. */
  function Step(c: Control, differs: bool): (r: (Decision, Control))
    ensures r.0 == Redraw <==> differs
    ensures r.0 == QuickClearThenRedraw <==> !differs && c.dirty && c.tries + 1 >= StaleLimit
    ensures r.0 != StayPolling ==> r.1.tries == 0 && r.1.dirty == (r.0 == Redraw)
    ensures !differs && !c.dirty ==> r == (StayPolling, c)
    ensures Reachable(c) ==> Reachable(r.1)
  {
    if differs then (Redraw, Control(true, 0))
    else if c.dirty then
      if c.tries + 1 >= StaleLimit then (QuickClearThenRedraw, Control(false, 0))
      else (StayPolling, Control(true, c.tries + 1))
    else (StayPolling, c)
  }

  /** The decisions of k consecutive polls that see no change. Its contract
      only fixes the length; where the quick-clear falls among them is
      IdlePollsFrom. */
  function IdlePolls(c: Control, k: nat): (ds: seq<Decision>)
    ensures |ds| == k
    decreases k
  {
    if k == 0 then [] else
    var (d, next) := Step(c, false);
    [d] + IdlePolls(next, k - 1)
  }

  /** Counting from a redraw with `tries` already at t, the quick-clear comes
      on unchanged poll number StaleLimit - t while dirty and never while
      clean. */
  lemma {:induction false} IdlePollsFrom(c: Control, k: nat, j: nat)
    requires Reachable(c) && j < k
    ensures IdlePolls(c, k)[j] == QuickClearThenRedraw <==> c.dirty && j == StaleLimit - 1 - c.tries
    decreases k
  {
    var (d, next) := Step(c, false);
    if j > 0 {
      IdlePollsFrom(next, k - 1, j - 1);
      assert IdlePolls(c, k)[j] == IdlePolls(next, k - 1)[j - 1];
      if c.dirty && d == QuickClearThenRedraw {
        assert !next.dirty;
      }
    }
  }

  /** After a redraw caused by a change, the quick-clear happens on exactly
      the 500th consecutive unchanged poll. */
  lemma QuickClearOnStalePoll(k: nat, j: nat)
    requires j < k
    ensures IdlePolls(Control(true, 0), k)[j] == QuickClearThenRedraw <==> j == StaleLimit - 1
  {
    IdlePollsFrom(Control(true, 0), k, j);
  }

  /** The render task: two framebuffers it swaps between, its snapshot of
      the shared state, and the loop variables `dirty` and `tries`. */
  class Renderer {
    var framebuffer: Framebuffer
    var prevFramebuffer: Framebuffer
    var localState: State
    var dirty: bool
    var tries: nat

    /** Two distinct, well-formed buffers. */
    ghost predicate FramesOk()
      reads this, framebuffer, prevFramebuffer, framebuffer.data, prevFramebuffer.data
    {
      && framebuffer != prevFramebuffer
      && framebuffer.data != prevFramebuffer.data
      && framebuffer.Valid()
      && prevFramebuffer.Valid()
    }

    ghost predicate Valid()
      reads this, framebuffer, prevFramebuffer, framebuffer.data, prevFramebuffer.data
    {
      FramesOk() && Reachable(Control(dirty, tries))
    }

    /** Task start: two white framebuffers, the snapshot taken under the
        lock, and not dirty. */
    constructor (shared: State)
      ensures Valid() && fresh(framebuffer) && fresh(prevFramebuffer)
      ensures fresh(framebuffer.data) && fresh(prevFramebuffer.data)
      ensures framebuffer.data[..] == Blank() && prevFramebuffer.data[..] == Blank()
      ensures localState == shared && !dirty && tries == 0
    {
      framebuffer := new Framebuffer();
      prevFramebuffer := new Framebuffer();
      localState := shared;
      dirty := false;
      tries := 0;
    }

    /** The head of the `'redraw` loop: clear the framebuffer and draw the
        state into it, hand the previous and the new frame to the difference
        encoder, swap the two buffers and reset `tries`. `draw` is not
        modelled: `drawn` is whatever it leaves in the cleared buffer.
        Returns the pair of frames handed on. */
    method RedrawFrame(drawn: seq<int>) returns (previous: seq<int>, next: seq<int>)
      requires FramesOk() && PixelsOk(drawn)
      modifies this, framebuffer.data
      ensures Valid()
      ensures framebuffer == old(prevFramebuffer) && prevFramebuffer == old(framebuffer)
      ensures previous == old(prevFramebuffer.data[..]) && next == drawn
      ensures framebuffer.data[..] == previous && prevFramebuffer.data[..] == next
      ensures localState == old(localState) && dirty == old(dirty) && tries == 0
    {
      framebuffer.Clear();
      forall i | 0 <= i < SIZE {
        framebuffer.data[i] := drawn[i];
      }
      assert framebuffer.data[..] == drawn;
      previous := prevFramebuffer.data[..];
      next := framebuffer.data[..];
      framebuffer, prevFramebuffer := prevFramebuffer, framebuffer;
      tries := 0;
    }

    /** One pass of the inner polling loop: compare the shared state with
        the snapshot, and redraw or quick-clear as `Step` decides. `drawn` is
        the frame `draw` would produce for the redraw, if one happens.
        `shown` is the pair of frames handed to the difference encoder, if
        any; after it the two buffers have swapped and hold that pair, so the
        next redraw hands on this one's new frame as its previous one. */
    method Poll(shared: State, drawn: seq<int>) returns (decision: Decision, shown: Option<(seq<int>, seq<int>)>)
      requires Valid() && PixelsOk(drawn)
      modifies this, framebuffer.data, prevFramebuffer.data
      ensures Valid()
      ensures (decision, Control(dirty, tries)) == Step(Control(old(dirty), old(tries)), shared != old(localState))
      ensures localState == shared
      ensures decision == StayPolling ==>
        shown == None && framebuffer == old(framebuffer) && prevFramebuffer == old(prevFramebuffer)
        && framebuffer.data[..] == old(framebuffer.data[..]) && prevFramebuffer.data[..] == old(prevFramebuffer.data[..])
      ensures decision == Redraw ==> shown == Some((old(prevFramebuffer.data[..]), drawn))
      ensures decision == QuickClearThenRedraw ==> shown == Some((Blank(), drawn))
      ensures decision != StayPolling ==>
        shown.Some? && framebuffer == old(prevFramebuffer) && prevFramebuffer == old(framebuffer)
        && framebuffer.data[..] == shown.value.0 && prevFramebuffer.data[..] == shown.value.1
    {
      if shared != localState {
        localState := shared;
        dirty := true;
        var previous, next := RedrawFrame(drawn);
        decision, shown := Redraw, Some((previous, next));
        return;
      }
      if dirty {
        tries := tries + 1;
        if tries >= StaleLimit {
          prevFramebuffer.Clear();
          dirty := false;
          var previous, next := RedrawFrame(drawn);
          decision, shown := QuickClearThenRedraw, Some((previous, next));
          return;
        }
      }
      decision, shown := StayPolling, None;
    }
  }
}

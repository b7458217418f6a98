/** The rolling three-day window. The page keeps goals for today, tomorrow
    and the day after, anchored at `baseDate`. Opening the page on a later
    day moves the window on by the days elapsed (the load effect); the
    "roll forward" button moves it on by exactly one day. */
module Rollover {
  import opened Wrappers
  import opened Dates
  import opened Financials

  /** Slot `k` of the window counted from today (0 today, 1 tomorrow,
      2 the day after); past the window every slot is empty. */
  function SlotAt(st: FinancialState, k: nat): Slot {
    if k == 0 then st.today
    else if k == 1 then st.tomorrow
    else if k == 2 then st.nextDay
    else map[]
  }

  /** Reference definition: the window seen `n` days later, where each slot
      takes the one `n` places further on. Nothing else changes. */
  function Advance(st: FinancialState, n: nat): FinancialState {
    st.(today := SlotAt(st, n), tomorrow := SlotAt(st, n + 1), nextDay := SlotAt(st, n + 2))
  }

  /** The one-day shift the page writes out: yesterday's tomorrow becomes
      today, the day after becomes tomorrow, and the new last day starts
      empty. */
  function Shift1(st: FinancialState): (r: FinancialState)
    ensures r == Advance(st, 1)
  {
    st.(today := st.tomorrow, tomorrow := st.nextDay, nextDay := map[])
  }

  /** `n` one-day shifts in a row. */
  function ShiftTimes(st: FinancialState, n: nat): FinancialState {
    if n == 0 then st else Shift1(ShiftTimes(st, n - 1))
  }

  /** The transition the load effect picks for `elapsed` days: none for
      zero or fewer, the one-day shift, the two-day shift, or a clean
      window for three or more. */
  function Roll(st: FinancialState, elapsed: int): (r: FinancialState)
    ensures SameSettings(r, st) && r.baseDate == st.baseDate
    ensures elapsed <= 0 ==> r == st
    ensures elapsed > 0 ==> r == Advance(st, elapsed as nat)
  {
    if elapsed <= 0 then st
    else if elapsed >= 3 then st.(today := map[], tomorrow := map[], nextDay := map[])
    else if elapsed == 2 then st.(today := st.nextDay, tomorrow := map[], nextDay := map[])
    else st.(today := st.tomorrow, tomorrow := st.nextDay, nextDay := map[])
  }

  /** The load effect's auto-roll. The days from `baseDate` to `today` pick
      the transition; when some days have passed the window is re-anchored
      at `today`. A `baseDate` that is not a date gives no elapsed count
      (JavaScript's NaN, which is not greater than 0) and leaves the state
      as stored. */
  function AutoRoll(st: FinancialState, today: Date): (r: FinancialState)
    requires Valid(today)
    ensures SameSettings(r, st)
    ensures DaysBetween(st.baseDate, Format(today)).None? ==> r == st
    ensures DaysBetween(st.baseDate, Format(today)).Some? ==>
      var e := DaysBetween(st.baseDate, Format(today)).value;
      if e <= 0 then r == st
      else r == Advance(st, e as nat).(baseDate := Format(today))
  {
    match DaysBetween(st.baseDate, Format(today))
    case Some(elapsed) =>
      if elapsed > 0 then Roll(st, elapsed).(baseDate := Format(today)) else st
    case None => st
  }

  /** Restoring the page: with nothing readable in storage the page keeps
      the fresh default state; otherwise the stored state is auto-rolled to
      today. */
  function Load(stored: Option<FinancialState>, today: Date): (r: FinancialState)
    requires Valid(today)
    ensures stored.None? ==> r == DefaultState(today)
    ensures stored.Some? ==> SameSettings(r, stored.value)
    ensures match DaysBetween(r.baseDate, Format(today))
            case Some(e) => e <= 0
            case None => true
  {
    match stored
    case None => DefaultState(today)
    case Some(st) => AutoRollIsCurrent(st, today); AutoRoll(st, today)
  }

  /** The manual roll forward: the one-day shift, with `baseDate` moved to
      the next calendar day whatever the clock says. `None` when `baseDate`
      is not a date (`toISOString` on an invalid date throws) or its
      successor is past 9999-12-31. */
  function RollForward(st: FinancialState): (r: Option<FinancialState>)
    ensures r.Some? <==> Parse(st.baseDate).Some? && Parse(st.baseDate).value != Date(9999, 12, 31)
    ensures r.Some? ==> SameSettings(r.value, st)
    ensures r.Some? ==> r.value.(baseDate := st.baseDate) == Advance(st, 1)
    ensures r.Some? ==> DaysBetween(st.baseDate, r.value.baseDate) == Some(1)
  {
    match Parse(st.baseDate)
    case None => None
    case Some(d) =>
      var n := Succ(d);
      if n.year > 9999 then None
      else
        DaysBetweenSucc(d);
        FormatParse(st.baseDate);
        Some(Shift1(st).(baseDate := Format(n)))
  }

  // ---------------------------------------------------------------------------
  // Properties
  // ---------------------------------------------------------------------------

  /** Advancing by `m` days and then by `n` is advancing by `m + n`. */
  lemma AdvanceCompose(st: FinancialState, m: nat, n: nat)
    ensures Advance(Advance(st, m), n) == Advance(st, m + n)
  {
  }

  /** Three or more days on, the window is empty. */
  lemma AdvancePastWindow(st: FinancialState, n: nat)
    requires n >= 3
    ensures Advance(st, n) == st.(today := map[], tomorrow := map[], nextDay := map[])
  {
  }

  /** Chaining: `n` one-day shifts are the `n`-day transition. In
      particular two shifts are the two-day roll and three are the clean
      window. */
  lemma {:induction false} ShiftTimesIsAdvance(st: FinancialState, n: nat)
    ensures ShiftTimes(st, n) == Advance(st, n)
  {
    if n > 0 {
      ShiftTimesIsAdvance(st, n - 1);
      AdvanceCompose(st, n - 1, 1);
    }
  }

  /** The load effect's transition for `e > 0` days is `e` one-day shifts. */
  lemma RollIsRepeatedShift(st: FinancialState, e: int)
    requires e > 0
    ensures Roll(st, e) == ShiftTimes(st, e as nat)
    ensures e >= 3 ==> Roll(st, e) == Roll(st, 3)
  {
    ShiftTimesIsAdvance(st, e as nat);
  }

  /** After the auto-roll the window is never behind the clock. */
  lemma AutoRollIsCurrent(st: FinancialState, today: Date)
    requires Valid(today)
    ensures match DaysBetween(AutoRoll(st, today).baseDate, Format(today))
            case Some(e) => e <= 0
            case None => true
  {
    DaysBetweenFormatted(today, today);
  }

  /** Loading twice on the same day rolls once. */
  lemma AutoRollIdempotent(st: FinancialState, today: Date)
    requires Valid(today)
    ensures AutoRoll(AutoRoll(st, today), today) == AutoRoll(st, today)
  {
    AutoRollIsCurrent(st, today);
  }

  /** The auto-roll from a `baseDate` that reads as day `b`. */
  lemma AutoRollFrom(st: FinancialState, b: Date, today: Date)
    requires Valid(today) && Parse(st.baseDate) == Some(b)
    ensures var e := DayNumber(today) - DayNumber(b);
      AutoRoll(st, today) == if e > 0 then Advance(st, e as nat).(baseDate := Format(today)) else st
  {
    ParseFormat(today);
  }

  /** Opening the page on day `t1` and again on a later day `t2` leaves the
      same state as opening it only on `t2`: the window moves by the total
      days elapsed, however the visits split them. */
  lemma AutoRollSessions(st: FinancialState, t1: Date, t2: Date)
    requires Valid(t1) && Valid(t2) && DayNumber(t1) <= DayNumber(t2)
    ensures AutoRoll(AutoRoll(st, t1), t2) == AutoRoll(st, t2)
  {
    var s1 := AutoRoll(st, t1);
    match Parse(st.baseDate)
    case None =>
    case Some(b) =>
      AutoRollFrom(st, b, t1);
      AutoRollFrom(st, b, t2);
      var e1 := DayNumber(t1) - DayNumber(b);
      if e1 > 0 {
        ParseFormat(t1);
        AutoRollFrom(s1, t1, t2);
        if DayNumber(t1) == DayNumber(t2) {
          DayNumberInjective(t1, t2);
        } else {
          AdvanceCompose(st, e1 as nat, (DayNumber(t2) - DayNumber(t1)) as nat);
        }
      }
  }

  /** Rolling forward by hand and then opening the page on a day after the
      old `baseDate` ends where opening the page alone would: the manual
      roll counts as one of the elapsed days. */
  lemma RollForwardThenAutoRoll(st: FinancialState, today: Date)
    requires Valid(today) && RollForward(st).Some?
    requires DaysBetween(st.baseDate, Format(today)).Some?
    requires DaysBetween(st.baseDate, Format(today)).value >= 1
    ensures AutoRoll(RollForward(st).value, today) == AutoRoll(st, today)
  {
    var b := Parse(st.baseDate).value;
    var r := RollForward(st).value;
    ParseFormat(Succ(b));
    DaysBetweenFormatted(Succ(b), today);
    ParseFormat(today);
    var e := DaysBetween(st.baseDate, Format(today)).value;
    if e == 1 {
      DayNumberInjective(Succ(b), today);
      assert r.baseDate == Format(today);
    } else {
      AdvanceCompose(st, 1, (e - 1) as nat);
    }
  }

  /** Every transition keeps the lists, and with them the invariant. */
  lemma RollKeepsWellFormed(st: FinancialState, today: Date)
    requires Valid(today) && WellFormed(st)
    ensures WellFormed(AutoRoll(st, today))
    ensures RollForward(st).Some? ==> WellFormed(RollForward(st).value)
  {
  }
}

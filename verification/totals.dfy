/** The figures the page derives from the window: the amount each day's
    cells add up to over the configured streams, the three days together,
    and today's progress against the daily goal as a whole percentage. */
module Totals {
  import opened Text
  import opened Amount
  import opened Financials
  import opened Rollover

  /** The amount in one cell; an empty cell is worth nothing. */
  function CellAmount(slot: Slot, stream: string): (r: real)
    ensures stream !in slot ==> r == 0.0
  {
    ExtractAmount(Cell(slot, stream))
  }

  /** A day's total: the amounts of the listed streams' cells, added left
      to right as `reduce` does. Keys of the slot that name no listed stream
      are never looked at. */
  function DayTotal(streams: seq<string>, slot: Slot): real {
    if |streams| == 0 then 0.0
    else DayTotal(streams[..|streams| - 1], slot) + CellAmount(slot, streams[|streams| - 1])
  }

  /** The three day totals together. */
  function ThreeDayTotal(st: FinancialState): real {
    DayTotal(st.streams, st.today) + DayTotal(st.streams, st.tomorrow) + DayTotal(st.streams, st.nextDay)
  }

  /** `Math.round`: to the nearest integer, halves upwards. */
  function Round(x: real): (n: int)
    ensures n as real - 0.5 <= x < n as real + 0.5
  {
    (x + 0.5).Floor
  }

  /** Progress against a goal in whole percent: nothing when the goal is
      zero or less, otherwise the rounded ratio capped at 100. A negative
      total gives a negative percentage; only the top is capped. */
  function GoalPercent(total: real, goal: real): (p: int)
    ensures p <= 100
    ensures goal <= 0.0 ==> p == 0
    ensures goal > 0.0 && total >= goal ==> p == 100
    ensures goal > 0.0 && total < goal ==>
      p as real - 0.5 <= total * 100.0 / goal < p as real + 0.5
    ensures goal > 0.0 && total >= 0.0 ==> p >= 0
  {
    if goal > 0.0 then
      var q := total / goal * 100.0;
      var n := Round(q);
      RatioBounds(total, goal);
      if n < 100 then n else 100
    else 0
  }

  /** Today's progress against the daily goal as the page shows it. */
  function TodayPercent(st: FinancialState): (p: int)
    ensures p <= 100
    ensures ExtractAmount(st.dailyGoal) <= 0.0 ==> p == 0
  {
    GoalPercent(DayTotal(st.streams, st.today), ExtractAmount(st.dailyGoal))
  }

  lemma RatioBounds(total: real, goal: real)
    requires goal > 0.0
    ensures total / goal * 100.0 == total * 100.0 / goal
    ensures total >= goal ==> total / goal * 100.0 >= 100.0
    ensures total >= 0.0 ==> total / goal * 100.0 >= 0.0
    ensures total < goal ==> total / goal * 100.0 < 100.0
  {
    var q := total / goal;
    assert q * goal == total;
    if total >= goal {
      assert q >= 1.0;
    }
    if total < goal {
      assert q < 1.0;
    }
  }

  /** Capping before rounding gives the same percentage as rounding before
      capping, as the page does. */
  lemma CapThenRound(total: real, goal: real)
    requires goal > 0.0
    ensures var q := total / goal * 100.0;
      GoalPercent(total, goal) == Round(if q < 100.0 then q else 100.0)
  {
    var q := total / goal * 100.0;
    if q >= 100.0 {
      assert Round(100.0) == 100;
    }
  }

  // ---------------------------------------------------------------------------
  // Properties
  // ---------------------------------------------------------------------------

  /** A day total depends only on the listed streams' cells: two slots that
      agree there (missing keys reading as empty) have the same total,
      whatever else they hold. */
  lemma {:induction false} DayTotalOnlyListed(streams: seq<string>, a: Slot, b: Slot)
    requires forall i :: 0 <= i < |streams| ==> Cell(a, streams[i]) == Cell(b, streams[i])
    ensures DayTotal(streams, a) == DayTotal(streams, b)
  {
    if |streams| > 0 {
      DayTotalOnlyListed(streams[..|streams| - 1], a, b);
    }
  }

  /** An empty slot totals nothing. */
  lemma {:induction false} EmptyDayTotal(streams: seq<string>)
    ensures DayTotal(streams, map[]) == 0.0
  {
    if |streams| > 0 {
      EmptyDayTotal(streams[..|streams| - 1]);
    }
  }

  /** Totals over two lists of streams add up. */
  lemma {:induction false} DayTotalAppend(xs: seq<string>, ys: seq<string>, slot: Slot)
    ensures DayTotal(xs + ys, slot) == DayTotal(xs, slot) + DayTotal(ys, slot)
  {
    if |ys| > 0 {
      var ys' := ys[..|ys| - 1];
      assert (xs + ys)[..|xs + ys| - 1] == xs + ys';
      DayTotalAppend(xs, ys', slot);
    } else {
      assert xs + ys == xs;
    }
  }

  /** Editing the cell of a stream listed once moves the day total by the
      difference of the two amounts. */
  lemma {:induction false} DayTotalUpdate(streams: seq<string>, slot: Slot, stream: string, value: string)
    requires NoDup(streams)
    ensures var delta := ExtractAmount(value) - CellAmount(slot, stream);
      DayTotal(streams, slot[stream := value]) ==
        DayTotal(streams, slot) + (if stream in streams then delta else 0.0)
  {
    if |streams| > 0 {
      var init := streams[..|streams| - 1];
      var last := streams[|streams| - 1];
      assert NoDup(init);
      assert stream in streams <==> stream in init || stream == last;
      if stream == last {
        assert stream !in init;
      }
      DayTotalUpdate(init, slot, stream, value);
    }
  }

  /** A list holding one stream totals that stream's cell; with
      `DayTotalAppend` a total is the sum of its streams' amounts. */
  lemma DayTotalSingle(stream: string, slot: Slot)
    ensures DayTotal([stream], slot) == CellAmount(slot, stream)
  {
    assert [stream][..0] == [];
  }

  /** The one-day shift drops exactly today's total from the three days. */
  lemma ShiftDropsToday(st: FinancialState)
    ensures ThreeDayTotal(Shift1(st)) == ThreeDayTotal(st) - DayTotal(st.streams, st.today)
  {
    EmptyDayTotal(st.streams);
  }

  /** After three or more days, or on a fresh window, nothing is planned and
      progress is nil. */
  lemma ClearedWindowTotals(st: FinancialState)
    requires st.today == map[] && st.tomorrow == map[] && st.nextDay == map[]
    ensures ThreeDayTotal(st) == 0.0
    ensures TodayPercent(st) == 0
  {
    EmptyDayTotal(st.streams);
  }
}

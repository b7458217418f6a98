/** The page's edits to its state: adding and removing streams and
    programs, typing into a cell or a program figure, and the confirmed
    reset. Each is a pure function from the previous state. */
module Edits {
  import opened Wrappers
  import opened Text
  import opened Dates
  import opened Amount
  import opened Financials
  import opened Rollover
  import opened Totals

  // ---------------------------------------------------------------------------
  // Name lists
  // ---------------------------------------------------------------------------

  /** Adding a name: the typed text is trimmed; nothing happens if that
      leaves nothing or the name is already listed (exact match); otherwise
      the name goes at the end. */
  function AddName(names: seq<string>, typed: string): (r: seq<string>)
    ensures r == names || r == names + [Trim(typed)]
    ensures r != names <==> Trim(typed) != [] && Trim(typed) !in names
    ensures Trim(typed) != [] ==> Trim(typed) in r
    ensures NoDup(names) ==> NoDup(r)
  {
    var name := Trim(typed);
    if name == [] || name in names then names else names + [name]
  }

  /** Removing a name: every entry equal to it is dropped, the rest keep
      their order. */
  function RemoveName(names: seq<string>, name: string): (r: seq<string>)
    ensures |r| <= |names|
    ensures name !in r
    ensures forall i :: 0 <= i < |r| ==> r[i] in names
    ensures forall i :: 0 <= i < |names| && names[i] != name ==> names[i] in r
  {
    if |names| == 0 then []
    else
      var rest := RemoveName(names[..|names| - 1], name);
      var last := names[|names| - 1];
      if last != name then rest + [last] else rest
  }

  /** On one entry, removing drops it exactly when it is the name. */
  lemma RemoveNameSingle(entry: string, name: string)
    ensures RemoveName([entry], name) == if entry == name then [] else [entry]
  {
    assert [entry][..0] == [];
  }

  /** Removing distributes over concatenation: each part loses its own
      copies of the name and the parts stay in order. With
      `RemoveNameSingle` this pins the result to the order-preserving
      filter of `names`. */
  lemma {:induction false} RemoveNameAppend(a: seq<string>, b: seq<string>, name: string)
    ensures RemoveName(a + b, name) == RemoveName(a, name) + RemoveName(b, name)
  {
    if |b| == 0 {
      assert a + b == a;
    } else {
      var b' := b[..|b| - 1];
      var last := b[|b| - 1];
      assert (a + b)[..|a + b| - 1] == a + b';
      assert (a + b)[|a + b| - 1] == last;
      RemoveNameAppend(a, b', name);
    }
  }

  /** Removing a name that is not there changes nothing. */
  lemma {:induction false} RemoveAbsent(names: seq<string>, name: string)
    requires name !in names
    ensures RemoveName(names, name) == names
  {
    if |names| > 0 {
      var init := names[..|names| - 1];
      assert name !in init by {
        forall i | 0 <= i < |init| ensures init[i] != name {
          assert init[i] == names[i];
        }
      }
      RemoveAbsent(init, name);
    }
  }

  /** Removing keeps a list free of repeats. */
  lemma {:induction false} RemoveKeepsNoDup(names: seq<string>, name: string)
    requires NoDup(names)
    ensures NoDup(RemoveName(names, name))
  {
    if |names| > 0 {
      var init := names[..|names| - 1];
      var last := names[|names| - 1];
      assert NoDup(init);
      RemoveKeepsNoDup(init, name);
      var rest := RemoveName(init, name);
      if last != name {
        assert last !in rest by {
          forall i | 0 <= i < |rest| ensures rest[i] != last {
            assert rest[i] in init;
          }
        }
      }
    }
  }

  /** Adding the same text twice adds it once. */
  lemma AddIdempotent(names: seq<string>, typed: string)
    ensures AddName(AddName(names, typed), typed) == AddName(names, typed)
  {
  }

  /** Removing a name just added restores the list. */
  lemma RemoveUndoesAdd(names: seq<string>, typed: string)
    requires Trim(typed) != [] && Trim(typed) !in names
    ensures RemoveName(AddName(names, typed), Trim(typed)) == names
  {
    var added := names + [Trim(typed)];
    assert added[..|added| - 1] == names;
    RemoveAbsent(names, Trim(typed));
  }

  /** Removing a listed stream drops exactly its cell from each day
      total. */
  lemma {:induction false} RemoveStreamTotal(streams: seq<string>, slot: Slot, name: string)
    requires NoDup(streams)
    ensures DayTotal(RemoveName(streams, name), slot) ==
      DayTotal(streams, slot) - (if name in streams then CellAmount(slot, name) else 0.0)
  {
    if |streams| > 0 {
      var init := streams[..|streams| - 1];
      var last := streams[|streams| - 1];
      assert NoDup(init);
      assert name in streams <==> name in init || name == last;
      if name == last {
        assert name !in init;
      }
      RemoveStreamTotal(init, slot, name);
      var rest := RemoveName(init, name);
      if last != name {
        assert (rest + [last])[..|rest + [last]| - 1] == rest;
      }
    }
  }

  // ---------------------------------------------------------------------------
  // State edits
  // ---------------------------------------------------------------------------

  /** Adding a revenue stream touches the stream list only. */
  function AddStream(st: FinancialState, typed: string): (r: FinancialState)
    ensures r.(streams := st.streams) == st
    ensures r.streams == AddName(st.streams, typed)
  {
    st.(streams := AddName(st.streams, typed))
  }

  /** Removing a revenue stream touches the stream list only; its cells
      stay in the slots, unread. */
  function RemoveStream(st: FinancialState, name: string): (r: FinancialState)
    ensures r.(streams := st.streams) == st
    ensures r.streams == RemoveName(st.streams, name)
  {
    st.(streams := RemoveName(st.streams, name))
  }

  /** Adding a program touches the program list only. */
  function AddProgram(st: FinancialState, typed: string): (r: FinancialState)
    ensures r.(programs := st.programs) == st
    ensures r.programs == AddName(st.programs, typed)
  {
    st.(programs := AddName(st.programs, typed))
  }

  /** Removing a program touches the program list only; its figures stay
      in `programData`. */
  function RemoveProgram(st: FinancialState, name: string): (r: FinancialState)
    ensures r.(programs := st.programs) == st
    ensures r.programs == RemoveName(st.programs, name)
  {
    st.(programs := RemoveName(st.programs, name))
  }

  /** Typing into a cell: one key of one day's slot takes the text; every
      other key, every other day and every other field stay as they were. */
  function UpdateCell(st: FinancialState, day: Day, stream: string, value: string): (r: FinancialState)
    ensures SameSettings(r, st) && r.baseDate == st.baseDate
    ensures SlotOf(r, day).Keys == SlotOf(st, day).Keys + {stream}
    ensures Cell(SlotOf(r, day), stream) == value
    ensures forall k :: k != stream ==> Cell(SlotOf(r, day), k) == Cell(SlotOf(st, day), k)
    ensures forall d :: d != day ==> SlotOf(r, d) == SlotOf(st, d)
  {
    match day
    case Today => st.(today := st.today[stream := value])
    case Tomorrow => st.(tomorrow := st.tomorrow[stream := value])
    case NextDay => st.(nextDay := st.nextDay[stream := value])
  }

  /** The four program figures the page edits. */
  datatype Field = Monthly | Enrolled | Here | Gone

  function FieldOf(p: ProgramData, f: Field): string {
    match f
    case Monthly => p.monthly
    case Enrolled => p.enrolled
    case Here => p.here
    case Gone => p.gone
  }

  /** A program's figures, all empty when none have been typed yet. */
  function FiguresOf(st: FinancialState, program: string): ProgramData {
    if program in st.programData then st.programData[program] else EmptyProgram
  }

  /** Typing a program figure: the program's entry (created empty if
      missing) takes the text in one field; its other fields, the other
      programs and the rest of the state stay as they were. */
  function UpdateProgram(st: FinancialState, program: string, field: Field, value: string): (r: FinancialState)
    ensures r.(programData := st.programData) == st
    ensures r.programData.Keys == st.programData.Keys + {program}
    ensures FieldOf(r.programData[program], field) == value
    ensures forall f :: f != field ==> FieldOf(r.programData[program], f) == FieldOf(FiguresOf(st, program), f)
    ensures forall p :: p in st.programData && p != program ==> r.programData[p] == st.programData[p]
  {
    var existing := FiguresOf(st, program);
    var updated :=
      match field
      case Monthly => existing.(monthly := value)
      case Enrolled => existing.(enrolled := value)
      case Here => existing.(here := value)
      case Gone => existing.(gone := value);
    st.(programData := st.programData[program := updated])
  }

  /** The reset button. The first press only arms it; a confirmed press
      starts a fresh state on `today` that keeps the two lists and the
      name. */
  function Reset(st: FinancialState, confirmed: bool, today: Date): (r: FinancialState)
    requires Valid(today)
    ensures !confirmed ==> r == st
    ensures confirmed ==> r.streams == st.streams && r.programs == st.programs && r.completedBy == st.completedBy
    ensures confirmed ==> r.dailyGoal == "" && r.monthGoal == "" && r.programData == map[]
    ensures confirmed ==> r.today == map[] && r.tomorrow == map[] && r.nextDay == map[]
    ensures confirmed ==> Parse(r.baseDate) == Some(today)
  {
    if !confirmed then st
    else DefaultState(today).(streams := st.streams, programs := st.programs, completedBy := st.completedBy)
  }

  // ---------------------------------------------------------------------------
  // Properties
  // ---------------------------------------------------------------------------

  /** The new text replaces the old: two edits of the same cell leave the
      second. */
  lemma UpdateCellLastWins(st: FinancialState, day: Day, stream: string, v1: string, v2: string)
    ensures UpdateCell(UpdateCell(st, day, stream, v1), day, stream, v2) == UpdateCell(st, day, stream, v2)
  {
  }

  /** Edits of different cells do not interfere. */
  lemma UpdateCellCommutes(st: FinancialState, d1: Day, s1: string, v1: string, d2: Day, s2: string, v2: string)
    requires d1 != d2 || s1 != s2
    ensures UpdateCell(UpdateCell(st, d1, s1, v1), d2, s2, v2) == UpdateCell(UpdateCell(st, d2, s2, v2), d1, s1, v1)
  {
    if d1 == d2 {
      var m := SlotOf(st, d1);
      assert m[s1 := v1][s2 := v2] == m[s2 := v2][s1 := v1];
    }
  }

  /** Typing into a listed stream's cell moves that day's total by the
      change in its amount and leaves the other days' totals alone. */
  lemma UpdateCellTotal(st: FinancialState, day: Day, stream: string, value: string)
    requires WellFormed(st) && stream in st.streams
    ensures DayTotal(st.streams, SlotOf(UpdateCell(st, day, stream, value), day)) ==
      DayTotal(st.streams, SlotOf(st, day)) + ExtractAmount(value) - CellAmount(SlotOf(st, day), stream)
  {
    DayTotalUpdate(st.streams, SlotOf(st, day), stream, value);
  }

  /** Pressing a confirmed reset twice is pressing it once. */
  lemma ResetIdempotent(st: FinancialState, today: Date)
    requires Valid(today)
    ensures Reset(Reset(st, true, today), true, today) == Reset(st, true, today)
  {
  }

  /** After a reset nothing is planned and opening the page the same day
      rolls nothing. */
  lemma ResetIsFresh(st: FinancialState, today: Date)
    requires Valid(today)
    ensures ThreeDayTotal(Reset(st, true, today)) == 0.0
    ensures TodayPercent(Reset(st, true, today)) == 0
    ensures AutoRoll(Reset(st, true, today), today) == Reset(st, true, today)
  {
    var r := Reset(st, true, today);
    ClearedWindowTotals(r);
    FormatParse(r.baseDate);
    DaysBetweenFormatted(today, today);
  }

  // ---------------------------------------------------------------------------
  // The page as a whole
  // ---------------------------------------------------------------------------

  /** Everything the user can do to the state, and the page opening on a
      new day. */
  datatype Action =
    | AddStreamAction(typed: string)
    | RemoveStreamAction(name: string)
    | AddProgramAction(typed: string)
    | RemoveProgramAction(name: string)
    | EditCell(day: Day, stream: string, value: string)
    | EditProgram(program: string, field: Field, value: string)
    | EditDailyGoal(value: string)
    | EditMonthGoal(value: string)
    | EditCompletedBy(value: string)
    | RollForwardAction
    | ResetAction(confirmed: bool)
    | Reopen

  /** One action on day `today`. A roll forward that cannot compute the
      next day leaves the state alone. */
  function Apply(st: FinancialState, a: Action, today: Date): FinancialState
    requires Valid(today)
  {
    match a
    case AddStreamAction(typed) => AddStream(st, typed)
    case RemoveStreamAction(name) => RemoveStream(st, name)
    case AddProgramAction(typed) => AddProgram(st, typed)
    case RemoveProgramAction(name) => RemoveProgram(st, name)
    case EditCell(day, stream, value) => UpdateCell(st, day, stream, value)
    case EditProgram(program, field, value) => UpdateProgram(st, program, field, value)
    case EditDailyGoal(value) => st.(dailyGoal := value)
    case EditMonthGoal(value) => st.(monthGoal := value)
    case EditCompletedBy(value) => st.(completedBy := value)
    case RollForwardAction => (match RollForward(st) case Some(n) => n case None => st)
    case ResetAction(confirmed) => Reset(st, confirmed, today)
    case Reopen => AutoRoll(st, today)
  }

  /** No action lists a stream or a program twice that was listed once. */
  lemma ApplyKeepsWellFormed(st: FinancialState, a: Action, today: Date)
    requires Valid(today) && WellFormed(st)
    ensures WellFormed(Apply(st, a, today))
  {
    match a
    case RemoveStreamAction(name) => RemoveKeepsNoDup(st.streams, name);
    case RemoveProgramAction(name) => RemoveKeepsNoDup(st.programs, name);
    case _ =>
  }

  /** Run a sequence of actions, all on day `today`. */
  function Run(st: FinancialState, actions: seq<Action>, today: Date): FinancialState
    requires Valid(today)
  {
    if |actions| == 0 then st else Apply(Run(st, actions[..|actions| - 1], today), actions[|actions| - 1], today)
  }

  /** Starting from the default state, no sequence of actions ever lists a
      stream or a program twice. */
  lemma {:induction false} RunKeepsWellFormed(actions: seq<Action>, today: Date)
    requires Valid(today)
    ensures WellFormed(Run(DefaultState(today), actions, today))
  {
    if |actions| > 0 {
      RunKeepsWellFormed(actions[..|actions| - 1], today);
      ApplyKeepsWellFormed(Run(DefaultState(today), actions[..|actions| - 1], today), actions[|actions| - 1], today);
    }
  }
}

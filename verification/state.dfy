/** The page's saved state: goals, the configured stream and program lists,
    the rolling window of three day slots, the per-program figures, the date
    the window starts on, and who filled it in. Every field is free text as
    the user typed it; amounts are read out of it only when totals are
    computed. */
module Financials {
  import opened Wrappers
  import opened Text
  import opened Dates

  /** One day of the window: revenue stream name to the text typed in its
      cell. A stream with no entry has an empty cell. */
  type Slot = map<string, string>

  /** The four figures kept per program. */
  datatype ProgramData = ProgramData(monthly: string, enrolled: string, here: string, gone: string)

  /** What a program's figures start as before anything is typed. */
  const EmptyProgram := ProgramData("", "", "", "")

  datatype FinancialState = FinancialState(
    dailyGoal: string,
    monthGoal: string,
    streams: seq<string>,
    programs: seq<string>,
    today: Slot,
    tomorrow: Slot,
    nextDay: Slot,
    programData: map<string, ProgramData>,
    baseDate: string,
    completedBy: string)

  /** The three slots of the window, in day order. */
  datatype Day = Today | Tomorrow | NextDay

  const DefaultStreams: seq<string> := [
    "Enrollments",
    "Upgrades",
    "Post-dates",
    "Seminars",
    "Equipment",
    "Promotions / BB Test",
    "T-Shirts / Hoodies",
    "Kickboxing",
    "Online Reg.",
    "Krav Maga"
  ]

  const DefaultPrograms: seq<string> := ["Martial Arts", "Kickboxing"]

  /** No name is listed twice. */
  predicate NoDup(s: seq<string>) {
    forall i, j :: 0 <= i < j < |s| ==> s[i] != s[j]
  }

  /** The invariant the page's own edits keep: stream and program lists
      without repeats. */
  predicate WellFormed(st: FinancialState) {
    NoDup(st.streams) && NoDup(st.programs)
  }

  /** The slot a day names. */
  function SlotOf(st: FinancialState, day: Day): Slot {
    match day
    case Today => st.today
    case Tomorrow => st.tomorrow
    case NextDay => st.nextDay
  }

  /** The text in one cell; a stream with no entry reads as empty text. */
  function Cell(slot: Slot, stream: string): string {
    if stream in slot then slot[stream] else ""
  }

  /** Everything but the window and its start date: the goals, the lists,
      the program figures and the name. */
  predicate SameSettings(a: FinancialState, b: FinancialState) {
    && a.dailyGoal == b.dailyGoal
    && a.monthGoal == b.monthGoal
    && a.streams == b.streams
    && a.programs == b.programs
    && a.programData == b.programData
    && a.completedBy == b.completedBy
  }

  /** A fresh state on day `today`: no goals, the default lists, an empty
      window starting today, no program figures. */
  function DefaultState(today: Date): (st: FinancialState)
    requires Valid(today)
    ensures WellFormed(st)
    ensures st.today == map[] && st.tomorrow == map[] && st.nextDay == map[]
    ensures st.programData == map[]
    ensures Parse(st.baseDate) == Some(today)
  {
    DefaultListsDistinct();
    ParseFormat(today);
    FinancialState("", "", DefaultStreams, DefaultPrograms, map[], map[], map[], map[], Format(today), "")
  }

  /** Neither default list repeats a name (`Kickboxing` is in both, once
      each). */
  lemma DefaultListsDistinct()
    ensures NoDup(DefaultStreams) && NoDup(DefaultPrograms)
  {
  }
}

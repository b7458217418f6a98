# Daily Web / Financials — a Dafny model of the page's state logic

The page is a single-screen goal tracker. A business enters a daily and a
monthly revenue goal. It types planned amounts per revenue stream into a
rolling window of three days (today, tomorrow, the day after) and keeps four
figures per enrollment program. The state lives in the browser's storage and
is anchored at a `baseDate`. Opening the page on a later day moves the
window on by the days elapsed; a button moves it on by exactly one day.
Totals are computed by reading a dollar amount out of whatever text a cell
holds.

The model is functional: the state is an immutable datatype, each handler is a
pure function from the previous state, and "today" is a parameter.

| file | module | what it holds |
|---|---|---|
| `wrappers.dfy` | `Wrappers` | `Option` |
| `text.dfy` | `Text` | ASCII digits and their values, zero-padded rendering, JavaScript whitespace and `trim`, character filters |
| `dates.dfy` | `Dates` | proleptic Gregorian dates, day numbers, the successor day, `YYYY-MM-DD` text (ISO 8601:2004 section 4.1.2.2, extended calendar-date format), `daysBetween` |
| `amount.dfy` | `Amount` | `parseFloat` as a longest-literal-prefix reader, the parenthesised-number match, the last-number scan, `extractAmount` |
| `state.dfy` | `Financials` | `ProgramData`, `FinancialState`, the default lists, `getDefaultState`, the no-repeats invariant |
| `rollover.dfy` | `Rollover` | the load-time auto-roll, the storage fallback, the manual roll forward |
| `totals.dfy` | `Totals` | day totals, the three-day total, `Math.round`, the capped goal percentage |
| `edits.dfy` | `Edits` | adding and removing streams and programs, cell and program edits, reset, and every action together |

Three behaviours of the code that the model keeps as written:

- The second reading in `extractAmount` (app/page.tsx:95-97) is `parseFloat`.
  It reads the longest numeric prefix of the cleaned text and ignores the
  rest, so `12abc` is worth 12. `Amount.ParseFloat` is that prefix reader.
- The goal percentage (app/page.tsx:223) is rounded first and capped at 100
  afterwards. `Totals.CapThenRound` proves that capping first would give the
  same number.
- The roll-forward updater (app/page.tsx:283-292) calls `toISOString` on the
  day after `baseDate`. When `baseDate` is not a date, that call throws and
  the updater produces no new state. `Rollover.RollForward` returns `None`
  there.

## Model

| member | source | states |
|---|---|---|
| Text.TrimEmptyIffBlank | app/page.tsx:90 | `text.trim()` is empty exactly when the text is empty or all whitespace |
| Text.TrimIsCore | app/page.tsx:253 | trimming removes whitespace only, and only from the two ends |
| Text.TrimIdempotent | app/page.tsx:253 | a trimmed name trims to itself |
| Dates.Succ | app/page.tsx:284-285 | the next calendar day is a real day exactly one day number later, across month and year ends; only 9999-12-31 has no four-digit successor |
| Dates.DayNumberInjective | app/page.tsx:113-117 | different days have different day numbers |
| Dates.DayNumberOrder | app/page.tsx:113-117 | day numbers follow calendar order |
| Dates.ParseFormat | app/page.tsx:291 | a formatted `YYYY-MM-DD` date reads back as the same date |
| Dates.FormatParse | app/page.tsx:113-115 | a string that reads as a date is that date's only spelling |
| Dates.DaysBetween | app/page.tsx:113-117 | there is an elapsed count exactly when both strings are dates (otherwise NaN) |
| Dates.DaysBetweenFormatted | app/page.tsx:113-117 | between two formatted days the count is the difference of their day numbers |
| Dates.DaysBetweenSucc | app/page.tsx:113-117 | a day and its successor are one day apart |
| Amount.ReadLiteralIsLongest | app/page.tsx:96 | `parseFloat` reads the longest prefix that is a decimal literal and returns that literal's value; NaN exactly when no prefix is one |
| Amount.ParseFloatOfLiteral | app/page.tsx:93 | a text that is all one literal reads as its value |
| Amount.ParseFloatNeedsDigit | app/page.tsx:96-97 | text with no digit is NaN |
| Amount.ParseFloatNegative | app/page.tsx:96-97 | a negative reading needs a leading minus sign |
| Amount.FirstParenGroupNone | app/page.tsx:92 | no group is captured exactly when no `(number)` occurs anywhere |
| Amount.ParenGroupFromFinds | app/page.tsx:92 | the leftmost `(number)` is the one captured |
| Amount.GroupValue | app/page.tsx:93 | a parenthesised number is worth zero or more |
| Amount.GroupValueIsLiteral | app/page.tsx:93 | the captured group with its commas removed is a decimal literal, and the group is worth that literal's value |
| Amount.LastNumberIsLast | app/page.tsx:99-100 | there is a last number exactly when the text has a digit, and it ends at the text's last digit |
| Amount.MatchLengthIsLongest | app/page.tsx:99 | the match at a digit is greedy: no longer stretch from there is a `\d+(?:\.\d+)?` token |
| Amount.NumberEndIsLongest | app/page.tsx:99 | the same greediness for a match starting anywhere in the text |
| Amount.ScanShift | app/page.tsx:99 | global matching resumed at a position sees only the text from there on |
| Amount.LastNumberStep | app/page.tsx:99-100 | the first match starts at the first digit and is the longest token there; matching resumes right after it, and the last match is the rest's last match, or this one when no digit follows; with the greediness lemma this fixes the result on every text |
| Amount.TokenValueIsLiteral | app/page.tsx:100 | the last number is a decimal literal worth its value |
| Amount.LastNumberAmount | app/page.tsx:98-101 | the last-resort reading is never negative |
| Amount.ExtractAmount | app/page.tsx:89-101 | blank text is worth 0; a negative amount only comes from a cleaned text starting with `-`, and only when there is no parenthesised number |
| Amount.ParenthesisedWins | app/page.tsx:92-93 | the first parenthesised number decides, whatever other digits the text holds |
| Amount.CleanedReadingDecides | app/page.tsx:94-97 | without a parenthesised number, a `parseFloat` reading of the cleaned text decides |
| Amount.LastNumberDecides | app/page.tsx:98-100 | when the cleaned text reads as NaN, the last number decides |
| Amount.NoDigitNoAmount | app/page.tsx:89-101 | text with no digit is worth 0 |
| Amount.PlainFigure | app/page.tsx:94-97 | digits with single commas between them (`1,250`) are worth the digits without the commas |
| Amount.DollarFigure | app/page.tsx:94-97 | the same figure after a `$` is worth the same |
| Amount.NegativeFigure | app/page.tsx:94-97 | a minus sign followed by digits (`-5`) is worth the negated digits |
| Amount.FigureAmongWords | app/page.tsx:98-100 | a digit run between digit-free words (`call 3 clients`) is worth that run |
| Amount.LastNumberAmongWords | app/page.tsx:99-100 | the last number of such a text is that digit run |
| Financials.DefaultState | app/page.tsx:119-132 | the fresh state has no repeated names, an empty window, no program figures, and a `baseDate` that reads as today |
| Rollover.Shift1 | app/page.tsx:169-175 | the one-day shift is the window seen one day later |
| Rollover.Roll | app/page.tsx:155-176 | each branch of the transition table is the window seen `elapsed` days later, and nothing outside the window changes |
| Rollover.AutoRoll | app/page.tsx:152-181 | with no elapsed count or with 0 or fewer days the state is unchanged; otherwise the window moves on by the elapsed days, `baseDate` becomes today and nothing else changes |
| Rollover.Load | app/page.tsx:147-184 | with nothing readable stored the state is the default; otherwise the settings are the stored ones and the window is never behind today |
| Rollover.RollForward | app/page.tsx:282-293 | it succeeds exactly when `baseDate` is a date other than 9999-12-31; it is then the one-day shift with `baseDate` one day later, and every other field is unchanged |
| Rollover.ShiftTimesIsAdvance | app/page.tsx:157-175 | `n` one-day shifts are the window seen `n` days later |
| Rollover.RollIsRepeatedShift | app/page.tsx:157-175 | the transition for `e > 0` days is `e` one-day shifts, and every `e >= 3` gives the same clean window |
| Rollover.AdvanceCompose | app/page.tsx:157-175 | moving on by `m` days and then by `n` is moving on by `m + n` |
| Rollover.AdvancePastWindow | app/page.tsx:157-158 | three or more days on, all three slots are empty |
| Rollover.AutoRollIsCurrent | app/page.tsx:152-178 | after the auto-roll the window is never behind today |
| Rollover.AutoRollIdempotent | app/page.tsx:152-181 | loading twice on the same day rolls once |
| Rollover.AutoRollFrom | app/page.tsx:152-178 | from a `baseDate` that reads as day `b`, the auto-roll moves the window on by today minus `b` days when that is positive |
| Rollover.AutoRollSessions | app/page.tsx:152-178 | opening on day `t1` and then on a later day `t2` is the same as opening on `t2` only |
| Rollover.RollForwardThenAutoRoll | app/page.tsx:282-293 | a manual roll followed by a load on a later day ends where the load alone would |
| Rollover.RollKeepsWellFormed | app/page.tsx:152-181 | neither kind of roll introduces repeated names |
| Totals.CellAmount | app/page.tsx:209 | a stream with no entry in the slot is worth 0 |
| Totals.DayTotalOnlyListed | app/page.tsx:206-211 | two slots that agree on the listed streams' cells have the same total; other keys are never read |
| Totals.EmptyDayTotal | app/page.tsx:209 | an empty slot totals 0 |
| Totals.DayTotalAppend | app/page.tsx:207-211 | totals over two lists of streams add up |
| Totals.DayTotalSingle | app/page.tsx:207-211 | one stream totals its own cell |
| Totals.DayTotalUpdate | app/page.tsx:206-211 | editing a listed stream's cell moves the total by the change in amount; editing an unlisted key moves nothing |
| Totals.ShiftDropsToday | app/page.tsx:219 | the one-day shift drops exactly today's total from the three-day total |
| Totals.ClearedWindowTotals | app/page.tsx:219-223 | an empty window totals 0 and shows 0 percent |
| Totals.Round | app/page.tsx:223 | `Math.round` gives the nearest integer, with halves going up |
| Totals.GoalPercent | app/page.tsx:221-223 | the percentage never exceeds 100 and is 0 for a goal of 0 or less. When the total reaches the goal it is 100; below the goal it is the nearest whole percent; it is not negative unless the total is |
| Totals.TodayPercent | app/page.tsx:221-223 | today's percentage is at most 100, and 0 when the daily goal reads as 0 or less |
| Totals.CapThenRound | app/page.tsx:222-223 | capping before rounding gives the same percentage |
| Edits.AddName | app/page.tsx:252-255 | the list is unchanged or gains the trimmed name at the end. It changes exactly when that name is non-empty and new, and a list without repeats stays without repeats |
| Edits.RemoveName | app/page.tsx:260-264 | the name is gone, nothing new appears, and every other entry stays |
| Edits.RemoveNameSingle | app/page.tsx:263 | on one entry, the entry goes exactly when it equals the name |
| Edits.RemoveNameAppend | app/page.tsx:263 | removing from a concatenation removes from each part and keeps the parts in order; with the single-entry case this makes removal the order-preserving `filter` |
| Edits.RemoveAbsent | app/page.tsx:263 | removing an absent name changes nothing |
| Edits.RemoveKeepsNoDup | app/page.tsx:263 | removing keeps a list without repeats |
| Edits.AddIdempotent | app/page.tsx:253-255 | adding the same text twice adds it once |
| Edits.RemoveUndoesAdd | app/page.tsx:252-264 | removing a name just added restores the list |
| Edits.RemoveStreamTotal | app/page.tsx:206-211 | removing a listed stream drops exactly its cell's amount from a day total |
| Edits.AddStream | app/page.tsx:252-258 | only the stream list changes, and it changes as adding a name says |
| Edits.RemoveStream | app/page.tsx:260-265 | only the stream list changes; cells stay in the slots |
| Edits.AddProgram | app/page.tsx:267-273 | only the program list changes, and it changes as adding a name says |
| Edits.RemoveProgram | app/page.tsx:275-280 | only the program list changes; figures stay in `programData` |
| Edits.UpdateCell | app/page.tsx:227-236 | the cell reads the new text; every other key, day and field stays as it was |
| Edits.UpdateProgram | app/page.tsx:238-250 | the program's entry, created empty if missing, gets the new text in one field. Its other fields, the other programs and the rest of the state stay |
| Edits.Reset | app/page.tsx:297-308 | an unconfirmed press changes nothing. A confirmed one clears goals, window and figures and starts the window today, keeping the lists and the name |
| Edits.UpdateCellLastWins | app/page.tsx:232-235 | of two edits to one cell, the second stays |
| Edits.UpdateCellCommutes | app/page.tsx:232-235 | edits to different cells do not interfere |
| Edits.UpdateCellTotal | app/page.tsx:206-211 | editing a listed stream's cell moves that day's total by the change in its amount |
| Edits.ResetIdempotent | app/page.tsx:303-308 | two confirmed resets are one |
| Edits.ResetIsFresh | app/page.tsx:303-308 | after a reset nothing is planned, progress is 0, and loading the same day rolls nothing |
| Edits.ApplyKeepsWellFormed | app/page.tsx:227-308 | no single action introduces a repeated stream or program name |
| Edits.RunKeepsWellFormed | app/page.tsx:119-132 | from the default state, no sequence of actions ever lists a name twice |

## Left out

- React state, effects and rendering. This includes the roll and reset notices, the `mounted` flag and the timers. They are presentation and do not touch the modelled state.
- Browser storage and `JSON.parse`. `Rollover.Load` takes the stored state as an `Option`, with `None` for a missing key or a document that does not parse. A stored document with missing or mistyped fields cannot be represented.
- The wall clock and the locale. `getTodayStr` is replaced by a `today` parameter; `getDateLabel` and `getFullDateStr` only format labels.
- Time zones. The page formats today in UTC but computes elapsed days and the next day at local noon; here all dates are in one calendar.
- `formatCurrency` and the export download, which only present values.
- Amount.ParseFloat: reads no exponent (`1e3`), no `Infinity` and no leading whitespace. Every text it is given here has been stripped of whitespace or starts with a digit.
- IEEE doubles: amounts are exact reals, so rounding and precision of `parseFloat`, sums and `Math.round` are not modelled.
- Dates.Parse: accepts only `YYYY-MM-DD` with a four-digit year and a day that exists in its month. The JavaScript `Date` constructor's lenient readings (unpadded fields, 2023-02-30 rolling over) count as not a date here.
- Dates.DaysBetween: the elapsed count is exact whole days. The page's rounding of a noon-to-noon difference across a daylight-saving change is not modelled.
- Rollover.RollForward: returns `None` for 9999-12-31. JavaScript would go on to the expanded year format `+010000-01-01`.
- Object keys inherited from JavaScript's prototype, such as a stream named `toString`. In the page such a name reads an inherited function from an empty slot, and `extractAmount` then throws. Maps here have only the keys put in them.
- Edits.UpdateProgram: the field is one of the four the page passes (`monthly`, `enrolled`, `here`, `gone`). An arbitrary field name would add a fifth property.
- Edits.AddName: the page tests for a duplicate against the list at render time and appends to the list current at update time. The model takes them to be the same list, one update at a time.
- The help dialog and the page layout, which hold no logic.

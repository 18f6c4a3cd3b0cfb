# Dinner planner: a verified model of the cooking-plan component

The dinner planner shows a cooking plan as a Gantt chart. Each step of a
recipe is a bar. Steps are grouped into one lane per recipe (the step's
`parent`), and overlapping steps of a lane are stacked into rows. Beside the
chart sit four more pieces:

- a play/pause/jump clock whose playhead moves over the chart;
- a bank of kitchen timers counting down or up;
- a list of people, who can be made responsible for single steps or whole lanes;
- a short list of pinned steps.

This project models the state logic of that component (`src/App.tsx`) in
Dafny and proves what it promises. There is one module per concern:

| module | file | what it models |
|---|---|---|
| `Schedule` | `schedule.dfy` | Grouping steps by parent, name order of lanes, sorting by (start, duration), the first-fit row packer, and the lane list. Also proves that the row count equals the largest number of steps running at one instant. |
| `Layout` | `layout.dfy` | The `yCursor` loop that stacks lanes vertically, lane height, and chart height. |
| `Clock` | `clock.dfy` | The playhead clock: the transition functions and a `PlayClock` class holding the mutable cells. |
| `Timers` | `timers.dfy` | The timer bank: tick, start, stop, clear, field edits, remove, add and reset-all. |
| `Assignments` | `assignments.dfy` | Step-to-people assignments: per-step toggle, per-lane bulk toggle, person removal and person creation. |
| `Pinned` | `pinned.dfy` | The pinned-steps list: pin to front without duplicates, capped at three, and unpin. |
| `Text` | `text.dfy` | Decimal rendering, `fmtMMSS`, `fmtDuration`, and the numbered labels ("t4", "p3") used as ids. |
| `Common` | `common.dfy` | Distinctness of a sequence (applied to the id lists of timers, people and pinned steps) and integer maximum and minimum. |

Each piece takes the form the code has:

- **Loops become methods.** The code's loops over mutable locals are methods with loops and invariants, each proved against a specification function or predicate:
  - the grouping loop, the row packer and its inner scan, and the lane loop;
  - the `yCursor` loop;
  - the `toggleAssignLane` and `removePerson` loops;
  - the pin `pop` loop.
- **The clock is a class.** Its state cells are a class whose methods update the fields.
- **Everything else is functions.** The timer operations, the one-step toggle and the formatters are expressions in the code, so they are pure functions.

Times in minutes are Dafny `real`s, and counts and pixel values are `int`/`nat`.

Three behaviours of the code are worth stating up front:

- **A countdown can run at zero.** `startTimer` starts a countdown whose fields read 0:00 with zero seconds left, and it stops on the next tick (`Timers.ZeroCountdownExpiresAtOnce`).
- **A double lane toggle does not always restore.** Toggling a lane twice restores the original assignments only for a lane where everyone or no one has the person. `Assignments.LaneToggleTwice` proves exactly that equivalence.
- **Pause keeps a stale elapsed time.** The animation hook keeps its last elapsed value after the clock stops, so a later pause or start reuses it (see Findings).

## Model

| member | source | states |
|---|---|---|
| Schedule.SortNames | src/App.tsx:285 | The name sort returns the same names as a multiset; `SortNamesCorrect` proves the order. |
| Schedule.SortNamesCorrect | src/App.tsx:285 | The lane names come out strictly increasing in lexicographic order, as a permutation of the distinct parent names. |
| Schedule.SortSteps | src/App.tsx:290 | The step sort returns the same steps as a multiset; `SortStepsCorrect` proves the order. |
| Schedule.SortStepsCorrect | src/App.tsx:290 | A lane's steps are sorted by start and then by duration, with the same steps as a multiset. |
| Schedule.InLaneOfParent | src/App.tsx:280-284 | A step is in its parent's group exactly when it is in the plan. |
| Schedule.NoLaneWithoutParent | src/App.tsx:280-284 | A name that is no step's parent has an empty group. |
| Schedule.GroupByParent | src/App.tsx:280-284 | The grouping loop returns the parents in the order their first step appears in the plan (`FirstSeen`, the key order of the `Map`), each once, and a map with exactly the parents as keys. Each parent maps to its steps in plan order. |
| Schedule.FirstSeenOrder | src/App.tsx:280-284 | Of two parents in first-seen order, the earlier one has a step in the plan before any step of the later one. |
| Schedule.FirstFreeRow | src/App.tsx:296-299 | The scan returns the first row whose recorded end is not after the step's start, or -1 when every row ends after it. |
| Schedule.PackLane | src/App.tsx:291-303 | The packer places the lane's steps in input order. The placement satisfies the first-fit rule with the final row count, and the row count is at most the number of steps. |
| Schedule.FirstFitIsValidPacking | src/App.tsx:293-303 | With positive durations, two steps placed in the same row never overlap as half-open intervals [start, start+duration). Every row index is below the row count. |
| Schedule.RowCountIsMaxOverlap | src/App.tsx:287 | For steps sorted by start, the first-fit row count equals the largest number of steps running at one instant. |
| Schedule.FirstFitUsesFewestRows | src/App.tsx:287 | No valid stacking of the same steps uses fewer rows than first fit. |
| Schedule.PackParent | src/App.tsx:290-303 | One lane holds its parent's steps, sorted and packed first-fit, not yet placed vertically. |
| Schedule.AppendLane | src/App.tsx:289-304 | One `forEach` iteration appends the parent's packed lane. |
| Schedule.PackLanes | src/App.tsx:288-306 | The lane loop yields one packed lane per parent, in the given order. |
| Schedule.BuildLanes | src/App.tsx:278-307 | The lane list names every parent exactly once, in strictly increasing name order, and every lane is packed. |
| Schedule.LaneHoldsItsSteps | src/App.tsx:290-302 | A lane's output steps are exactly the plan's steps with its parent: a permutation of them, sorted by (start, duration). |
| Schedule.LaneRowsAreMaxOverlap | src/App.tsx:287-304 | A lane's `rows` is the maximum number of its steps running at once, and its stacking is valid. |
| Layout.LaneHeight | src/App.tsx:325 | A lane is at least its rows' height plus both paddings, and with at least one row it is `rows*(48+6) - 6 + 2*12`: one gap between each pair of rows. |
| Layout.LayoutLanes | src/App.tsx:323-330 | Lanes keep their contents and get height `rows*48 + max(0, rows-1)*6 + 2*12`. The first lane starts at 0 and each next lane starts where the previous ends. `chartHeight` is the total height plus 80. |
| Layout.LaneHeightGrows | src/App.tsx:325 | A lane is at least its padding tall, and each extra row adds a row height plus a gap after the first. |
| Layout.LanesDoNotOverlap | src/App.tsx:323-329 | A placed lane ends at or above the top of every later lane. |
| Layout.BarsFitInLane | src/App.tsx:494 | A bar's top offset `12 + row*(48+6)` keeps it inside its lane's padding, and bars of different rows do not overlap vertically. |
| Layout.ChartCoversLanes | src/App.tsx:330 | Every lane lies between the top of the chart body and `chartHeight - 80`. |
| Clock.CurrentMin | src/App.tsx:155 | A stopped clock shows its base, and a clock whose elapsed time is not negative shows at least its base. |
| Clock.AfterFrame | src/App.tsx:89-91 | A frame keeps the base and the playing flag. A playing clock then shows its base plus the frame's milliseconds in minutes, and a stopped clock shows what it showed before. |
| Clock.AfterStart | src/App.tsx:376 | The corrected start leaves the clock playing with its base and displayed minute unchanged. |
| Clock.AfterPause | src/App.tsx:377 | The corrected pause leaves the clock stopped with its displayed minute unchanged. A playing clock commits its elapsed minutes to the base, and a stopped clock is left as it is. |
| Clock.AfterStartAsWritten | src/App.tsx:376 | Start as written makes the clock play from its base, showing the base plus whatever elapsed time the hook still holds. |
| Clock.AfterPauseAsWritten | src/App.tsx:377 | Pause as written stops the clock showing its base plus the hook's last elapsed time, whether or not it was playing. |
| Clock.AfterReset | src/App.tsx:378 | Reset stops the clock at minute 0 and leaves the hook's elapsed time as it was. |
| Clock.AfterJump | src/App.tsx:379-382 | A NaN jump changes nothing. A numeric jump stops the clock at a minute that is at least 0 and at least the number, and leaves the hook's elapsed time as it was. |
| Clock.InitialIsValid | src/App.tsx:150-151 | The clock starts stopped at minute 0 with nothing negative. |
| Clock.TransitionsKeepValid | src/App.tsx:376-382 | Every transition keeps base and elapsed time non-negative, so the displayed minute is never negative. |
| Clock.JumpShowsTarget | src/App.tsx:379-382 | A numeric jump stops the clock showing `max(0, v)`. |
| Clock.JumpIgnoresNaN | src/App.tsx:380-381 | A jump whose text is not a number changes nothing. |
| Clock.ResetShowsZero | src/App.tsx:378 | Reset stops the clock at minute 0. |
| Clock.PauseCommitsElapsed | src/App.tsx:377 | Pausing a playing clock adds `elapsedMs / 60000` to the base, as written and as intended alike. |
| Clock.PauseKeepsMinute | src/App.tsx:377 | With the corrected pause, the displayed minute does not move, the clock is stopped, and a second pause changes nothing. |
| Clock.StartKeepsMinute | src/App.tsx:376 | With the corrected start, the clock plays and the displayed minute does not move. |
| Clock.RunAdvancesByElapsed | src/App.tsx:155 | A run of `ms` milliseconds from a stopped clock advances the displayed minute by `ms / 60000`, before and after the pause. |
| Clock.StalePauseAsWritten | src/App.tsx:377 | As written, a second pause or a pause after reset re-adds the last run's half minute. The corrected pause does not. |
| Clock.StaleStartAsWritten | src/App.tsx:376 | As written, restarting after a pause shows the previous run's time twice until the first frame. The corrected start does not. |
| Clock.PlayClock.constructor | src/App.tsx:150-151 | A new clock is in the initial state. |
| Clock.PlayClock.Frame | src/App.tsx:89-91 | An animation frame sets the elapsed milliseconds of a playing clock. |
| Clock.PlayClock.Start | src/App.tsx:376 | Start moves the state by the corrected start transition and keeps the displayed minute. |
| Clock.PlayClock.Pause | src/App.tsx:377 | Pause moves the state by the corrected pause transition and keeps the displayed minute. |
| Clock.PlayClock.Reset | src/App.tsx:378 | Reset stops the clock and zeroes the base. |
| Clock.PlayClock.Jump | src/App.tsx:379-382 | Jump applies the jump transition. |
| Timers.TickOne | src/App.tsx:169-181 | A tick of one timer changes only its count and flags (id, name, fields and mode are kept), and keeps a consistent timer consistent. `TickOneCases` gives every case. |
| Timers.StartOne | src/App.tsx:192-204 | Start leaves the timer running and not cleared, resumes a timer with time left at that time, and keeps id, name, fields and mode. `StartCases` gives the reload values. |
| Timers.ApplyOne | src/App.tsx:187-209 | A field edit or button never changes a timer's id, and an admissible one keeps a consistent timer consistent. Stop only stops the timer; clear only stops it, zeroes it and marks it cleared; each field edit changes only its own field. Start is `StartOne`. |
| Timers.Update | src/App.tsx:187-188 | A per-id operation keeps the bank's ids, in order. `UpdateIsLocal` states which timers change. |
| Timers.TickOneCases | src/App.tsx:169-181 | A tick leaves stopped timers alone. A count-up gains 1 and keeps running. A countdown goes to `max(0, remaining-1)`; at 0 it stops expired (not cleared), otherwise it keeps running and its cleared flag. |
| Timers.CountdownExpires | src/App.tsx:176-180 | A running countdown with n seconds left loses one second per tick and runs for n ticks. It is then stopped at 0 and expired. |
| Timers.StoppedStays | src/App.tsx:170 | Any number of ticks leaves a stopped timer unchanged. |
| Timers.CountUpGrows | src/App.tsx:171-174 | k ticks add exactly k seconds to a running count-up, which never stops by itself. |
| Timers.Tick | src/App.tsx:166-181 | The bank tick keeps the ids in order and keeps a consistent bank consistent. `TickKeepsIds` shows it applies the one-timer tick in place. |
| Timers.TickKeepsIds | src/App.tsx:168-169 | The bank tick maps every timer in place. |
| Timers.StartCases | src/App.tsx:190-206 | Start always leaves the timer running and not cleared. At 0 a countdown reloads `minutes*60 + min(59, seconds)` and a count-up starts from 0; otherwise it resumes. Nothing else changes. |
| Timers.StopThenStartResumes | src/App.tsx:208 | Stopping and starting again resumes exactly where the timer was. |
| Timers.ClearThenStartReloads | src/App.tsx:209 | After a clear, starting a countdown reloads its full length from the fields. |
| Timers.ZeroCountdownExpiresAtOnce | src/App.tsx:194-203 | A countdown with fields 0:00 starts running at 0 and expires on the next tick. |
| Timers.UpdateIsLocal | src/App.tsx:187-188 | A per-id operation changes exactly the timers with that id, applying the operation to them, and keeps length and id order. |
| Timers.ClearAndResetSettle | src/App.tsx:209-216 | Clear and reset-all leave timers stopped, at 0 and cleared. Reset-all keeps ids and is idempotent. |
| Timers.Remove | src/App.tsx:210 | The filter never lengthens the bank, and no timer left has the removed id. |
| Timers.RemoveKeepsOthers | src/App.tsx:210 | Remove keeps exactly the timers with another id, and is the identity when no timer has the id. |
| Timers.RemoveKeepsOrder | src/App.tsx:210 | Removing from two halves of a bank is removing from each: the timers kept stay in their order. |
| Timers.RemoveKeepsIdsDistinct | src/App.tsx:210 | Removing keeps ids distinct. |
| Timers.RemoveKeepsConsistent | src/App.tsx:210 | Removing keeps every timer consistent (cleared implies stopped at 0; digit-only fields). |
| Timers.UpdateKeepsConsistent | src/App.tsx:187-209 | Every per-id operation with digit-only field text keeps the bank consistent. |
| Timers.ResetAll | src/App.tsx:216 | Reset-all keeps the bank's ids in order. Each timer is stopped, at 0 and cleared, and keeps its name, mode and fields. Consistent timers stay consistent. |
| Timers.OperationsKeepConsistent | src/App.tsx:166-216 | Tick, per-id operations, reset-all, remove and add all keep the bank consistent. |
| Timers.InitialBankConsistent | src/App.tsx:159-163 | The initial bank t1..t3 is consistent with distinct ids. |
| Timers.AddTimer | src/App.tsx:211-215 | The corrected add keeps the bank and appends one cleared, consistent timer whose id is not in use. |
| Timers.AddTimerKeepsIdsDistinct | src/App.tsx:211-215 | The corrected add appends one cleared timer whose id is not in use, keeping ids distinct. |
| Timers.AddTimerAsWritten | src/App.tsx:211-215 | The add as written keeps the bank and appends one cleared, consistent timer. Its id may collide (see Findings). |
| Timers.AddTimerAsWrittenCollides | src/App.tsx:214 | As written, adding after removing "t1" creates a second "t3", and starting "t3" starts both. The corrected add keeps ids distinct. |
| Text.FmtMMSS | src/App.tsx:105-110 | The clock text has at least four characters, a ':' third from the end, and two digits after it. `FmtMMSSReadsBack` proves what they read back as. |
| Text.FmtDuration | src/App.tsx:113-119 | The duration text has at least two characters and starts with a digit. `DurationShape` proves the rest of its shape. |
| Text.ParseDecOfDec | src/App.tsx:109 | Reading back the decimal digits of a number gives the number. |
| Text.DecIsCanonical | src/App.tsx:109 | A number's decimal text is non-empty digits without a leading zero. |
| Text.TwoDigitSeconds | src/App.tsx:108-109 | Padded seconds below 60 are exactly two digits that read back as the seconds. |
| Text.FmtMMSSReadsBack | src/App.tsx:105-110 | `fmtMMSS` yields digits, one ':' and two digits below 60. These read back as the displayed whole seconds, floored and clamped at 0. |
| Text.DurationShape | src/App.tsx:113-119 | The duration text is a run of digits followed by " min" when the rounded minutes are under an hour (the digits read back as the minutes), by "h" for whole hours (the digits read back as the hours), and otherwise by "h ", the digits of the remaining minutes and "m". |
| Text.FmtDurationInjective | src/App.tsx:113-119 | Two durations with the same text round to the same number of minutes. |
| Text.FreshLabel | src/App.tsx:214 | The corrected id is a prefixed number above every numbered id in use, so it is not in use. |
| Assignments.Dedup | src/App.tsx:245 | `Array.from(new Set(list))` keeps every id once and the same members, and leaves a list without repeats unchanged. |
| Assignments.Without | src/App.tsx:271 | The filter keeps exactly the other ids, and keeps a list without repeats so. |
| Assignments.AddedDeletedAreSetOperations | src/App.tsx:242-245 | Add and delete on the set act as set union and difference, and leave every id once. |
| Assignments.AddedDeletedIdempotent | src/App.tsx:242-245 | Adding twice is adding once, and deleting twice is deleting once. |
| Assignments.ToggleStep | src/App.tsx:240-247 | The toggled step's set loses the person if present and gains them otherwise. It holds every id once, and every other step is unchanged. |
| Assignments.ToggleStepTwiceRestores | src/App.tsx:240-247 | Toggling the same person on the same step twice restores every step's set. |
| Assignments.LaneStepIds | src/App.tsx:253 | The lane's step ids are exactly the ids of the plan's steps with that parent. |
| Assignments.ToggledOnOneMore | src/App.tsx:255-260 | One more loop turn updates just that step from the map built so far. |
| Assignments.ToggleLane | src/App.tsx:250-263 | The loop builds exactly the bulk-toggled assignment. |
| Assignments.LaneToggleEffect | src/App.tsx:254-260 | If the lane is non-empty and every step lists the person, each step loses them; otherwise each step gains them. Steps outside the lane are unchanged. |
| Assignments.LaneToggleFlips | src/App.tsx:254 | After a bulk toggle of a non-empty lane, "all assigned" is the opposite of what it was. |
| Assignments.LaneToggleTwice | src/App.tsx:250-262 | Toggling a lane twice restores every step's set of people if and only if the lane was uniform: all its steps listed the person, or none did. |
| Assignments.DropPerson | src/App.tsx:267 | The people filter keeps exactly the other people. |
| Assignments.RemovePerson | src/App.tsx:265-276 | The removal drops the person from the list, and rebuilds the assignment with the person filtered out of every entry and entries left empty dropped. |
| Assignments.Unassigned | src/App.tsx:268-275 | The rebuilt assignment keeps only steps of the old one, none of them listing the person and none empty. |
| Assignments.UnassignedCascades | src/App.tsx:268-275 | After removal no step lists the person and no entry is empty. Every step keeps everyone else, and removing again changes nothing. |
| Assignments.AddPerson | src/App.tsx:232-237 | The corrected add keeps the people and appends one person with the given name and an id not in use. |
| Assignments.AddPersonKeepsIdsDistinct | src/App.tsx:232-237 | The corrected add appends a person whose id is not in use, keeping ids distinct. |
| Assignments.AddPersonAsWritten | src/App.tsx:232-237 | The add as written keeps the people and appends one person with the given name. Its id may collide (see Findings). |
| Assignments.AddPersonAsWrittenCollides | src/App.tsx:233 | As written, adding Sam after removing "p1" gives Sam Tiff's id "p2", so removing Sam removes Tiff too. The corrected add keeps them apart. |
| Pinned.Unpinned | src/App.tsx:446 | Unpin keeps exactly the pinned steps with another id, never more. `UnpinnedKeepsOrder` proves they stay in their order. |
| Pinned.UnpinnedKeepsOrder | src/App.tsx:446 | Filtering two halves of the pinned list is filtering each: the pins kept stay in their order. |
| Pinned.Pin | src/App.tsx:498-502 | The click handler's filter, `unshift` and `pop` loop yield the pinned list specified by `PinnedAfter`. |
| Pinned.PinnedAfter | src/App.tsx:498-502 | After a click, between one and three steps are pinned and the clicked step is first. `PinnedAfterShape` proves the rest. |
| Pinned.PinnedAfterShape | src/App.tsx:498-502 | The clicked step comes first and at most three stay. The rest are the earlier pins with another id, in their order. |
| Pinned.PinKeepsDistinct | src/App.tsx:498-502 | Pinning keeps the pinned ids distinct. |
| Pinned.PinIdempotent | src/App.tsx:498-502 | Clicking the same bar twice pins it once. |
| Pinned.UnpinAfterPin | src/App.tsx:446 | Unpinning a step just pinned leaves at most two earlier pins, none with its id. |
| Pinned.UnpinnedKeepsDistinct | src/App.tsx:446 | Unpinning keeps the pinned ids distinct. |

## Findings

| source | as written | input that shows it | evidently intended | confidence | as-written member | corrected member |
|---|---|---|---|---|---|---|
| src/App.tsx:377 | `pause` adds the animation hook's last `elapsedMs` to the base even when the clock is already stopped. The hook keeps that value after it stops. | Play for 30 s, pause (minute 0.5), pause again (minute 1.0); or play 30 s, reset, pause (minute 0.5) | Pausing a stopped clock changes nothing | not executed | Clock.StalePauseAsWritten | Clock.PauseKeepsMinute |
| src/App.tsx:376 | `start` sets `playing` while the hook still holds the previous run's `elapsedMs`. Until the first new frame the playhead shows the base plus that stale time. | Play 30 s, pause (minute 0.5), start: minute 1.0 until the next frame | A new run starts at zero elapsed time | not executed | Clock.StaleStartAsWritten | Clock.StartKeepsMinute |
| src/App.tsx:214 | A new timer's id is `t` + (bank length + 1), which can equal an id still in use after a removal. | Remove "t1" from t1..t3, then add: two timers "t3", and Start on one starts both | New ids are never in use | not executed | Timers.AddTimerAsWrittenCollides | Timers.AddTimerKeepsIdsDistinct |
| src/App.tsx:233 | A new person's id is `p` + (list length + 1), which can equal an id still in use after a removal. | Remove "p1" (Tim), add Sam: Sam gets "p2" like Tiff, and removing Sam removes Tiff | New ids are never in use | not executed | Assignments.AddPersonAsWrittenCollides | Assignments.AddPersonKeepsIdsDistinct |

The clock class `PlayClock` implements the corrected start and pause. The
functions `AfterStartAsWritten` and `AfterPauseAsWritten` keep the code's
behaviour for the two clock lemmas above. The timer bank and the people list
use the corrected `AddTimer` / `AddPerson` (a number above every numbered id
in use). `AddTimerAsWritten` / `AddPersonAsWritten` model the code as written.

## Left out

- React hooks, JSX/SVG rendering and everything drawn (bars, dots, outlines, axis ticks, playhead, tooltip), apart from the bar offset within a lane.
- The animation-frame hook and the one-second interval are timing sources. An animation frame is `PlayClock.Frame(ms)` with the elapsed milliseconds as a parameter, and a tick is one call of `Tick`.
- File loading and validation (`file.text()`, `JSON.parse`, the JavaScript coercions) and the timeline reset after a load. These are I/O and dynamic typing. Only its guarantee that durations are positive is kept, as the `PositiveDurations` precondition of the packing lemmas.
- Floating point: minutes are exact reals. `Math.round` (JavaScript's halves-up rounding) and `Math.floor` are modelled on reals, and `Math.ceil` for the chart width is not modelled.
- `chartWidth` and all horizontal geometry (`pxPerMin`, `labelWidth`, minimum bar width), which are display-only.
- Palette colours of lanes and people, and the derived timer display colours (expired, counting, cleared).
- `localeCompare` is locale-dependent. Lane names are ordered lexicographically by character code.
- Schedule.SortStepsCorrect: it proves sorted and a permutation, but not that steps with equal start and duration keep their input order (JavaScript's sort is stable).
- `parseInt` is modelled only on the digit-only text the minutes and seconds fields admit (the input filter on those fields). An empty field reads as 0, as in `t.minStr || "0"`. So starting a timer (`StartOne`, and `Update` with `Start`) requires digit-only fields, which every reachable bank has (`Timers.OperationsKeepConsistent`).
- The assignment object is modelled as a map from step ids to lists. A plain object lookup such as `prev[stepId] || []` also finds keys inherited from `Object.prototype`, such as "constructor" or "toString". For those it gets a function, and the following `new Set(...)` or `.includes` throws. The model assumes no step id names an `Object.prototype` member, and its lookup of a missing key gives the empty list.
- The order in which `removePerson` visits the entries of the assignment object. The loop picks keys in any order, and the resulting map is the same.
- The `name` of a timer, a person's display name and a step's title and description are carried but not interpreted.

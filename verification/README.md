# Trading Growth Calculator — verified model of its core

The calculator projects how an account balance compounds over a number of
trades at a fixed percentage rate, and makes the user wait through a calming
countdown before any recalculation or first note edit takes effect. This
project models the two pieces of logic behind that, both inside the single
`App` component of `App.tsx`:

- **The ledger generator** (`ledger.dfy`, module `Ledger`). From an initial
  balance, a rate in percent and a number of trades it builds a "Start" row
  followed by one row per trade. Each trade starts from the previous ending
  balance and adds `startingBalance * rate / 100`. A non-positive balance or
  trade count gives an empty ledger. `Chain` is the recursive definition,
  `GenerateTradesLoop` is the loop the component runs, and both are proved
  equal. `IsLedger` is the shape every ledger has, and `LedgerUnique` shows
  that the shape fixes the ledger. The closed form
  `initialBalance * (1 + rate/100)^i` is proved for every row. The final
  balance and total change shown on the page are derived from the last row.
- **The notes** (`notes.dfy`, module `Notes`). There is one free-text note per
  row. They are reset to empty strings on every successful generation and
  edited one row at a time.
- **The countdown-gated scheduler** (`scheduler.dfy`, module `Scheduler`).
  Its state is the modal flag, the countdown, the single pending action and
  the set of unlocked notes. `Request` stores an action (last write wins),
  restarts the countdown from the chosen duration and shows the modal.
  `Tick` is one run of the countdown effect: it does nothing while the modal
  is hidden, takes one second off while time is left, and otherwise fires:
  it hides the modal, runs the pending action once and clears it. The
  Calculate button requests a `Generate` action that carries the
  configuration of that moment. Focusing a note that is not yet unlocked
  requests an `Unlock` action. Every user event and clock tick is a `Step`
  over one immutable `AppState`; the events are the handlers the page wires
  to its inputs, button and timer menu.

Balances are Dafny `real`s, so the arithmetic is exact. Rounding happens only
in the currency formatter, which is not modelled.

Points where the code behaves differently from what its labels and comments
suggest; the model follows the code:

- There is only the percentage mode; there is no fixed-amount mode.
- A generation from an invalid configuration empties the ledger and the notes
  but leaves the unlocked notes as they were (App.tsx:169-172). It does not
  clear all annotation state.
- Row 0 ("Start") has a note input like every other row, so a fresh ledger of
  `n` trades has `n + 1` notes (App.tsx:198).
- Focusing an already unlocked note just returns (App.tsx:238-240). The edit
  itself then goes through the ordinary note change, ungated. Nothing is "run
  immediately".
- Firing an unlock does not end the gate. The deferred action queues the set
  update (App.tsx:246) and then focuses the note's input (App.tsx:247). That
  focus synchronously calls the focus handler of the page as last drawn, whose
  unlocked notes do not yet hold the note, so it requests the unlock again
  (App.tsx:250-252). The effect then clears the pending action
  (App.tsx:210). The first unlock of a note therefore ends with the note
  unlocked but the modal shown again, a fresh countdown and nothing pending.
  The user waits out a second countdown that runs nothing, and the input is
  left blurred (App.tsx:241-243). `Fire` models this; `UnlockOnceThenFree`
  states the whole sequence, and `ActionlessCountdownReachable` shows the
  page reaches a shown modal with nothing pending. So the invariant is only
  "a pending action is always on screen", and firing with nothing pending
  (App.tsx:208) is a reachable case, not a defensive one.

## Model

| member | source | states |
|---|---|---|
| Ledger.Chain | App.tsx:174-196 | the rows for `n` trades are exactly `n + 1` rows numbered 0..n; row 0 is the Start row (change 0, starting = ending = initial balance); every later row starts at the previous ending balance, changes by `startingBalance * growth` and ends at start plus change |
| Ledger.ExtendLedger | App.tsx:185-195 | one more iteration of the trade loop turns a ledger of `n` trades into a ledger of `n + 1` |
| Ledger.GenerateTrades | App.tsx:168-196 | the ledger is empty exactly when the balance or the trade count is not positive; otherwise it has the ledger shape for growth `rate / 100` |
| Ledger.GenerateTradesLoop | App.tsx:174-196 | the push-then-loop generator with its running `currentBalance` computes the same rows as the recursive definition, including the early empty return |
| Ledger.LedgerUnique | App.tsx:174-196 | a sequence has the ledger shape for a configuration if and only if it is the generated ledger (the shape determines every row) |
| Ledger.LedgerClosedForm | App.tsx:175-195 | in any ledger, row `i` ends at `initialBalance * (1 + growth)^i` and trade `i` starts at `initialBalance * (1 + growth)^(i-1)` |
| Ledger.GenerateTradesClosedForm | App.tsx:175-188 | the generated row `i` ends at `initialBalance * (1 + rate/100)^i` |
| Ledger.FinalBalanceOfGenerated | App.tsx:309-310 | right after a generation the shown final balance is `initialBalance * (1 + rate/100)^n`; with no rows it is the initial balance and the total change is 0 |
| Ledger.ProfitFollowsRate | App.tsx:310-311 | the total change is shown as a profit for a non-negative rate and as a loss for a rate in [-100, 0) |
| Ledger.FinalBalance | App.tsx:309 | the final balance is the last row's ending balance, or the initial balance with no rows; for any ledger of `n` trades it is `initialBalance * (1 + growth)^n` |
| Ledger.TotalChange | App.tsx:310-311 | the total change is 0 with no rows, and is shown as a profit exactly when the final balance is at least the initial balance |
| Ledger.ExampleThirtyPercent | App.tsx:178-195 | 100 at 30 percent over two trades gives rows (0,100,0,100), (1,100,30,130), (2,130,39,169) |
| Notes.EmptyNotes | App.tsx:198 | a fresh ledger gets one empty note per row |
| Notes.EditNote | App.tsx:223-228 | a note edit sets the note at the index and keeps every other note; an index past the end grows the array, the gap reading back as empty notes |
| Notes.EditNoteInRange | App.tsx:223-228 | editing an existing row keeps the number of notes and every note before and after it |
| Notes.EditNoteOverwrites | App.tsx:223-228 | rewriting a note with its own value changes nothing, and of two edits to one row the later one stays |
| Scheduler.RunGenerate | App.tsx:168-200 | the deferred generation installs the generated ledger, gives it one empty note per row and clears the unlocked notes; from an invalid configuration it empties ledger and notes and keeps the unlocked notes; the scheduler and configuration are never touched |
| Scheduler.RunUnlock | App.tsx:245-246 | the deferred unlock adds exactly the note's trade number to the unlocked notes and changes nothing else |
| Scheduler.Initial | App.tsx:111-140 | a first session with nothing saved starts at balance 100, rate 30, 30 trades, a 10-second timer and countdown, no ledger, no notes, no modal, nothing pending, nothing unlocked, and satisfies the invariant |
| Scheduler.RequestCalculate | App.tsx:231-235 | Calculate makes the pending action a generation from the configuration of that moment, shows the modal with the chosen duration, and generates nothing yet |
| Scheduler.FocusNote | App.tsx:237-253 | focusing an unlocked note changes nothing; focusing any other note makes its unlock the pending action with a fresh countdown; focusing never changes the ledger, the notes or the unlocked notes itself |
| Scheduler.ChangeNote | App.tsx:223-229 | a note edit changes only the notes, ungated: the edited note holds the value, every other note is kept, and an in-range edit keeps the number of notes |
| Scheduler.Fire | App.tsx:206-212 | a fire always leaves nothing pending; the modal stays shown only after an unlock, with a fresh countdown from the chosen duration (the refocus at 247 re-entering the focus handler); a fired unlock adds exactly its note to the unlocked notes |
| Scheduler.Tick | App.tsx:203-220 | a tick never schedules a new action: the pending action stays or is cleared; while one stays pending the tick only takes a second off; with the modal hidden it does nothing; with nothing pending it never changes ledger, notes or unlocked notes |
| Scheduler.Step | App.tsx:96-97 | over all page events (note input and focus, 96-97; timer menu, 330; inputs and Calculate button, 360-388): the ledger changes only when a generation fires, the unlocked notes only when an action fires, and only Calculate or a note's focus schedules a new action |
| Scheduler.Request | App.tsx:231-235 | a gated request makes the new action the pending one, sets the countdown to the chosen duration, shows the modal and leaves ledger, notes, unlocked notes and configuration alone |
| Scheduler.LastRequestWins | App.tsx:250-252 | a second request before any tick discards the first action entirely: the state is as if only the second had been made |
| Scheduler.FocusGate | App.tsx:237-252 | focusing an unlocked note leaves the whole state unchanged; focusing any other note is a gated request for its unlock |
| Scheduler.TickWhileHidden | App.tsx:204 | a tick with the modal hidden changes nothing |
| Scheduler.TickWhileCounting | App.tsx:213-217 | a tick with time left lowers the countdown by exactly one and changes nothing else |
| Scheduler.TickFires | App.tsx:206-212 | a tick with no time left clears the pending action; with nothing pending it only hides the modal; a pending generation is run once and the modal hidden |
| Scheduler.UnlockFireRefocuses | App.tsx:245-252 | firing the unlock of a locked note that has a row unlocks it and, through the refocus, leaves the modal shown with a fresh countdown and nothing pending; otherwise the fire unlocks the note and hides the modal |
| Scheduler.TimerChoiceKeepsCountdown | App.tsx:327-330 | choosing another timer duration changes neither the running countdown nor the pending action; ticking and choosing commute except on the unlock fire, whose repeated request reads the duration |
| Scheduler.TicksWhileCounting | App.tsx:215-217 | while time is left, `j` ticks take `j` seconds off and change nothing else |
| Scheduler.IdleStaysIdle | App.tsx:204 | once the modal is hidden no number of ticks changes anything |
| Scheduler.NothingPendingNothingRuns | App.tsx:206-217 | with nothing pending, no number of ticks changes the ledger, the notes or the unlocked notes, and nothing becomes pending |
| Scheduler.CountdownThenFire | App.tsx:203-220 | with `c >= 0` seconds left, the first `c` ticks only count down; tick `c + 1` fires the action; from then on nothing is pending and no later tick changes the ledger or the unlocked notes, so the action runs exactly once |
| Scheduler.GenerateThenIdle | App.tsx:206-211 | a pending generation fires on tick `c + 1` and the scheduler is then idle for good, with the generated ledger installed |
| Scheduler.SupersededActionNeverRuns | App.tsx:231-253 | two requests before any tick, with the duration changed in between: tick `d + 1` fires the later action as if the earlier had never been requested |
| Scheduler.CalculateCapturesConfig | App.tsx:200-233 | the ledger produced after the countdown is the one of the configuration at the moment Calculate was pressed, whatever the inputs are changed to meanwhile |
| Scheduler.UnlockOnceThenFree | App.tsx:237-253 | the first focus of a locked note with a row: after `d + 1` ticks exactly that note is unlocked but the modal shows again with a fresh countdown and nothing pending; after `d + 1` more ticks the modal is hidden and stays hidden; ledger and notes never change, and focusing the note is then free |
| Scheduler.StepUnlockedNotes | App.tsx:199-246 | a successful generation empties the unlocked notes; every other event keeps every unlocked note unlocked |
| Scheduler.UnlockedGrowUntilRegeneration | App.tsx:199-246 | over any run of events without a successful generation, the unlocked notes only grow |
| Scheduler.UnlockedUntilRegeneration | App.tsx:237-246 | over any run of events without a successful generation, focusing an already unlocked note stays free |
| Scheduler.StepPreservesInv | App.tsx:203-252 | every event keeps "a pending action is always on screen" and "one note per row", given note edits come from rendered rows |
| Scheduler.RunPreservesInv | App.tsx:203-252 | any run of such events preserves that invariant |
| Scheduler.ReachableInv | App.tsx:131-140 | from the first-session state every reachable state satisfies the invariant: whenever an action is pending the modal is shown |
| Scheduler.ActionlessCountdownReachable | App.tsx:245-252 | some run of page events from the first session ends with the modal shown and nothing pending, so "the modal shows exactly while an action is pending" does not hold of the page |

## Left out

- Loading and saving through `localStorage`, and the JSON parsing of saved
  values (App.tsx:111-134, 143-154). This is persistence I/O. The model starts
  from the built-in defaults (`Scheduler.Initial`).
- PDF export through the `jsPDF` and `autoTable` globals (App.tsx:255-306).
  These are foreign library calls.
- Currency formatting with `Intl.NumberFormat`, the icons, the JSX and the CSS
  (App.tsx:12-95, 98-104, 313-459). This is presentation. The event handlers
  wired inside that markup (App.tsx:96-97, 330, 360, 371, 382, 388) are kept,
  as the events of `Scheduler.Step`.
- The DOM side of blurring the active element and of the refocus after an
  unlock (App.tsx:241-243, 247): which element has focus is not modelled. The
  refocus's effect on the scheduler (a second request through the focus
  handler) is modelled in `Scheduler.Fire`.
- `setTimeout`/`clearTimeout` wall-clock timing (App.tsx:215-219). One run of
  the countdown effect is one `Tick`. A decrementing run happens one second
  after the previous one, while the firing run follows the last decrement
  immediately, so an action requested with `c` seconds fires on tick `c + 1`.
- IEEE-754 floating point. Balances are exact reals, so no rounding error
  accumulates in the model.
- Ledger.GenerateTrades: the trade count is an integer. A fractional or NaN
  count typed into the number input (where the loop would run
  `floor(count)` times or not at all) is not modelled.
- Scheduler.Request: the timer duration is any integer. The menu of offered
  durations (5 s to 10 min, App.tsx:157-165) is not enforced.
- Events the page cannot issue in practice (clicking Calculate behind the
  modal overlay) are still allowed by `Step`. The model is therefore more
  permissive than the page.

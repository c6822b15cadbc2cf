/**
 The countdown-gated action scheduler of the calculator. Recalculating the
 ledger and unlocking a note for editing do not happen at once: the request
 stores one pending action, shows a calming modal and starts a countdown, and
 only when the countdown has run out is the action run, once. Real time is a
 discrete `Tick`: one run of the countdown effect, which either takes one
 second off the countdown or, once it has run out, fires.

 Firing an unlock also focuses the note's input again. That focus reaches the
 focus handler of the page as last drawn, whose unlocked notes do not yet hold
 the note, so it requests the unlock a second time; the effect then clears the
 pending action. A first unlock therefore ends with the modal shown again, a
 fresh countdown and nothing pending.
 */
module Scheduler {
  import opened Ledger
  import opened Notes

  datatype Option<T> = None | Some(value: T)

  /** A deferred action. `Generate` carries the configuration as it was when
      the calculation was requested; `Unlock` the trade number of the note. */
  datatype Action =
    | Generate(initialBalance: real, rate: real, numberOfTrades: int)
    | Unlock(tradeNumber: int)

  /** The calculator's state: the configuration, the ledger and its notes,
      and the scheduler (modal shown, countdown, pending action, unlocked notes). */
  datatype AppState = AppState(
    initialBalance: real,
    rate: real,
    numberOfTrades: int,
    timerDuration: int,
    trades: seq<Trade>,
    notes: seq<string>,
    showModal: bool,
    countdown: int,
    postTimerAction: Option<Action>,
    unlockedNotes: set<int>)

  /** The modal shows whenever an action is pending, and there is one note per row. */
  predicate Inv(s: AppState)
  {
    (s.postTimerAction.Some? ==> s.showModal) && |s.notes| == |s.trades|
  }

  /** The state of a first session, with nothing saved. */
  function Initial(): (r: AppState)
    ensures r.initialBalance == 100.0 && r.rate == 30.0 && r.numberOfTrades == 30
    ensures r.timerDuration == 10 && r.countdown == 10
    ensures r.trades == [] && r.notes == [] && r.unlockedNotes == {}
    ensures !r.showModal && r.postTimerAction == None
    ensures Inv(r)
  {
    AppState(100.0, 30.0, 30, 10, [], [], false, 10, None, {})
  }

  /** `s` and `t` agree on the configuration and on the scheduler: the part of
      the state a deferred action never changes. */
  predicate SameScheduler(s: AppState, t: AppState)
  {
    && s.initialBalance == t.initialBalance && s.rate == t.rate
    && s.numberOfTrades == t.numberOfTrades && s.timerDuration == t.timerDuration
    && s.showModal == t.showModal && s.countdown == t.countdown
    && s.postTimerAction == t.postTimerAction
  }

  /** The deferred generation: a valid configuration replaces the ledger, gives
      every row an empty note and locks every note again; an invalid one empties
      the ledger and the notes but leaves the unlocked notes as they were. */
  function RunGenerate(s: AppState, initialBalance: real, rate: real, numberOfTrades: int): (r: AppState)
    ensures SameScheduler(s, r)
    ensures r.trades == GenerateTrades(initialBalance, rate, numberOfTrades)
    ensures |r.notes| == |r.trades|
    ensures forall i :: 0 <= i < |r.notes| ==> r.notes[i] == ""
    ensures ValidConfig(initialBalance, numberOfTrades) ==>
              |r.trades| == numberOfTrades + 1 && r.unlockedNotes == {}
    ensures !ValidConfig(initialBalance, numberOfTrades) ==>
              r.trades == [] && r.unlockedNotes == s.unlockedNotes
  {
    if initialBalance <= 0.0 || numberOfTrades <= 0 then
      s.(trades := [], notes := [])
    else
      var generated := GenerateTrades(initialBalance, rate, numberOfTrades);
      s.(trades := generated, notes := EmptyNotes(|generated|), unlockedNotes := {})
  }

  /** The set update of the deferred unlock: the note's trade number joins the
      unlocked notes; nothing else changes. */
  function RunUnlock(s: AppState, tradeNumber: int): (r: AppState)
    ensures SameScheduler(s, r)
    ensures r.trades == s.trades && r.notes == s.notes
    ensures r.unlockedNotes == s.unlockedNotes + {tradeNumber}
  {
    s.(unlockedNotes := s.unlockedNotes + {tradeNumber})
  }

  /** A gated request: `a` becomes the one pending action, replacing any earlier
      one, the countdown restarts from the chosen duration and the modal shows.
      The ledger, the notes and the unlocked notes are untouched. */
  function Request(s: AppState, a: Action): (r: AppState)
    ensures r.postTimerAction == Some(a) && r.countdown == s.timerDuration && r.showModal
    ensures r.trades == s.trades && r.notes == s.notes && r.unlockedNotes == s.unlockedNotes
    ensures r.initialBalance == s.initialBalance && r.rate == s.rate
    ensures r.numberOfTrades == s.numberOfTrades && r.timerDuration == s.timerDuration
  {
    s.(postTimerAction := Some(a), countdown := s.timerDuration, showModal := true)
  }

  /** The Calculate button: request a generation from the configuration as it is
      now. Nothing is generated yet. */
  function RequestCalculate(s: AppState): (r: AppState)
    ensures r.postTimerAction == Some(Generate(s.initialBalance, s.rate, s.numberOfTrades))
    ensures r.showModal && r.countdown == s.timerDuration
    ensures r.trades == s.trades && r.notes == s.notes && r.unlockedNotes == s.unlockedNotes
  {
    Request(s, Generate(s.initialBalance, s.rate, s.numberOfTrades))
  }

  /** Focusing a note: an unlocked note is free; any other note requests its
      unlock. Focusing never unlocks anything by itself. */
  function FocusNote(s: AppState, tradeNumber: int): (r: AppState)
    ensures tradeNumber in s.unlockedNotes ==> r == s
    ensures tradeNumber !in s.unlockedNotes ==>
              r.postTimerAction == Some(Unlock(tradeNumber)) && r.showModal && r.countdown == s.timerDuration
    ensures r.trades == s.trades && r.notes == s.notes && r.unlockedNotes == s.unlockedNotes
  {
    if tradeNumber in s.unlockedNotes then s
    else Request(s, Unlock(tradeNumber))
  }

  /** Typing into the note of row `index`: only the notes change, ungated. */
  function ChangeNote(s: AppState, index: nat, value: string): (r: AppState)
    ensures r == s.(notes := r.notes)
    ensures index < |r.notes| && r.notes[index] == value
    ensures index < |s.notes| ==> |r.notes| == |s.notes|
    ensures forall j :: 0 <= j < |s.notes| && j != index ==> r.notes[j] == s.notes[j]
  {
    s.(notes := EditNote(s.notes, index, value))
  }

  /** The ledger has a row, and so the page an input, for note `tradeNumber`. */
  predicate HasRow(trades: seq<Trade>, tradeNumber: int)
  {
    exists j :: 0 <= j < |trades| && trades[j].tradeNumber == tradeNumber
  }

  /** The firing run of the countdown effect: hide the modal, run the pending
      action, clear it. An unlock then focuses the note's input, whose focus
      handler still sees the unlocked notes from before the fire and so, for a
      note that was locked, requests the unlock again; the clearing comes last. */
  function Fire(s: AppState): (r: AppState)
    ensures r.postTimerAction == None
    ensures r.showModal ==> s.postTimerAction.Some? && s.postTimerAction.value.Unlock?
                            && r.countdown == s.timerDuration
    ensures s.postTimerAction.Some? && s.postTimerAction.value.Unlock? ==>
              r.unlockedNotes == s.unlockedNotes + {s.postTimerAction.value.tradeNumber}
  {
    match s.postTimerAction
    case None => s.(showModal := false)
    case Some(Generate(b, rate, n)) =>
      RunGenerate(s, b, rate, n).(showModal := false, postTimerAction := None)
    case Some(Unlock(k)) =>
      var unlocked := RunUnlock(s, k).(showModal := false);
      var refocused := if HasRow(s.trades, k) && k !in s.unlockedNotes then Request(unlocked, Unlock(k)) else unlocked;
      refocused.(postTimerAction := None)
  }

  /** One run of the countdown effect. With the modal hidden it does nothing;
      with time left it takes one second off; with none left it fires. */
  function Tick(s: AppState): (r: AppState)
    ensures !s.showModal ==> r == s
    ensures r.postTimerAction == s.postTimerAction || r.postTimerAction == None
    ensures s.showModal && r.postTimerAction.Some? ==> r == s.(countdown := s.countdown - 1)
    ensures s.showModal && s.postTimerAction == None ==>
              r.trades == s.trades && r.notes == s.notes && r.unlockedNotes == s.unlockedNotes
  {
    if !s.showModal then s
    else if s.countdown <= 0 then Fire(s)
    else s.(countdown := s.countdown - 1)
  }

  /** `k` runs of the countdown effect with nothing else happening. */
  function Ticks(s: AppState, k: nat): AppState
    decreases k
  {
    if k == 0 then s else Ticks(Tick(s), k - 1)
  }

  /** What the user (or the clock) can do: the handlers the page wires to its
      inputs, button and timer menu, and the passing of time. */
  datatype Event =
    | Calculate
    | Focus(tradeNumber: int)
    | NoteInput(index: nat, value: string)
    | Elapse
    | PickTimer(seconds: int)
    | EnterInitialBalance(balance: real)
    | EnterRate(percent: real)
    | EnterNumberOfTrades(count: int)

  /** `s` is about to fire: the modal shows, no time is left and an action is pending. */
  predicate Firing(s: AppState)
  {
    s.showModal && s.countdown <= 0 && s.postTimerAction.Some?
  }

  /** One event. Every change to the ledger or to the unlocked notes waits for a
      fire, and only the Calculate button and a note's focus schedule an action. */
  function Step(s: AppState, e: Event): (r: AppState)
    ensures r.trades != s.trades ==> e.Elapse? && Firing(s) && s.postTimerAction.value.Generate?
    ensures r.unlockedNotes != s.unlockedNotes ==> e.Elapse? && Firing(s)
    ensures r.postTimerAction.Some? && r.postTimerAction != s.postTimerAction ==> e.Calculate? || e.Focus?
  {
    match e
    case Calculate => RequestCalculate(s)
    case Focus(k) => FocusNote(s, k)
    case NoteInput(i, v) => ChangeNote(s, i, v)
    case Elapse => Tick(s)
    case PickTimer(d) => s.(timerDuration := d)
    case EnterInitialBalance(b) => s.(initialBalance := b)
    case EnterRate(p) => s.(rate := p)
    case EnterNumberOfTrades(n) => s.(numberOfTrades := n)
  }

  function Run(s: AppState, events: seq<Event>): AppState
    decreases |events|
  {
    if |events| == 0 then s else Run(Step(s, events[0]), events[1..])
  }

  // ---------------------------------------------------------------------------
  // One step at a time

  /** A tick with the modal hidden changes nothing. */
  lemma TickWhileHidden(s: AppState)
    requires !s.showModal
    ensures Tick(s) == s
  {
  }

  /** A tick with time left takes exactly one second off and changes nothing else. */
  lemma TickWhileCounting(s: AppState)
    requires s.showModal && s.countdown > 0
    ensures Tick(s) == s.(countdown := s.countdown - 1)
  {
  }

  /** A tick with no time left clears the pending action. With nothing pending it
      only hides the modal; a generation is run once and the modal hidden. */
  lemma TickFires(s: AppState)
    requires s.showModal && s.countdown <= 0
    ensures Tick(s).postTimerAction == None
    ensures s.postTimerAction == None ==> Tick(s) == s.(showModal := false)
    ensures s.postTimerAction.Some? && s.postTimerAction.value.Generate? ==>
              var a := s.postTimerAction.value;
              Tick(s) == RunGenerate(s, a.initialBalance, a.rate, a.numberOfTrades).(showModal := false, postTimerAction := None)
  {
  }

  /** Firing the unlock of a locked note with a row: the note is unlocked, and the
      refocus shows the modal again with a fresh countdown and nothing pending.
      Without a row, or for a note already unlocked, the modal is just hidden. */
  lemma UnlockFireRefocuses(s: AppState, tradeNumber: int)
    requires s.showModal && s.countdown <= 0 && s.postTimerAction == Some(Unlock(tradeNumber))
    ensures HasRow(s.trades, tradeNumber) && tradeNumber !in s.unlockedNotes ==>
              Tick(s) == RunUnlock(s, tradeNumber).(countdown := s.timerDuration, postTimerAction := None)
    ensures !(HasRow(s.trades, tradeNumber) && tradeNumber !in s.unlockedNotes) ==>
              Tick(s) == RunUnlock(s, tradeNumber).(showModal := false, postTimerAction := None)
  {
  }

  /** A new request replaces the pending one: the earlier action is gone, as if
      it had never been requested. */
  lemma LastRequestWins(s: AppState, earlier: Action, later: Action)
    ensures Request(Request(s, earlier), later) == Request(s, later)
  {
  }

  /** Choosing another duration never touches the running countdown or the
      pending action. The duration is read only when a request is made, so
      ticking and choosing commute except on the fire that refocuses a note,
      whose repeated request uses the duration chosen last. */
  lemma TimerChoiceKeepsCountdown(s: AppState, seconds: int)
    ensures Step(s, PickTimer(seconds)).countdown == s.countdown
    ensures Step(s, PickTimer(seconds)).postTimerAction == s.postTimerAction
    ensures !(Firing(s) && s.postTimerAction.value.Unlock?) ==>
              Tick(Step(s, PickTimer(seconds))) == Step(Tick(s), PickTimer(seconds))
  {
  }

  /** An unlocked note is free to focus; any other note's focus is a gated unlock. */
  lemma FocusGate(s: AppState, tradeNumber: int)
    ensures tradeNumber in s.unlockedNotes ==> FocusNote(s, tradeNumber) == s
    ensures tradeNumber !in s.unlockedNotes ==> FocusNote(s, tradeNumber) == Request(s, Unlock(tradeNumber))
  {
  }

  // ---------------------------------------------------------------------------
  // Countdowns over time

  /** While time is left, `j` ticks take `j` seconds off and do nothing else. */
  lemma {:induction false} TicksWhileCounting(s: AppState, j: nat)
    requires s.showModal && j <= s.countdown
    ensures Ticks(s, j) == s.(countdown := s.countdown - j)
    decreases j
  {
    if j > 0 {
      TicksWhileCounting(Tick(s), j - 1);
    }
  }

  /** Once the modal is hidden, ticking does nothing, however long. */
  lemma {:induction false} IdleStaysIdle(s: AppState, k: nat)
    requires !s.showModal
    ensures Ticks(s, k) == s
    decreases k
  {
    if k > 0 {
      IdleStaysIdle(Tick(s), k - 1);
    }
  }

  /** With nothing pending, no number of ticks runs anything: the ledger, the
      notes and the unlocked notes stay as they are and nothing becomes pending. */
  lemma {:induction false} NothingPendingNothingRuns(s: AppState, k: nat)
    requires s.postTimerAction == None
    ensures Ticks(s, k).postTimerAction == None
    ensures Ticks(s, k).trades == s.trades && Ticks(s, k).notes == s.notes
    ensures Ticks(s, k).unlockedNotes == s.unlockedNotes
    decreases k
  {
    if k > 0 {
      NothingPendingNothingRuns(Tick(s), k - 1);
    }
  }

  /** `j` ticks followed by `k` more are `j + k` ticks. */
  lemma {:induction false} TicksAdd(s: AppState, j: nat, k: nat)
    ensures Ticks(Ticks(s, j), k) == Ticks(s, j + k)
    decreases j
  {
    if j > 0 {
      TicksAdd(Tick(s), j - 1, k);
    }
  }

  /** A pending action with `c >= 0` seconds left is not run during the first
      `c` ticks, which only count down; tick `c + 1` fires it, and from then on
      nothing is pending, so it never runs a second time. */
  lemma CountdownThenFire(s: AppState, a: Action, k: nat)
    requires s.showModal && s.postTimerAction == Some(a) && s.countdown >= 0
    ensures forall j :: 0 <= j <= s.countdown ==> Ticks(s, j) == s.(countdown := s.countdown - j)
    ensures Ticks(s, s.countdown + 1) == Fire(s.(countdown := 0))
    ensures Ticks(s, s.countdown + 1 + k).postTimerAction == None
    ensures Ticks(s, s.countdown + 1 + k).trades == Fire(s.(countdown := 0)).trades
    ensures Ticks(s, s.countdown + 1 + k).unlockedNotes == Fire(s.(countdown := 0)).unlockedNotes
  {
    forall j | 0 <= j <= s.countdown
      ensures Ticks(s, j) == s.(countdown := s.countdown - j)
    {
      TicksWhileCounting(s, j);
    }
    TicksAdd(s, s.countdown, 1);
    var fired := Fire(s.(countdown := 0));
    assert Ticks(s, s.countdown + 1) == fired;
    NothingPendingNothingRuns(fired, k);
    TicksAdd(s, s.countdown + 1, k);
  }

  /** A generation fires on tick `c + 1` and leaves the scheduler idle for good. */
  lemma GenerateThenIdle(s: AppState, b: real, rate: real, n: int, k: nat)
    requires s.showModal && s.postTimerAction == Some(Generate(b, rate, n)) && s.countdown >= 0
    ensures Ticks(s, s.countdown + 1 + k)
            == RunGenerate(s, b, rate, n).(showModal := false, countdown := 0, postTimerAction := None)
  {
    CountdownThenFire(s, Generate(b, rate, n), k);
    var fired := Fire(s.(countdown := 0));
    IdleStaysIdle(fired, k);
    TicksAdd(s, s.countdown + 1, k);
  }

  /** Two requests before any tick, with the duration changed in between: only
      the later action ever runs, after the later duration. */
  lemma SupersededActionNeverRuns(s: AppState, earlier: Action, later: Action, seconds: int)
    requires seconds >= 0
    ensures
      var t := Request(Step(Request(s, earlier), PickTimer(seconds)), later);
      Ticks(t, seconds + 1) == Fire(Request(s.(timerDuration := seconds), later).(countdown := 0))
  {
    var t := Request(Step(Request(s, earlier), PickTimer(seconds)), later);
    CountdownThenFire(t, later, 0);
  }

  /** The calculation runs on the configuration of the moment Calculate was
      pressed: editing the inputs during the countdown does not change the ledger. */
  lemma CalculateCapturesConfig(s: AppState, balance: real, percent: real, count: int)
    requires s.timerDuration >= 0
    ensures
      var t := Step(Step(Step(RequestCalculate(s), EnterInitialBalance(balance)), EnterRate(percent)),
                    EnterNumberOfTrades(count));
      Ticks(t, s.timerDuration + 1).trades == GenerateTrades(s.initialBalance, s.rate, s.numberOfTrades)
  {
    var t := Step(Step(Step(RequestCalculate(s), EnterInitialBalance(balance)), EnterRate(percent)),
                  EnterNumberOfTrades(count));
    CountdownThenFire(t, Generate(s.initialBalance, s.rate, s.numberOfTrades), 0);
  }

  /** The first focus of a locked note with a row: after the countdown exactly
      that note is unlocked, but the modal shows again with a fresh countdown and
      nothing pending; that second countdown runs nothing and ends with the modal
      hidden. The ledger and notes never change, and from then on focusing the
      note is free. */
  lemma UnlockOnceThenFree(s: AppState, tradeNumber: int, k: nat)
    requires tradeNumber !in s.unlockedNotes && HasRow(s.trades, tradeNumber) && s.timerDuration >= 0
    ensures
      var t := Ticks(FocusNote(s, tradeNumber), s.timerDuration + 1);
      && t == s.(unlockedNotes := s.unlockedNotes + {tradeNumber}, showModal := true,
                 countdown := s.timerDuration, postTimerAction := None)
      && FocusNote(t, tradeNumber) == t
    ensures
      var u := Ticks(FocusNote(s, tradeNumber), 2 * (s.timerDuration + 1) + k);
      && u == s.(unlockedNotes := s.unlockedNotes + {tradeNumber}, showModal := false,
                 countdown := 0, postTimerAction := None)
      && FocusNote(u, tradeNumber) == u
  {
    var f := FocusNote(s, tradeNumber);
    CountdownThenFire(f, Unlock(tradeNumber), 0);
    var t := Ticks(f, s.timerDuration + 1);
    assert t == s.(unlockedNotes := s.unlockedNotes + {tradeNumber}, showModal := true,
                   countdown := s.timerDuration, postTimerAction := None);
    TicksWhileCounting(t, s.timerDuration);
    var hidden := Tick(Ticks(t, s.timerDuration));
    TicksAdd(t, s.timerDuration, 1);
    IdleStaysIdle(hidden, k);
    TicksAdd(t, s.timerDuration + 1, k);
    TicksAdd(f, s.timerDuration + 1, s.timerDuration + 1 + k);
  }

  // ---------------------------------------------------------------------------
  // Unlocked notes only grow until the next successful generation

  /** Event `e` in state `s` fires a generation from a valid configuration. */
  predicate Regenerates(s: AppState, e: Event)
  {
    && e.Elapse? && Firing(s) && s.postTimerAction.value.Generate?
    && ValidConfig(s.postTimerAction.value.initialBalance, s.postTimerAction.value.numberOfTrades)
  }

  /** A successful generation clears the unlocked notes; every other event keeps
      every unlocked note unlocked. */
  lemma StepUnlockedNotes(s: AppState, e: Event)
    ensures Regenerates(s, e) ==> Step(s, e).unlockedNotes == {}
    ensures !Regenerates(s, e) ==> s.unlockedNotes <= Step(s, e).unlockedNotes
  {
  }

  /** No event of `events`, run from `s`, is a successful generation. */
  predicate NoRegeneration(s: AppState, events: seq<Event>)
    decreases |events|
  {
    |events| == 0 || (!Regenerates(s, events[0]) && NoRegeneration(Step(s, events[0]), events[1..]))
  }

  /** Until the next successful generation the unlocked notes only grow. */
  lemma {:induction false} UnlockedGrowUntilRegeneration(s: AppState, events: seq<Event>)
    requires NoRegeneration(s, events)
    ensures s.unlockedNotes <= Run(s, events).unlockedNotes
    decreases |events|
  {
    if |events| > 0 {
      StepUnlockedNotes(s, events[0]);
      UnlockedGrowUntilRegeneration(Step(s, events[0]), events[1..]);
    }
  }

  /** Until the next successful generation, focusing an unlocked note stays free,
      whatever else happens. */
  lemma UnlockedUntilRegeneration(s: AppState, events: seq<Event>, tradeNumber: int)
    requires NoRegeneration(s, events)
    requires tradeNumber in s.unlockedNotes
    ensures FocusNote(Run(s, events), tradeNumber) == Run(s, events)
  {
    UnlockedGrowUntilRegeneration(s, events);
  }

  // ---------------------------------------------------------------------------
  // Invariant of every reachable state

  /** The page only offers note inputs on the rows of the ledger. */
  predicate Enabled(s: AppState, e: Event)
  {
    e.NoteInput? ==> e.index < |s.trades|
  }

  predicate RunEnabled(s: AppState, events: seq<Event>)
    decreases |events|
  {
    |events| == 0 || (Enabled(s, events[0]) && RunEnabled(Step(s, events[0]), events[1..]))
  }

  lemma StepPreservesInv(s: AppState, e: Event)
    requires Inv(s) && Enabled(s, e)
    ensures Inv(Step(s, e))
  {
  }

  /** Every sequence of page events keeps the invariant: a pending action is
      always on screen, and the notes stay aligned with the rows. */
  lemma {:induction false} RunPreservesInv(s: AppState, events: seq<Event>)
    requires Inv(s) && RunEnabled(s, events)
    ensures Inv(Run(s, events))
    decreases |events|
  {
    if |events| > 0 {
      StepPreservesInv(s, events[0]);
      RunPreservesInv(Step(s, events[0]), events[1..]);
    }
  }

  lemma ReachableInv(events: seq<Event>)
    requires RunEnabled(Initial(), events)
    ensures Inv(Run(Initial(), events))
    ensures Run(Initial(), events).postTimerAction.Some? ==> Run(Initial(), events).showModal
  {
    RunPreservesInv(Initial(), events);
  }

  // ---------------------------------------------------------------------------
  // A modal with nothing pending is reachable

  /** `n` ticks of the clock as events. */
  function Elapses(n: nat): (r: seq<Event>)
    ensures |r| == n && forall i :: 0 <= i < n ==> r[i] == Elapse
  {
    seq(n, _ => Elapse)
  }

  lemma {:induction false} RunAppend(s: AppState, a: seq<Event>, b: seq<Event>)
    ensures Run(s, a + b) == Run(Run(s, a), b)
    decreases |a|
  {
    if |a| > 0 {
      assert (a + b)[0] == a[0];
      assert (a + b)[1..] == a[1..] + b;
      RunAppend(Step(s, a[0]), a[1..], b);
    } else {
      assert a + b == b;
    }
  }

  lemma {:induction false} RunElapses(s: AppState, n: nat)
    ensures Run(s, Elapses(n)) == Ticks(s, n)
    decreases n
  {
    if n > 0 {
      assert Elapses(n)[1..] == Elapses(n - 1);
      RunElapses(Tick(s), n - 1);
    }
  }

  lemma {:induction false} RunEnabledWithoutNoteInput(s: AppState, events: seq<Event>)
    requires forall i :: 0 <= i < |events| ==> !events[i].NoteInput?
    ensures RunEnabled(s, events)
    decreases |events|
  {
    if |events| > 0 {
      RunEnabledWithoutNoteInput(Step(s, events[0]), events[1..]);
    }
  }

  /** From the first session, with one trade entered, Calculate and eleven
      ticks generate a two-row ledger with every note locked. */
  lemma FirstCalculation()
    ensures
      var s := Run(Initial(), [EnterNumberOfTrades(1), Calculate] + Elapses(11));
      && s.trades == GenerateTrades(100.0, 30.0, 1) && s.unlockedNotes == {}
      && s.timerDuration == 10 && !s.showModal
  {
    var s1 := Step(Step(Initial(), EnterNumberOfTrades(1)), Calculate);
    assert Run(Initial(), [EnterNumberOfTrades(1), Calculate]) == s1;
    GenerateThenIdle(s1, 100.0, 30.0, 1, 0);
    RunAppend(Initial(), [EnterNumberOfTrades(1), Calculate], Elapses(11));
    RunElapses(s1, 11);
  }

  /** Focusing a locked note that has a row, then waiting out the countdown,
      leaves the modal showing with nothing pending. */
  lemma FocusThenWait(s: AppState, tradeNumber: int)
    requires tradeNumber !in s.unlockedNotes && HasRow(s.trades, tradeNumber) && s.timerDuration >= 0
    ensures
      var t := Run(s, [Focus(tradeNumber)] + Elapses(s.timerDuration + 1));
      t.showModal && t.postTimerAction == None
  {
    UnlockOnceThenFree(s, tradeNumber, 0);
    RunAppend(s, [Focus(tradeNumber)], Elapses(s.timerDuration + 1));
    assert Run(s, [Focus(tradeNumber)]) == FocusNote(s, tradeNumber);
    RunElapses(FocusNote(s, tradeNumber), s.timerDuration + 1);
  }

  /** From the first session, one trade calculated and note 1 focused, the page
      reaches a modal with a running countdown and nothing pending: the invariant
      cannot say "the modal shows exactly while an action is pending". */
  lemma ActionlessCountdownReachable()
    ensures exists events :: RunEnabled(Initial(), events)
              && Run(Initial(), events).showModal && Run(Initial(), events).postTimerAction == None
  {
    var first := [EnterNumberOfTrades(1), Calculate] + Elapses(11);
    FirstCalculation();
    var s2 := Run(Initial(), first);
    assert s2.trades[1].tradeNumber == 1;
    assert HasRow(s2.trades, 1);
    FocusThenWait(s2, 1);
    var events := first + ([Focus(1)] + Elapses(11));
    RunAppend(Initial(), first, [Focus(1)] + Elapses(11));
    assert forall i :: 0 <= i < |events| ==> !events[i].NoteInput?;
    RunEnabledWithoutNoteInput(Initial(), events);
    assert RunEnabled(Initial(), events) && Run(Initial(), events).showModal
           && Run(Initial(), events).postTimerAction == None;
  }
}

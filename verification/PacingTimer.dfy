/**
 Who owns the timer. The variable `timer` is captured by every timer goroutine and every callback and
 is reassigned by the loop, yet no channel is closed twice, no timer is stopped before it fired, and
 an armed timer always wakes the loop.
 */
module PacingTimer {
  import opened Pacing

  predicate HasFired(t: Timer) {
    t.callback.Fired? || t.callback.Cancelled?
  }

  /** The number of timer goroutines whose callback has still to close the channel. */
  function Unfired(timers: seq<Timer>): nat {
    if timers == [] then 0
    else Unfired(timers[..|timers| - 1]) + if HasFired(timers[|timers| - 1]) then 0 else 1
  }

  /** The newest timer goroutine has still to fire. */
  predicate Pending(s: State) {
    s.timers != [] && !HasFired(s.timers[|s.timers| - 1])
  }

  /**
   A wake-up is owed to the loop: `timerSet`, but for the moments just before it is raised and just after it
   is cleared.
   */
  predicate Owed(s: State) {
    s.timerSet || s.pc.TimerSpawned? || s.pc.TimerCleared?
  }

  predicate TimerConsistent(s: State, t: Timer) {
    && !t.callback.Cancelled?
    && (t.pc.Spawned? <==> t.callback.NotArmed?)
    && (t.pc.Woken? || t.pc.Finished? ==> t.callback.Fired?)
    && (t.pc.Waiting? ==> t.pc.channel <= s.channel)
    && (t.pc.Waiting? && !HasFired(t) ==> t.pc.channel == s.channel)
  }

  predicate Invariant(s: State) {
    && !s.panicked
    && (forall k :: 0 <= k < |s.timers| ==> TimerConsistent(s, s.timers[k]))
    && (forall k :: 0 <= k < |s.timers| - 1 ==> HasFired(s.timers[k]))
    && (forall g :: g in s.closed ==> g <= s.channel)
    && (forall g :: 0 <= g < s.channel ==> g in s.closed)
    && (Owed(s) <==> Pending(s) || s.channel in s.closed)
    && !(Pending(s) && s.channel in s.closed)
    && (s.pc.TimerReceived? ==> s.timerSet && s.channel in s.closed)
    && (s.pc.TimerCleared? ==> !s.timerSet && s.channel in s.closed)
    && (!s.pc.Select? && !s.pc.TimerReceived? && !s.pc.Returned? ==> !s.timerSet)
  }

  lemma InitHolds(writers: nat)
    ensures Invariant(Init(writers))
  {
  }

  lemma ActKeeps(s: State, transmit: real)
    requires Invariant(s) && s.pc.Decide?
    ensures Invariant(Act(s, transmit))
  {
  }

  lemma ReplaceChannelKeeps(s: State)
    requires Invariant(s) && s.pc.TimerCleared?
    ensures Invariant(s.(pc := CheckSize, channel := s.channel + 1))
  {
  }

  lemma LoopStepKeeps(s: State, a: Action, s': State)
    requires Invariant(s) && Next(s, a, s') && LoopAction(a)
    ensures Invariant(s')
  {
    if a.ActOnAnswer? {
      ActKeeps(s, s.pc.transmit);
    } else if a.ReplaceChannel? {
      ReplaceChannelKeeps(s);
    }
  }

  predicate TimerAction(a: Action) {
    || a.TimerStart? || a.TimerEvaluate? || a.TimerWake? || a.TimerStop?
    || a.CallbackExpire? || a.CallbackClose?
  }

  lemma OnlyNewestUnfired(s: State, k: nat)
    requires Invariant(s) && k < |s.timers| && !HasFired(s.timers[k])
    ensures k == |s.timers| - 1 && Pending(s) && s.channel !in s.closed
  {
  }

  lemma SetTimerKeeps(s: State, n: nat, t: Timer)
    requires Invariant(s) && n < |s.timers|
    requires TimerConsistent(s, t) && (HasFired(t) <==> HasFired(s.timers[n]))
    ensures Invariant(SetTimer(s, n, t))
  {
  }

  lemma CallbackCloseKeeps(s: State, n: nat)
    requires Invariant(s) && CallbackAt(s, n, Running) && NamesDefined(s)
    ensures Invariant(Step(s, CallbackClose(n)))
  {
    OnlyNewestUnfired(s, n);
    assert TimerConsistent(s, s.timers[n]);
  }

  /** A timer goroutine or callback moves only its own record; only a callback touches a channel. */
  lemma TimerStepKeeps(s: State, a: Action, s': State)
    requires Invariant(s) && Next(s, a, s') && TimerAction(a)
    ensures Invariant(s')
  {
    var n := a.timer;
    assert TimerConsistent(s, s.timers[n]);
    if a.CallbackClose? {
      CallbackCloseKeeps(s, n);
    } else {
      assert !HasFired(s.timers[n]) ==> n == |s.timers| - 1;
      SetTimerKeeps(s, n, s'.timers[n]);
    }
  }

  lemma StepKeeps(s: State, a: Action, s': State)
    requires Invariant(s) && Next(s, a, s')
    ensures Invariant(s')
  {
    if TimerAction(a) {
      TimerStepKeeps(s, a, s');
    } else if LoopAction(a) {
      LoopStepKeeps(s, a, s');
    }
  }

  /** Every state of every execution satisfies the invariant. */
  lemma {:induction false} ExecutionKeeps(states: seq<State>, actions: seq<Action>, k: nat)
    requires IsExecution(states, actions) && k < |states|
    ensures Invariant(states[k])
  {
    if k == 0 {
      var writers: nat :| states[0] == Init(writers);
      InitHolds(writers);
    } else {
      ExecutionKeeps(states, actions, k - 1);
      StepKeeps(states[k - 1], actions[k - 1], states[k]);
    }
  }

  lemma {:induction false} NoneUnfired(timers: seq<Timer>)
    requires forall k :: 0 <= k < |timers| ==> HasFired(timers[k])
    ensures Unfired(timers) == 0
  {
    if timers != [] {
      NoneUnfired(timers[..|timers| - 1]);
    }
  }

  lemma UnfiredIsPending(s: State)
    requires Invariant(s)
    ensures Unfired(s.timers) == if Pending(s) then 1 else 0
  {
    if s.timers != [] {
      NoneUnfired(s.timers[..|s.timers| - 1]);
    }
  }

  /**
   Timer ownership, in every state of every execution: callbacks still to fire, plus one if the current
   channel is closed, make exactly the one wake-up that is owed to the loop; no callback ever closed a
   closed channel and none was ever cancelled by `t.Stop()`.
   */
  lemma TimerOwnership(states: seq<State>, actions: seq<Action>, k: nat)
    requires IsExecution(states, actions) && k < |states|
    ensures
      var s := states[k];
      && Unfired(s.timers) + (if s.channel in s.closed then 1 else 0) == (if Owed(s) then 1 else 0)
      && (s.pc.Select? ==> (Owed(s) <==> s.timerSet))
      && !s.panicked
      && forall t :: t in s.timers ==> !t.callback.Cancelled?
  {
    ExecutionKeeps(states, actions, k);
    UnfiredIsPending(states[k]);
  }

  /**
   A goroutine that reaches `t.Stop()` has been woken by its own callback or a later one: its callback has
   fired, whichever channel the goroutine happened to wait on. So Stop changes no callback.
   */
  lemma StopIsHarmless(states: seq<State>, actions: seq<Action>, k: nat)
    requires IsExecution(states, actions) && k < |actions| && actions[k].TimerStop?
    ensures
      var n := actions[k].timer;
      && CallbackAt(states[k], n, Fired)
      && CallbackAt(states[k + 1], n, Fired)
  {
    ExecutionKeeps(states, actions, k);
    assert Next(states[k], actions[k], states[k + 1]);
    var n := actions[k].timer;
  }

  /** Misuse would show: closing a closed channel panics, and stopping an armed timer cancels its callback. */
  lemma MisuseShows(s: State, a: Action, s': State)
    requires Next(s, a, s')
    ensures a.CallbackClose? ==> (s'.panicked <==> s.panicked || s.channel in s.closed)
    ensures a.TimerStop? && CallbackAt(s, a.timer, Armed) ==> CallbackAt(s', a.timer, Cancelled)
  {
  }

  /** Each callback that runs closes a channel that is open, the one that `timer` holds at that moment, and no other. */
  lemma ClosesOpenChannel(states: seq<State>, actions: seq<Action>, k: nat)
    requires IsExecution(states, actions) && k < |actions| && actions[k].CallbackClose?
    ensures
      var s, s' := states[k], states[k + 1];
      && s.channel !in s.closed
      && s'.closed == s.closed + {s.channel}
      && s'.channel == s.channel
  {
    ExecutionKeeps(states, actions, k);
    assert Next(states[k], actions[k], states[k + 1]);
    OnlyNewestUnfired(states[k], actions[k].timer);
  }

  // ----- an armed timer does wake the loop -----

  /** How many steps of the newest timer goroutine and its callback stand between now and a closed channel. */
  function StepsToWakeUp(s: State): nat {
    if s.channel in s.closed || s.timers == [] then 0
    else
      match s.timers[|s.timers| - 1].callback
      case NotArmed => 3
      case Armed => 2
      case Running => 1
      case _ => 0
  }

  /** The step that brings the wake-up closer. */
  function WakeUpAction(s: State): Action
    requires s.timerSet && s.pc.Select? && Invariant(s)
  {
    if s.channel in s.closed then ReceiveTimer
    else
      var n := |s.timers| - 1;
      match s.timers[n].callback
      case NotArmed => TimerStart(n)
      case Armed => CallbackExpire(n)
      case _ => CallbackClose(n)
  }

  lemma WakeUpActionHelps(s: State)
    requires Invariant(s) && s.timerSet && s.pc.Select?
    ensures
      var wake := WakeUpAction(s);
      && Enabled(s, wake)
      && (wake.ReceiveTimer? <==> StepsToWakeUp(s) == 0)
      && (!wake.ReceiveTimer? ==> StepsToWakeUp(Step(s, wake)) == StepsToWakeUp(s) - 1)
  {
  }

  lemma NothingUndoesWakeUp(s: State, a: Action, s': State)
    requires Invariant(s) && s.timerSet && s.pc.Select?
    requires Next(s, a, s') && !a.ReceiveTimer? && !a.ReceiveClose?
    ensures s'.timerSet && s'.pc.Select? && StepsToWakeUp(s') <= StepsToWakeUp(s)
  {
    match a
    case TimerStart(k) =>
      assert s.timers[k] in s.timers;
      OnlyNewestUnfired(s, k);
    case CallbackExpire(k) => OnlyNewestUnfired(s, k);
    case CallbackClose(k) => OnlyNewestUnfired(s, k);
    case _ =>
  }

  /**
   While the loop waits with `timerSet`, a step towards the wake-up is always possible, it brings the
   wake-up strictly closer or delivers it, and no other step takes the loop away or the wake-up further.
   */
  lemma ArmedTimerWakesLoop(s: State, a: Action, s': State)
    requires Invariant(s) && s.timerSet && s.pc.Select?
    ensures
      var wake := WakeUpAction(s);
      && Enabled(s, wake)
      && (wake.ReceiveTimer? <==> StepsToWakeUp(s) == 0)
      && (!wake.ReceiveTimer? ==> StepsToWakeUp(Step(s, wake)) == StepsToWakeUp(s) - 1)
    ensures Next(s, a, s') && !a.ReceiveTimer? && !a.ReceiveClose? ==>
      s'.timerSet && s'.pc.Select? && StepsToWakeUp(s') <= StepsToWakeUp(s)
  {
    WakeUpActionHelps(s);
    if Next(s, a, s') && !a.ReceiveTimer? && !a.ReceiveClose? {
      NothingUndoesWakeUp(s, a, s');
    }
  }
}

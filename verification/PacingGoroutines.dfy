/**
 What becomes of the timer goroutines: each can go on until it has finished, but for one that looks at the variable
 `timer` so late that it waits for a timer not its own.
 */
module PacingGoroutines {
  import opened RtpQueue
  import opened Pacing
  import PacingFlow
  import PacingTimer

  /**
   A timer goroutine can always take its next step, but for one wait: on the channel that `timer` holds now, while that
   is open. Then its callback is still to come, or it came before the goroutine looked at `timer`.
   */
  lemma TimerGoroutineMoves(states: seq<State>, actions: seq<Action>, k: nat, n: nat)
    requires IsExecution(states, actions) && k < |states| && n < |states[k].timers|
    ensures NamesDefined(states[k])
    ensures
      var s, t := states[k], states[k].timers[n];
      match t.pc
      case Spawned => Enabled(s, TimerStart(n)) && Step(s, TimerStart(n)).timers[n] == Timer(Started, Armed)
      case Started => Enabled(s, TimerEvaluate(n)) && TimerAt(Step(s, TimerEvaluate(n)), n, Waiting(s.channel))
      case Waiting(c) =>
        if c in s.closed then Enabled(s, TimerWake(n)) && TimerAt(Step(s, TimerWake(n)), n, Woken)
        else c == s.channel && (t.callback.Armed? || t.callback.Running? || t.callback.Fired?)
      case Woken => Enabled(s, TimerStop(n)) && TimerAt(Step(s, TimerStop(n)), n, Finished)
      case Finished => true
  {
    PacingFlow.ExecutionKeeps(states, actions, k);
    PacingTimer.ExecutionKeeps(states, actions, k);
    assert PacingTimer.TimerConsistent(states[k], states[k].timers[n]);
  }

  /** Some execution ends in `s`. */
  ghost predicate Reachable(s: State) {
    exists states, actions :: IsExecution(states, actions) && states[|actions|] == s
  }

  lemma StepIsReachable(s: State, a: Action) returns (s': State)
    requires Reachable(s) && Enabled(s, a) && NamesDefined(s)
    ensures s' == Step(s, a) && Reachable(s')
  {
    s' := Step(s, a);
    var states, actions :| IsExecution(states, actions) && states[|actions|] == s;
    var states', actions' := states + [s'], actions + [a];
    assert states'[0] == states[0];
    forall i | 0 <= i < |actions'| ensures Next(states'[i], actions'[i], states'[i + 1]) {
      if i < |actions| {
        assert Next(states[i], actions[i], states[i + 1]);
      }
    }
    assert IsExecution(states', actions') && states'[|actions'|] == s';
  }

  /** A packet has been enqueued and announced, and the loop has received the signal. */
  lemma FirstSignal(item: Item) returns (s: State)
    ensures Reachable(s)
    ensures s == Init(1).(pc := CheckSize, packets := [item], queue := [0])
  {
    s := Init(1);
    assert IsExecution([s], []) && [s][0] == s;
    s := StepIsReachable(s, WriterEnqueue(0, item));
    s := StepIsReachable(s, WriterAnnounce(0));
    s := StepIsReachable(s, ReceiveFrame(0));
    assert s.writers == Init(1).writers;
  }

  /** The controller has asked for a delay, and the loop waits for the timer. */
  lemma FirstTimer(item: Item) returns (s: State)
    ensures Reachable(s)
    ensures s.pc == Select && s.timerSet && s.channel == 0 && s.closed == {} && s.timers == [Timer(Spawned, NotArmed)]
  {
    s := FirstSignal(item);
    s := StepIsReachable(s, CheckQueue);
    s := StepIsReachable(s, AskController(1.0));
    s := StepIsReachable(s, ActOnAnswer);
    s := StepIsReachable(s, RaiseTimerSet);
  }

  /** The callback has fired, but the goroutine has not yet looked at `timer`. */
  lemma FiredEarly(item: Item) returns (s: State)
    ensures Reachable(s)
    ensures s.pc == Select && s.timerSet && s.channel == 0 && s.closed == {0} && s.timers == [Timer(Started, Fired)]
  {
    s := FirstTimer(item);
    s := StepIsReachable(s, TimerStart(0));
    s := StepIsReachable(s, CallbackExpire(0));
    s := StepIsReachable(s, CallbackClose(0));
  }

  /** The loop has woken up and replaced the channel before that. */
  lemma Replaced(item: Item) returns (s: State)
    ensures Reachable(s)
    ensures s.pc == CheckSize && !s.timerSet && s.channel == 1 && s.closed == {0} && s.timers == [Timer(Started, Fired)]
  {
    s := FiredEarly(item);
    s := StepIsReachable(s, ReceiveTimer);
    s := StepIsReachable(s, ClearTimerSet);
    s := StepIsReachable(s, ReplaceChannel);
  }

  /**
   The second kind of wait does happen: a goroutine that looks at `timer` only after the loop has replaced the channel
   waits for the next timer, though its own has fired and no other is set.
   */
  lemma LateGoroutineWaits(item: Item) returns (s: State)
    ensures Reachable(s)
    ensures s.timers == [Timer(Waiting(1), Fired)] && s.channel == 1 && s.closed == {0}
    ensures !s.timerSet && s.pc.Select? && s.queue == []
  {
    s := Replaced(item);
    s := StepIsReachable(s, TimerEvaluate(0));
    s := StepIsReachable(s, LibraryClear);
    s := StepIsReachable(s, CheckQueue);
  }
}

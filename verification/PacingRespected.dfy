/**
 The loop obeys the controller: every packet written was permitted by an answer of its own, and after an answer
 that asks for a delay nothing is written before the timer of that very answer has fired.
 */
module PacingRespected {
  import opened Pacing
  import PacingTimer

  /** How many answers among `actions` permit a packet to be sent at once: those up to 1e-3, but for -1. */
  function Permissions(actions: seq<Action>): nat {
    if actions == [] then 0
    else
      var last := actions[|actions| - 1];
      var permits := last.AskController? && last.answer != -1.0 && last.answer <= 0.001;
      Permissions(actions[..|actions| - 1]) + if permits then 1 else 0
  }

  /** Packets written, and packets that a permission already given will still let through. */
  function Used(s: State): nat {
    |s.attempts| + if s.pc.Write? || (s.pc.Decide? && SendsNow(s.pc.transmit)) then 1 else 0
  }

  lemma UsedStep(s: State, a: Action, s': State)
    requires Next(s, a, s')
    ensures Used(s') <= Used(s) + if a.AskController? && SendsNow(a.answer) then 1 else 0
  {
  }

  /** In every execution, no more packets have been written than the controller has permitted. */
  lemma {:induction false} EachWriteIsPermitted(states: seq<State>, actions: seq<Action>, k: nat)
    requires IsExecution(states, actions) && k < |states|
    ensures |states[k].attempts| <= Used(states[k]) <= Permissions(actions[..k])
  {
    if k > 0 {
      EachWriteIsPermitted(states, actions, k - 1);
      UsedStep(states[k - 1], actions[k - 1], states[k]);
      assert actions[..k][..k - 1] == actions[..k - 1];
    }
  }

  /** Every answer up to 1e-3, but for -1, sends the head of the queue. */
  lemma SmallAnswerSends(s: State, answer: real)
    requires s.pc == Decide(answer) && answer != -1.0 && answer <= 0.001 && s.queue != []
    ensures
      var t := Step(s, ActOnAnswer);
      && t.pc == Write(s.queue[0]) && t.queue == s.queue[1..] && NamesDefined(t)
      && Step(t, WritePacket).attempts == s.attempts + [s.queue[0]]
  {
  }

  /** And no other answer does: -1 makes the loop wait, a larger one makes it set a timer. */
  lemma OtherAnswersSendNothing(s: State, answer: real)
    requires s.pc == Decide(answer) && (answer == -1.0 || answer > 0.001)
    ensures
      var t := Step(s, ActOnAnswer);
      && t.queue == s.queue && t.attempts == s.attempts
      && t.pc == (if answer == -1.0 then Select else TimerSpawned)
      && |t.timers| == |s.timers| + if answer == -1.0 then 0 else 1
  {
  }

  /** So feedback and such an answer are all that a waiting packet needs. */
  lemma FeedbackSendsHead(s: State, answer: real) returns (states: seq<State>)
    requires s.pc.Select? && !s.timerSet && s.queue != [] && answer != -1.0 && answer <= 0.001
    ensures IsRun(states, [ReceiveFeedback, CheckQueue, AskController(answer), ActOnAnswer, WritePacket])
    ensures states[0] == s
    ensures states[5].attempts == s.attempts + [s.queue[0]] && states[5].queue == s.queue[1..]
  {
    var checks := Step(s, ReceiveFeedback);
    var asks := Step(checks, CheckQueue);
    var decides := Step(asks, AskController(answer));
    SmallAnswerSends(decides, answer);
    var writes := Step(decides, ActOnAnswer);
    states := [s, checks, asks, decides, writes, Step(writes, WritePacket)];
  }

  /** The answer given in step `j` lets the packet go that is written in step `k`. */
  ghost predicate Permits(actions: seq<Action>, j: nat, k: nat)
    requires j < k < |actions|
  {
    && actions[j].AskController?
    && actions[j].answer != -1.0 && actions[j].answer <= 0.001
    && forall i :: j < i < k ==> !actions[i].AskController? && !actions[i].WritePacket?
  }

  /**
   Each write has a permission of its own: the answer before it is at most 1e-3 and not -1, and no other write comes
   between the two. Until then it is the loop's to decide or to write.
   */
  lemma {:induction false} WriteFollowsPermission(states: seq<State>, actions: seq<Action>, k: nat) returns (j: nat)
    requires IsExecution(states, actions) && k < |actions|
    requires states[k].pc.Write? || (states[k].pc.Decide? && SendsNow(states[k].pc.transmit))
    ensures j < k && Permits(actions, j, k)
    ensures states[k].pc.Decide? ==> actions[j].answer == states[k].pc.transmit
  {
    assert k > 0;
    assert Next(states[k - 1], actions[k - 1], states[k]);
    if actions[k - 1].AskController? {
      j := k - 1;
    } else {
      j := WriteFollowsPermission(states, actions, k - 1);
    }
  }

  /**
   Between an answer above the threshold and the wake-up by its timer, which will be the timer numbered
   `timer`: nothing has been written since.
   */
  predicate Held(s: State, answer: real, timer: nat, attempts: seq<nat>) {
    && s.attempts == attempts
    && (|| (s.pc == Decide(answer) && |s.timers| == timer)
        || (s.pc.TimerSpawned? && |s.timers| == timer + 1)
        || (s.timerSet && (s.pc.Select? || s.pc.Returned?) && |s.timers| == timer + 1))
  }

  lemma HeldStep(s: State, a: Action, s': State, answer: real, timer: nat, attempts: seq<nat>)
    requires PacingTimer.Invariant(s) && Next(s, a, s') && answer > SEND_NOW
    requires Held(s, answer, timer, attempts)
    ensures Held(s', answer, timer, attempts) || CallbackAt(s', timer, Fired)
  {
    if a.ReceiveTimer? {
      assert PacingTimer.TimerConsistent(s, s.timers[timer]);
      assert !PacingTimer.Pending(s);
      assert CallbackAt(s', timer, Fired);
    }
  }

  lemma FiredStays(s: State, a: Action, s': State, timer: nat)
    requires PacingTimer.Invariant(s) && Next(s, a, s') && CallbackAt(s, timer, Fired)
    ensures CallbackAt(s', timer, Fired)
  {
    assert PacingTimer.TimerConsistent(s, s.timers[timer]);
  }

  lemma {:induction false} HeldUntilFired(states: seq<State>, actions: seq<Action>, j: nat, k: nat)
    requires IsExecution(states, actions) && j < k < |states|
    requires actions[j].AskController? && actions[j].answer > SEND_NOW
    ensures
      var timer := |states[j].timers|;
      || Held(states[k], actions[j].answer, timer, states[j].attempts)
      || CallbackAt(states[k], timer, Fired)
  {
    var timer := |states[j].timers|;
    assert Next(states[k - 1], actions[k - 1], states[k]);
    if k > j + 1 {
      HeldUntilFired(states, actions, j, k - 1);
      PacingTimer.ExecutionKeeps(states, actions, k - 1);
      if CallbackAt(states[k - 1], timer, Fired) {
        FiredStays(states[k - 1], actions[k - 1], states[k], timer);
      } else {
        HeldStep(states[k - 1], actions[k - 1], states[k], actions[j].answer, timer, states[j].attempts);
      }
    }
  }

  /**
   After an answer above 1e-3 nothing is written before the callback of the timer set for that answer, the next one to
   be spawned, has fired.
   */
  lemma NothingSentBeforeTimer(states: seq<State>, actions: seq<Action>, j: nat, k: nat)
    requires IsExecution(states, actions) && j < k < |states|
    requires actions[j].AskController? && actions[j].answer > 0.001
    ensures
      var timer := |states[j].timers|;
      || states[k].attempts == states[j].attempts
      || (timer < |states[k].timers| && states[k].timers[timer].callback == Fired)
  {
    HeldUntilFired(states, actions, j, k);
  }
}

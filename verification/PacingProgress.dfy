/**
 Why the pacing loop neither forgets a packet nor drains for ever: no wake-up is lost, and each drain
 ends after a number of steps fixed when it begins, whatever the controller answers and however the
 other goroutines interleave.
 */
module PacingProgress {
  import opened Pacing
  import opened RtpQueue
  import PacingTimer

  // ----- no lost wake-up -----

  predicate Holds(w: Writer, packet: nat) {
    !w.Idle? && w.packet == packet
  }

  /** Something will still make the loop look at `packet`, or the controller has just refused it. */
  predicate Covered(s: State, packet: nat) {
    || s.timerSet
    || packet in s.refused
    || exists w :: 0 <= w < |s.writers| && Holds(s.writers[w], packet)
  }

  ghost predicate AllCovered(s: State) {
    s.pc.Select? || s.pc == Decide(-1.0) ==> forall packet :: packet in s.queue ==> Covered(s, packet)
  }

  /** No step but the loop's takes a packet's signal away from its writer. */
  lemma WritersKeep(s: State, a: Action, s': State, packet: nat)
    requires Next(s, a, s') && !LoopAction(a) && Covered(s, packet)
    ensures Covered(s', packet)
  {
    if w :| 0 <= w < |s.writers| && Holds(s.writers[w], packet) {
      assert Holds(s'.writers[w], packet);
    }
  }

  lemma LoopCovers(s: State, a: Action, s': State, packet: nat)
    requires AllCovered(s) && Next(s, a, s') && LoopAction(a)
    requires (s'.pc.Select? || s'.pc == Decide(-1.0)) && packet in s'.queue
    ensures Covered(s', packet)
  {
  }

  lemma PacketStaysCovered(s: State, a: Action, s': State, packet: nat)
    requires AllCovered(s) && Next(s, a, s')
    requires (s'.pc.Select? || s'.pc == Decide(-1.0)) && packet in s'.queue
    ensures Covered(s', packet)
  {
    if a.WriterEnqueue? {
      if packet == |s.packets| {
        assert Holds(s'.writers[a.writer], packet);
      } else {
        assert packet in s.queue;
        WritersKeep(s, a, s', packet);
      }
    } else if !LoopAction(a) {
      WritersKeep(s, a, s', packet);
    } else {
      LoopCovers(s, a, s', packet);
    }
  }

  lemma StepCovers(s: State, a: Action, s': State)
    requires AllCovered(s) && Next(s, a, s')
    ensures AllCovered(s')
  {
    if s'.pc.Select? || s'.pc == Decide(-1.0) {
      forall packet | packet in s'.queue ensures Covered(s', packet) {
        PacketStaysCovered(s, a, s', packet);
      }
    }
  }

  lemma {:induction false} ExecutionCovers(states: seq<State>, actions: seq<Action>, k: nat)
    requires IsExecution(states, actions) && k < |states|
    ensures AllCovered(states[k])
  {
    if k > 0 {
      ExecutionCovers(states, actions, k - 1);
      StepCovers(states[k - 1], actions[k - 1], states[k]);
    }
  }

  /** Step `j` was an answer of -1 given while `packet` was queued, and no later answer came before state `k`. */
  ghost predicate RefusedAt(states: seq<State>, actions: seq<Action>, j: nat, k: nat, packet: nat)
    requires |states| == |actions| + 1 && j < k < |states|
  {
    && actions[j] == AskController(-1.0)
    && packet in states[j].queue
    && forall i :: j < i < k ==> !actions[i].AskController?
  }

  lemma {:induction false} RefusedMeansAnswered(states: seq<State>, actions: seq<Action>, k: nat, packet: nat)
    returns (j: nat)
    requires IsExecution(states, actions) && k < |states| && packet in states[k].refused
    ensures j < k && RefusedAt(states, actions, j, k, packet)
  {
    assert k > 0;
    assert Next(states[k - 1], actions[k - 1], states[k]);
    if actions[k - 1].AskController? {
      j := k - 1;
    } else {
      assert states[k].refused == states[k - 1].refused;
      j := RefusedMeansAnswered(states, actions, k - 1, packet);
    }
  }

  /**
   No lost wake-up, for each packet by itself: whenever the loop waits in its select while `packet` is
   queued, a timer is set, or the writer that enqueued it has still to deliver its signal, or the
   controller's latest answer was -1 and was given with this packet already in the queue.
   */
  lemma NoLostWakeup(states: seq<State>, actions: seq<Action>, k: nat, packet: nat)
    requires IsExecution(states, actions) && k < |states|
    requires states[k].pc.Select? && packet in states[k].queue
    ensures
      || states[k].timerSet
      || (exists w :: 0 <= w < |states[k].writers| && Holds(states[k].writers[w], packet))
      || (exists j: nat :: j < k && RefusedAt(states, actions, j, k, packet))
  {
    ExecutionCovers(states, actions, k);
    if packet in states[k].refused {
      var j := RefusedMeansAnswered(states, actions, k, packet);
    }
  }

  /**
   And none of these wake-ups is stuck: unless the packet was refused, some timer step, or a step of the
   writer that holds the packet, can be taken now; the writer's last one makes the loop look at its queue.
   */
  lemma WakeupIsPossible(states: seq<State>, actions: seq<Action>, k: nat, packet: nat) returns (a: Action)
    requires IsExecution(states, actions) && k < |states|
    requires states[k].pc.Select? && packet in states[k].queue && packet !in states[k].refused
    ensures Enabled(states[k], a) && NamesDefined(states[k])
    ensures a.ReceiveTimer? || PacingTimer.TimerAction(a) || a.WriterAnnounce? || a.ReceiveFrame?
    ensures PacingTimer.Invariant(states[k])
    ensures states[k].timerSet ==> a == PacingTimer.WakeUpAction(states[k])
    ensures !states[k].timerSet ==>
      && (a.WriterAnnounce? || a.ReceiveFrame?)
      && a.writer < |states[k].writers|
      && Holds(states[k].writers[a.writer], packet)
      && (a.ReceiveFrame? ==> Step(states[k], a).pc.CheckSize?)
  {
    ExecutionCovers(states, actions, k);
    PacingTimer.ExecutionKeeps(states, actions, k);
    var s := states[k];
    if s.timerSet {
      a := PacingTimer.WakeUpAction(s);
      PacingTimer.ArmedTimerWakesLoop(s, a, s);
    } else {
      var w :| 0 <= w < |s.writers| && Holds(s.writers[w], packet);
      a := if s.writers[w].Enqueued? then WriterAnnounce(w) else ReceiveFrame(w);
    }
  }

  /** A frame or feedback sends the waiting loop to its queue, unless a timer is set, and changes nothing else. */
  lemma SignalWakesUnlessTimerSet(s: State, a: Action, s': State)
    requires Next(s, a, s') && (a.ReceiveFeedback? || a.ReceiveFrame?)
    ensures s.pc.Select? && s'.pc == if s.timerSet then Select else CheckSize
    ensures s'.queue == s.queue && s'.timerSet == s.timerSet && s'.attempts == s.attempts
  {
  }

  /** At its queue the loop goes on to ask the controller exactly if there is a packet. */
  lemma AsksIffQueued(s: State, s': State)
    requires Next(s, CheckQueue, s')
    ensures s'.queue == s.queue && s'.pc == if s.queue == [] then Select else Ask
  {
  }

  /**
   The wake-up that is always there, for refused packets too: while the loop waits without a timer, feedback can arrive,
   and then every queued packet makes the loop ask the controller again.
   */
  lemma FeedbackRevivesRefused(states: seq<State>, actions: seq<Action>, k: nat, packet: nat)
    requires IsExecution(states, actions) && k < |states|
    requires states[k].pc.Select? && !states[k].timerSet && packet in states[k].queue
    ensures Enabled(states[k], ReceiveFeedback) && NamesDefined(states[k])
    ensures
      var t := Step(states[k], ReceiveFeedback);
      && t.pc.CheckSize? && packet in t.queue
      && Enabled(t, CheckQueue) && NamesDefined(t)
      && Step(t, CheckQueue).pc.Ask? && packet in Step(t, CheckQueue).queue
      && IsExecution(states[..k + 1] + [t, Step(t, CheckQueue)], actions[..k] + [ReceiveFeedback, CheckQueue])
  {
    var t := Step(states[k], ReceiveFeedback);
    var states', actions' := states[..k + 1] + [t, Step(t, CheckQueue)], actions[..k] + [ReceiveFeedback, CheckQueue];
    assert states'[0] == states[0];
    forall i | 0 <= i < |actions'| ensures Next(states'[i], actions'[i], states'[i + 1]) {
      if i < k {
        assert Next(states[i], actions[i], states[i + 1]);
      }
    }
  }

  /** The select offers all that is there, whether or not a timer is set, so a set timer holds no writer up. */
  lemma SelectOffersAll(s: State, w: nat)
    ensures Enabled(s, ReceiveFeedback) <==> s.pc.Select?
    ensures Enabled(s, ReceiveFrame(w)) <==> s.pc.Select? && w < |s.writers| && s.writers[w].Signalling?
    ensures Enabled(s, ReceiveTimer) <==> s.pc.Select? && s.channel in s.closed
    ensures Enabled(s, ReceiveClose) <==> s.pc.Select? && s.closing
    ensures Enabled(s, WriterAnnounce(w)) <==> w < |s.writers| && s.writers[w].Enqueued?
  {
  }

  /** Nothing holds the environment back: any answer, Clear at any time, any packet of an idle writer. */
  lemma EnvironmentIsFree(s: State, answer: real, w: nat, item: Item)
    ensures s.pc.Ask? ==> Enabled(s, AskController(answer))
    ensures Enabled(s, LibraryClear) && Enabled(s, CloseInterceptor)
    ensures w < |s.writers| && s.writers[w].Idle? ==> Enabled(s, WriterEnqueue(w, item))
  {
  }

  lemma {:induction false} ClosingStays(states: seq<State>, actions: seq<Action>, j: nat, k: nat)
    requires IsRun(states, actions) && j <= k < |states| && states[j].closing
    ensures states[k].closing
  {
    if k > j {
      ClosingStays(states, actions, j, k - 1);
      assert Next(states[k - 1], actions[k - 1], states[k]);
    }
  }

  /** Once the interceptor has been closed the waiting loop can return, and after it has returned it writes nothing. */
  lemma {:induction false} CloseEndsLoop(states: seq<State>, actions: seq<Action>, j: nat, k: nat)
    requires IsRun(states, actions) && j < k < |states|
    ensures actions[j].CloseInterceptor? && states[k].pc.Select? ==> Enabled(states[k], ReceiveClose)
    ensures actions[j].ReceiveClose? ==> states[k].pc.Returned? && states[k].attempts == states[j].attempts
  {
    assert Next(states[k - 1], actions[k - 1], states[k]);
    if k > j + 1 {
      CloseEndsLoop(states, actions, j, k - 1);
    }
    if actions[j].CloseInterceptor? {
      assert Next(states[j], actions[j], states[j + 1]);
      ClosingStays(states, actions, j + 1, k);
    }
  }

  // ----- every drain ends -----

  predicate Draining(s: State) {
    s.pc.CheckSize? || s.pc.Ask? || s.pc.Decide? || s.pc.Write? || s.pc.Report? || s.pc.TimerSpawned?
  }

  /** The writers that could still enqueue before they have to wait for the loop. */
  function FreeWriters(writers: seq<Writer>): nat {
    if writers == [] then 0
    else FreeWriters(writers[..|writers| - 1]) + if writers[|writers| - 1].Idle? then 1 else 0
  }

  /** How many packets the drain can still dequeue. */
  function Budget(s: State): nat {
    |s.queue| + FreeWriters(s.writers)
  }

  /** How many steps the loop can still take before it waits again. */
  function Rank(s: State): nat {
    4 * Budget(s) +
      match s.pc
      case Write(_) => 4
      case Report(_) => 3
      case CheckSize => 3
      case Ask => 2
      case Decide(_) => 1
      case _ => 0
  }

  lemma {:induction false} FreeWritersUpdate(writers: seq<Writer>, k: nat, w: Writer)
    requires k < |writers|
    ensures FreeWriters(writers[k := w]) ==
      FreeWriters(writers) - (if writers[k].Idle? then 1 else 0) + (if w.Idle? then 1 else 0)
  {
    var n := |writers| - 1;
    if k == n {
      assert writers[k := w][..n] == writers[..n];
    } else {
      assert writers[k := w][..n] == writers[..n][k := w];
      FreeWritersUpdate(writers[..n], k, w);
    }
  }

  lemma {:induction false} AllFree(writers: seq<Writer>)
    requires forall k :: 0 <= k < |writers| ==> writers[k].Idle?
    ensures FreeWriters(writers) == |writers|
  {
    if writers != [] {
      AllFree(writers[..|writers| - 1]);
    }
  }

  /** How many signals the loop has received. */
  function Signals(actions: seq<Action>): nat {
    if actions == [] then 0
    else Signals(actions[..|actions| - 1]) + if actions[|actions| - 1].ReceiveFrame? then 1 else 0
  }

  lemma SignalStep(s: State, a: Action, s': State)
    requires Next(s, a, s')
    ensures |s'.writers| == |s.writers|
    ensures |s'.packets| + FreeWriters(s'.writers) ==
      |s.packets| + FreeWriters(s.writers) + if a.ReceiveFrame? then 1 else 0
  {
    match a
    case WriterEnqueue(w, _) => FreeWritersUpdate(s.writers, w, s'.writers[w]);
    case WriterAnnounce(w) => FreeWritersUpdate(s.writers, w, s'.writers[w]);
    case ReceiveFrame(w) => FreeWritersUpdate(s.writers, w, Idle);
    case _ =>
  }

  /** One signal for each packet: those the loop has received, and those that busy writers have still to deliver. */
  lemma {:induction false} SignalsMatchPackets(states: seq<State>, actions: seq<Action>, k: nat)
    requires IsExecution(states, actions) && k < |states|
    ensures
      var s := states[k];
      |s.packets| == Signals(actions[..k]) + (|s.writers| - FreeWriters(s.writers))
  {
    if k == 0 {
      var writers: nat :| states[0] == Init(writers);
      AllFree(states[0].writers);
    } else {
      SignalsMatchPackets(states, actions, k - 1);
      assert actions[..k][..k - 1] == actions[..k - 1];
      SignalStep(states[k - 1], actions[k - 1], states[k]);
    }
  }

  /** A writer that enqueues during the drain uses itself up: it cannot come back before the loop waits. */
  lemma OthersKeepBudget(s: State, a: Action, s': State)
    requires Draining(s) && Next(s, a, s') && !LoopAction(a)
    ensures s'.pc == s.pc && Budget(s') <= Budget(s) && s'.attempts == s.attempts
  {
    if a.WriterEnqueue? || a.WriterAnnounce? {
      FreeWritersUpdate(s.writers, a.writer, s'.writers[a.writer]);
    }
  }

  /** Each step of the loop brings the end of the drain strictly closer. */
  lemma LoopStepDescends(s: State, a: Action, s': State)
    requires Draining(s) && Next(s, a, s') && LoopAction(a)
    ensures Draining(s') ==> Rank(s') < Rank(s)
    ensures Draining(s') || s'.pc.Select?
  {
  }

  /** The loop is never stuck inside a drain, whatever the controller would answer. */
  lemma DrainCanAdvance(s: State, answer: real) returns (a: Action)
    requires Draining(s) && NamesDefined(s)
    ensures LoopAction(a) && Enabled(s, a) && Next(s, a, Step(s, a)) && (a.AskController? ==> a.answer == answer)
  {
    match s.pc
    case CheckSize => a := CheckQueue;
    case Ask => a := AskController(answer);
    case Decide(_) => a := ActOnAnswer;
    case Write(_) => a := WritePacket;
    case Report(_) => a := ReportPacket;
    case _ => a := RaiseTimerSet;
  }

  function LoopSteps(actions: seq<Action>): nat {
    if actions == [] then 0
    else LoopSteps(actions[..|actions| - 1]) + if LoopAction(actions[|actions| - 1]) then 1 else 0
  }

  /**
   A drain ends: over any run that stays in one drain, from any state, the loop's own steps are bounded by
   the rank at its start, no matter how many steps others take and what the controller answers.
   */
  lemma {:induction false} DrainEnds(states: seq<State>, actions: seq<Action>)
    requires IsRun(states, actions)
    requires forall k :: 0 <= k < |states| ==> Draining(states[k])
    ensures LoopSteps(actions) + Rank(states[|actions|]) <= Rank(states[0])
  {
    var n := |actions| - 1;
    if n >= 0 {
      DrainEnds(states[..n + 1], actions[..n]);
      assert Next(states[n], actions[n], states[n + 1]);
      if LoopAction(actions[n]) {
        LoopStepDescends(states[n], actions[n], states[n + 1]);
      } else {
        OthersKeepBudget(states[n], actions[n], states[n + 1]);
      }
    }
  }

  /** Packets that are committed to be written, or may still be, before the loop waits. */
  function Sendable(s: State): nat {
    Budget(s) + if s.pc.Write? then 1 else 0
  }

  lemma SendableStep(s: State, a: Action, s': State)
    requires Draining(s) && Next(s, a, s')
    ensures s'.attempts == s.attempts || (a.WritePacket? && |s'.attempts| == |s.attempts| + 1)
    ensures |s'.attempts| + Sendable(s') <= |s.attempts| + Sendable(s)
  {
    if !LoopAction(a) {
      OthersKeepBudget(s, a, s');
    }
  }

  lemma {:induction false} SendsAtMost(states: seq<State>, actions: seq<Action>)
    requires IsRun(states, actions)
    requires forall k :: 0 <= k < |actions| ==> Draining(states[k])
    ensures |states[|actions|].attempts| + Sendable(states[|actions|]) <= |states[0].attempts| + Sendable(states[0])
  {
    var n := |actions| - 1;
    if n >= 0 {
      SendsAtMost(states[..n + 1], actions[..n]);
      assert Next(states[n], actions[n], states[n + 1]);
      SendableStep(states[n], actions[n], states[n + 1]);
    }
  }

  /** One wake-up writes at most as many packets as were queued, plus one for each writer not already waiting. */
  lemma DrainSendsAtMost(states: seq<State>, actions: seq<Action>)
    requires IsRun(states, actions) && states[0].pc.CheckSize?
    requires forall k :: 0 <= k < |actions| ==> Draining(states[k])
    ensures |states[|actions|].attempts| - |states[0].attempts| <= |states[0].queue| + FreeWriters(states[0].writers)
  {
    SendsAtMost(states, actions);
  }
}

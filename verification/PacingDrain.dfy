/**
 The inner loop of `loopPacingTimer` as the loop it is, on the queue of rtp_queue.go, when no other goroutine
 gets in between; and the same drain as a run of the step system.
 */
module PacingDrain {
  import opened RtpQueue
  import opened Pacing
  import opened Wrappers
  import PacingFlow

  /** Why the loop stopped: the controller refused, the queue was empty, or a timer was set for so many milliseconds. */
  datatype DrainEnd = Refused | Emptied | Paced(delayMs: nat)

  /** `time.Duration(1000*transmit)` milliseconds, which drops the fraction of a millisecond. */
  function DelayMs(answer: real): (d: nat)
    requires answer > SEND_NOW
    ensures d >= 1 && d as real <= 1000.0 * answer < d as real + 1.0
  {
    (1000.0 * answer).Floor
  }

  function EndAfter(answer: real): DrainEnd {
    if answer == -1.0 then Refused else if answer <= SEND_NOW then Emptied else Paced(DelayMs(answer))
  }

  /** The step leaves the drain on `answer`: with a new timer, after a refusal, or because the queue is empty. */
  predicate Stops(s: State, a: Action, s': State, answer: real) {
    && a.ActOnAnswer? && s.pc == Decide(answer)
    && match EndAfter(answer)
       case Refused => s'.pc.Select?
       case Emptied => s'.pc.Select? && s.queue == []
       case Paced(_) => s'.pc.TimerSpawned? && |s'.timers| == |s.timers| + 1
  }

  /** How many of `n` queued packets are sent if the next answer is the k-th. */
  function SentCount(n: nat, answers: nat -> real, k: nat): nat {
    if n == 0 || !SendsNow(answers(k)) then 0 else 1 + SentCount(n - 1, answers, k + 1)
  }

  /** Packets are sent up to the first answer that does not say to send now, or to the end of the queue. */
  lemma {:induction false} SentUntilStopped(n: nat, answers: nat -> real, k: nat)
    ensures
      var m := SentCount(n, answers, k);
      && m <= n
      && (forall i :: k <= i < k + m ==> answers(i) != -1.0 && answers(i) <= 0.001)
      && (m < n ==> answers(k + m) == -1.0 || answers(k + m) > 0.001)
  {
    if n > 0 && SendsNow(answers(k)) {
      SentUntilStopped(n - 1, answers, k + 1);
    }
  }

  function Packets(items: seq<Item>): (r: seq<Packet>)
    ensures |r| == |items| && forall i :: 0 <= i < |r| ==> r[i] == items[i].packet
  {
    seq(|items|, i requires 0 <= i < |items| => items[i].packet)
  }

  /**
   The drain: each packet goes to the writer, whatever the writer says, until the controller stops it. It
   ends for every sequence of answers, takes the packets from the front, and leaves the rest.
   */
  method Drain(q: Queue, answers: nat -> real) returns (sent: seq<Packet>, end: DrainEnd)
    requires q.Valid()
    modifies q
    ensures q.Valid()
    ensures
      var was := old(q.queue);
      var m := SentCount(|was|, answers, 0);
      && m <= |was|
      && sent == Packets(was[..m])
      && q.queue == was[m..]
      && end == EndAfter(answers(m))
    ensures forall i :: 0 <= i < |sent| ==> answers(i) != -1.0 && answers(i) <= 0.001
    ensures
      var answer := answers(|sent|);
      match end
      case Refused => answer == -1.0
      case Emptied => answer != -1.0 && answer <= 0.001 && q.queue == []
      case Paced(delayMs) => answer > 0.001 && delayMs as real <= 1000.0 * answer < delayMs as real + 1.0
  {
    sent := [];
    var k := 0;
    ghost var was := q.queue;
    SentUntilStopped(|was|, answers, 0);
    while true
      invariant q.Valid() && k <= |was| && q.queue == was[k..] && sent == Packets(was[..k])
      invariant SentCount(|was|, answers, 0) == k + SentCount(|was| - k, answers, k)
      decreases |q.queue|
    {
      var transmit := answers(k);
      if transmit == -1.0 {
        return sent, Refused;
      }
      if transmit <= SEND_NOW {
        var packet := q.Dequeue();
        if packet == None {
          return sent, Emptied;
        }
        assert was[..k + 1] == was[..k] + [was[k]];
        sent := sent + [packet.value];
      }
      if transmit > SEND_NOW {
        return sent, Paced(DelayMs(transmit));
      }
      k := k + 1;
    }
  }

  /** One iteration that sends the packet at the head. */
  lemma SendOne(s: State, answer: real) returns (states: seq<State>, actions: seq<Action>)
    requires s.pc.Ask? && PacingFlow.Below(s.queue, |s.packets|) && SendsNow(answer) && s.queue != []
    ensures |actions| == 4 && IsRun(states, actions) && states[0] == s
    ensures forall i :: 0 <= i < |actions| ==> LoopAction(actions[i])
    ensures
      var t := states[4];
      && t.pc.Ask? && t.packets == s.packets
      && t.queue == s.queue[1..] && t.attempts == s.attempts + [s.queue[0]]
      && PacingFlow.Below(t.queue, |t.packets|)
  {
    var asked := Step(s, AskController(answer));
    var acted := Step(asked, ActOnAnswer);
    assert acted.pc == Write(s.queue[0]) && s.queue[0] < |s.packets|;
    var written := Step(acted, WritePacket);
    var reported := Step(written, ReportPacket);
    states := [s, asked, acted, written, reported];
    actions := [AskController(answer), ActOnAnswer, WritePacket, ReportPacket];
  }

  lemma SendsOneMore(attempts: seq<nat>, queue: seq<nat>, m: nat)
    requires m < |queue|
    ensures attempts + [queue[0]] + queue[1..][..m] == attempts + queue[..m + 1]
    ensures queue[1..][m..] == queue[m + 1..]
  {
  }

  /** The last iteration, which sends nothing. */
  lemma StopDraining(s: State, answer: real) returns (states: seq<State>, actions: seq<Action>)
    requires s.pc.Ask? && (!SendsNow(answer) || s.queue == [])
    ensures |actions| == 2 && IsRun(states, actions) && states[0] == s
    ensures forall i :: 0 <= i < |actions| ==> LoopAction(actions[i])
    ensures
      var t := states[2];
      && t.packets == s.packets && t.queue == s.queue && t.attempts == s.attempts
      && Stops(states[1], actions[1], t, answer)
  {
    var asked := Step(s, AskController(answer));
    states, actions := [s, asked, Step(asked, ActOnAnswer)], [AskController(answer), ActOnAnswer];
  }

  lemma JoinRuns(states1: seq<State>, actions1: seq<Action>, states2: seq<State>, actions2: seq<Action>)
    requires IsRun(states1, actions1) && IsRun(states2, actions2)
    requires states1[|actions1|] == states2[0]
    ensures IsRun(states1 + states2[1..], actions1 + actions2)
    ensures
      var states, actions, n := states1 + states2[1..], actions1 + actions2, |actions2|;
      && states[|actions|] == states2[n]
      && (n > 0 ==> states[|actions| - 1] == states2[n - 1] && actions[|actions| - 1] == actions2[n - 1])
  {
    var states, actions, n := states1 + states2[1..], actions1 + actions2, |actions1|;
    forall k | 0 <= k < |actions| ensures Next(states[k], actions[k], states[k + 1]) {
      if k < n {
        assert Next(states1[k], actions1[k], states1[k + 1]);
      } else {
        assert Next(states2[k - n], actions2[k - n], states2[k - n + 1]);
      }
    }
  }

  /**
   The step system can take the same drain: it writes the same packets, leaves the same queue, and its last step acts on
   the same answer, so it stops for the same reason.
   */
  lemma {:induction false} DrainIsRun(s: State, answers: nat -> real, k: nat)
    returns (states: seq<State>, actions: seq<Action>)
    requires s.pc.Ask? && PacingFlow.Below(s.queue, |s.packets|)
    ensures IsRun(states, actions) && states[0] == s
    ensures actions != [] && forall i :: 0 <= i < |actions| ==> LoopAction(actions[i])
    ensures
      var n, t := |actions|, states[|actions|];
      var m := SentCount(|s.queue|, answers, k);
      && m <= |s.queue|
      && t.attempts == s.attempts + s.queue[..m]
      && t.queue == s.queue[m..]
      && t.packets == s.packets
      && Stops(states[n - 1], actions[n - 1], t, answers(k + m))
    decreases |s.queue|
  {
    if SendsNow(answers(k)) && s.queue != [] {
      var first, one := SendOne(s, answers(k));
      var reported := first[4];
      var states', actions' := DrainIsRun(reported, answers, k + 1);
      SendsOneMore(s.attempts, s.queue, SentCount(|reported.queue|, answers, k + 1));
      JoinRuns(first, one, states', actions');
      states, actions := first + states'[1..], one + actions';
    } else {
      states, actions := StopDraining(s, answers(k));
    }
  }
}

/**
 The SCReAM sender's pacing loop (`loopPacingTimer`) and the goroutines around it, as an interleaved
 step system: scream/sender_interceptor.go.

 The actors are the loop, the writer goroutines that enqueue a packet and then wait to hand over
 `newFrame`, one goroutine per timer together with its `AfterFunc` callback, and an environment
 that signals feedback, empties the queue from inside the congestion controller and closes the
 interceptor. `IsOkToTransmit` may answer any real number.
 */
module Pacing {
  import opened RtpQueue
  import opened Words

  // ----- state -----

  /** Where the loop is. `Decide` has the answer of `IsOkToTransmit` in hand; `Write` and `Report` a dequeued packet. */
  datatype LoopPc =
    | Select
    | TimerReceived             // received from `timer`, `timerSet` not yet cleared
    | TimerCleared              // `timerSet` cleared, `timer` not yet replaced
    | CheckSize
    | Ask
    | Decide(transmit: real)
    | Write(packet: nat)
    | Report(packet: nat)
    | TimerSpawned              // timer goroutine started, `timerSet` not yet raised
    | Returned

  /** The timer goroutine: start the timer, evaluate `<-timer`, wait, stop the timer. */
  datatype TimerPc = Spawned | Started | Waiting(channel: nat) | Woken | Finished

  /** The `AfterFunc` callback, which closes the channel that the variable `timer` holds when it runs. */
  datatype Callback = NotArmed | Armed | Running | Fired | Cancelled

  datatype Timer = Timer(pc: TimerPc, callback: Callback)

  /** A writer that is not idle holds the number of the packet it enqueued. */
  datatype Writer = Idle | Enqueued(packet: nat) | Signalling(packet: nat)

  /** The arguments of one `AddTransmitted` call that describe the packet. */
  datatype Transmitted = Transmitted(size: nat, seqNr: uint16, marker: bool)

  /**
   Packets are named by the order in which they were enqueued; `packets` holds what the names stand for.
   Channel generations count the values the variable `timer` has held.
   */
  datatype State = State(
    pc: LoopPc,
    timerSet: bool,
    channel: nat,               // the generation that the variable `timer` holds
    closed: set<nat>,           // the generations that have been closed
    timers: seq<Timer>,
    writers: seq<Writer>,
    closing: bool,              // `s.close` has been closed
    panicked: bool,             // some callback closed a closed channel
    packets: seq<Item>,
    queue: seq<nat>,
    attempts: seq<nat>,         // packets handed to `writer.Write`, in order
    reports: seq<Transmitted>,  // calls to `AddTransmitted`, in order
    cleared: seq<nat>,          // packets dropped by `Clear`
    refused: set<nat>)          // what was queued when the latest answer was -1; empty after any other answer

  function Init(writers: nat): State {
    State(Select, false, 0, {}, [], seq(writers, _ => Idle), false, false, [], [], [], [], [], {})
  }

  // ----- steps -----

  datatype Action =
    | ReceiveFeedback
    | ReceiveFrame(writer: nat)
    | ReceiveTimer
    | ReceiveClose
    | ClearTimerSet
    | ReplaceChannel
    | CheckQueue
    | AskController(answer: real)
    | ActOnAnswer
    | WritePacket
    | ReportPacket
    | RaiseTimerSet
    | TimerStart(timer: nat)
    | TimerEvaluate(timer: nat)
    | TimerWake(timer: nat)
    | TimerStop(timer: nat)
    | CallbackExpire(timer: nat)
    | CallbackClose(timer: nat)
    | WriterEnqueue(writer: nat, item: Item)
    | WriterAnnounce(writer: nat)
    | LibraryClear
    | CloseInterceptor

  predicate LoopAction(a: Action) {
    || a.ReceiveFeedback? || a.ReceiveFrame? || a.ReceiveTimer? || a.ReceiveClose?
    || a.ClearTimerSet? || a.ReplaceChannel? || a.CheckQueue? || a.AskController?
    || a.ActOnAnswer? || a.WritePacket? || a.ReportPacket? || a.RaiseTimerSet?
  }

  predicate TimerAt(s: State, k: nat, pc: TimerPc) {
    k < |s.timers| && s.timers[k].pc == pc
  }

  predicate CallbackAt(s: State, k: nat, callback: Callback) {
    k < |s.timers| && s.timers[k].callback == callback
  }

  predicate Enabled(s: State, a: Action) {
    match a
    case ReceiveFeedback => s.pc.Select?
    case ReceiveFrame(w) => s.pc.Select? && w < |s.writers| && s.writers[w].Signalling?
    case ReceiveTimer => s.pc.Select? && s.channel in s.closed
    case ReceiveClose => s.pc.Select? && s.closing
    case ClearTimerSet => s.pc.TimerReceived?
    case ReplaceChannel => s.pc.TimerCleared?
    case CheckQueue => s.pc.CheckSize?
    case AskController(_) => s.pc.Ask?
    case ActOnAnswer => s.pc.Decide?
    case WritePacket => s.pc.Write?
    case ReportPacket => s.pc.Report?
    case RaiseTimerSet => s.pc.TimerSpawned?
    case TimerStart(k) => TimerAt(s, k, Spawned)
    case TimerEvaluate(k) => TimerAt(s, k, Started)
    case TimerWake(k) => k < |s.timers| && s.timers[k].pc.Waiting? && s.timers[k].pc.channel in s.closed
    case TimerStop(k) => TimerAt(s, k, Woken)
    case CallbackExpire(k) => CallbackAt(s, k, Armed)
    case CallbackClose(k) => CallbackAt(s, k, Running)
    case WriterEnqueue(w, _) => w < |s.writers| && s.writers[w].Idle?
    case WriterAnnounce(w) => w < |s.writers| && s.writers[w].Enqueued?
    case LibraryClear => true
    case CloseInterceptor => true
  }

  function SetTimer(s: State, k: nat, t: Timer): State
    requires k < |s.timers|
  {
    s.(timers := s.timers[k := t])
  }

  /** Below this answer the loop sends at once; above it, it paces. */
  const SEND_NOW: real := 0.001

  predicate SendsNow(answer: real) {
    answer != -1.0 && answer <= SEND_NOW
  }

  /** The three branches after `IsOkToTransmit`, and the early exit when Dequeue returns nil. */
  function Act(s: State, transmit: real): State {
    if transmit == -1.0 then s.(pc := Select)
    else if transmit <= SEND_NOW then
      if s.queue == [] then s.(pc := Select)
      else s.(pc := Write(s.queue[0]), queue := s.queue[1..])
    else s.(pc := TimerSpawned, timers := s.timers + [Timer(Spawned, NotArmed)])
  }

  function Describe(item: Item): Transmitted {
    Transmitted(item.packet.size, item.packet.seqNr, item.packet.marker)
  }

  /** Names in use name enqueued packets; every reachable state satisfies it (see PacingFlow). */
  predicate NamesDefined(s: State) {
    s.pc.Report? ==> s.pc.packet < |s.packets|
  }

  function Step(s: State, a: Action): State
    requires Enabled(s, a) && NamesDefined(s)
  {
    match a
    case ReceiveFeedback => if s.timerSet then s else s.(pc := CheckSize)
    case ReceiveFrame(w) =>
      var t := s.(writers := s.writers[w := Idle]);
      if s.timerSet then t else t.(pc := CheckSize)
    case ReceiveTimer => s.(pc := TimerReceived)
    case ReceiveClose => s.(pc := Returned)
    case ClearTimerSet => s.(pc := TimerCleared, timerSet := false)
    case ReplaceChannel => s.(pc := CheckSize, channel := s.channel + 1)
    case CheckQueue => s.(pc := if |s.queue| <= 0 then Select else Ask)
    case AskController(answer) =>
      s.(pc := Decide(answer), refused := if answer == -1.0 then set i | i in s.queue else {})
    case ActOnAnswer => Act(s, s.pc.transmit)
    case WritePacket => s.(pc := Report(s.pc.packet), attempts := s.attempts + [s.pc.packet])
    case ReportPacket => s.(pc := Ask, reports := s.reports + [Describe(s.packets[s.pc.packet])])
    case RaiseTimerSet => s.(pc := Select, timerSet := true)
    case TimerStart(k) => SetTimer(s, k, Timer(Started, Armed))
    case TimerEvaluate(k) => SetTimer(s, k, s.timers[k].(pc := Waiting(s.channel)))
    case TimerWake(k) => SetTimer(s, k, s.timers[k].(pc := Woken))
    case TimerStop(k) =>
      SetTimer(s, k, Timer(Finished, if s.timers[k].callback.Armed? then Cancelled else s.timers[k].callback))
    case CallbackExpire(k) => SetTimer(s, k, s.timers[k].(callback := Running))
    case CallbackClose(k) =>
      var t := SetTimer(s, k, s.timers[k].(callback := Fired));
      t.(closed := s.closed + {s.channel}, panicked := s.panicked || s.channel in s.closed)
    case WriterEnqueue(w, item) =>
      s.(writers := s.writers[w := Enqueued(|s.packets|)],
         packets := s.packets + [item],
         queue := s.queue + [|s.packets|])
    case WriterAnnounce(w) => s.(writers := s.writers[w := Signalling(s.writers[w].packet)])
    case LibraryClear => s.(queue := [], cleared := s.cleared + s.queue)
    case CloseInterceptor => s.(closing := true)
  }

  predicate Next(s: State, a: Action, s': State) {
    Enabled(s, a) && NamesDefined(s) && s' == Step(s, a)
  }

  // ----- runs -----

  /** `states` is a run whose k-th step is `actions[k]`. It may start anywhere. */
  ghost predicate IsRun(states: seq<State>, actions: seq<Action>) {
    && |states| == |actions| + 1
    && forall k :: 0 <= k < |actions| ==> Next(states[k], actions[k], states[k + 1])
  }

  /** A run of the system with some number of writers, from its start. */
  ghost predicate IsExecution(states: seq<State>, actions: seq<Action>) {
    && IsRun(states, actions)
    && exists writers: nat :: states[0] == Init(writers)
  }
}

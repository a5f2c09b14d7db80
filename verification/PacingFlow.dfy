/**
 What happens to packets: order, conservation and byte accounting over whole executions of the pacing
 system, with the congestion controller free to clear the queue at any moment.
 */
module PacingFlow {
  import opened RtpQueue
  import opened Pacing

  /** The packet dequeued and not yet written. */
  function InHand(s: State): seq<nat> {
    if s.pc.Write? then [s.pc.packet] else []
  }

  /** The packet dequeued and not yet reported to the controller. */
  function Unreported(s: State): seq<nat> {
    if s.pc.Write? || s.pc.Report? then [s.pc.packet] else []
  }

  /** The names of the first `n` packets in the order they were enqueued. */
  function Names(n: nat): (r: seq<nat>)
    ensures |r| == n && forall i :: 0 <= i < n ==> r[i] == i
  {
    seq(n, i => i)
  }

  /** Everything that was not cleared: attempted, in hand, queued. */
  function Kept(s: State): seq<nat> {
    s.attempts + InHand(s) + s.queue
  }

  ghost predicate Increasing(a: seq<nat>) {
    forall i, j :: 0 <= i < j < |a| ==> a[i] < a[j]
  }

  predicate Below(a: seq<nat>, n: nat) {
    forall i :: 0 <= i < |a| ==> a[i] < n
  }

  /** The packets that the names stand for. */
  function Items(packets: seq<Item>, names: seq<nat>): (r: seq<Item>)
    requires Below(names, |packets|)
    ensures |r| == |names| && forall i :: 0 <= i < |r| ==> r[i] == packets[names[i]]
  {
    seq(|names|, i requires 0 <= i < |names| => packets[names[i]])
  }

  /** The sum of the sizes of the packets that the names stand for. */
  function BytesOf(packets: seq<Item>, names: seq<nat>): nat
    requires Below(names, |packets|)
  {
    if names == [] then 0
    else BytesOf(packets, names[..|names| - 1]) + packets[names[|names| - 1]].packet.size
  }

  function ReportedBytes(reports: seq<Transmitted>): nat {
    if reports == [] then 0 else ReportedBytes(reports[..|reports| - 1]) + reports[|reports| - 1].size
  }

  /** Each write attempt is reported once, in order; between the two, the last attempt is outstanding. */
  ghost predicate ReportsMatch(s: State) {
    && |s.attempts| == |s.reports| + (if s.pc.Report? then 1 else 0)
    && (s.pc.Report? ==> s.attempts[|s.reports|] == s.pc.packet)
    && Below(s.attempts, |s.packets|)
    && forall i :: 0 <= i < |s.reports| ==> s.reports[i] == Describe(s.packets[s.attempts[i]])
  }

  ghost predicate Ordered(s: State) {
    && Increasing(Kept(s))
    && Below(Kept(s), |s.packets|)
    && (s.cleared == [] ==> Kept(s) == Names(|s.packets|))
  }

  /** Every enqueued packet is in exactly one place. */
  ghost predicate Partitioned(s: State) {
    multiset(Kept(s)) + multiset(s.cleared) == multiset(Names(|s.packets|))
  }

  /** Every enqueued byte is queued, dequeued but not yet reported, reported, or cleared. */
  ghost predicate Balanced(packets: seq<Item>, queue: seq<nat>, unreported: seq<nat>, reports: seq<Transmitted>,
                           cleared: seq<nat>)
  {
    && Below(queue, |packets|) && Below(unreported, |packets|) && Below(cleared, |packets|)
    && Bytes(packets) ==
       BytesOf(packets, queue) + BytesOf(packets, unreported) + ReportedBytes(reports) + BytesOf(packets, cleared)
  }

  ghost predicate BytesBalance(s: State) {
    Balanced(s.packets, s.queue, Unreported(s), s.reports, s.cleared)
  }

  ghost predicate Invariant(s: State) {
    ReportsMatch(s) && Ordered(s) && Partitioned(s) && BytesBalance(s)
  }

  lemma InitHolds(writers: nat)
    ensures Invariant(Init(writers))
  {
  }

  // ----- one step -----

  predicate MovesPackets(a: Action) {
    a.WriterEnqueue? || a.LibraryClear? || a.ActOnAnswer? || a.WritePacket? || a.ReportPacket?
  }

  /** Nothing that concerns packets is different. */
  ghost predicate SamePackets(s: State, s': State) {
    && s'.packets == s.packets && s'.queue == s.queue && s'.attempts == s.attempts
    && s'.reports == s.reports && s'.cleared == s.cleared
    && InHand(s') == InHand(s) && Unreported(s') == Unreported(s) && (s'.pc.Report? <==> s.pc.Report?)
  }

  lemma OtherLoopStepsMoveNothing(s: State, a: Action, s': State)
    requires Next(s, a, s') && !MovesPackets(a) && LoopAction(a)
    ensures SamePackets(s, s')
  {
    assert !s.pc.Write? && !s.pc.Report? && !s'.pc.Write? && !s'.pc.Report?;
  }

  lemma OthersMoveNothing(s: State, a: Action, s': State)
    requires Next(s, a, s') && !MovesPackets(a)
    ensures SamePackets(s, s')
  {
    if LoopAction(a) {
      OtherLoopStepsMoveNothing(s, a, s');
    } else {
      assert s'.pc == s.pc;
    }
  }

  lemma ReportsKept(s: State, a: Action, s': State)
    requires ReportsMatch(s) && Below(Kept(s), |s.packets|) && Next(s, a, s')
    ensures ReportsMatch(s')
  {
    if !MovesPackets(a) {
      OthersMoveNothing(s, a, s');
    } else if a.WritePacket? {
      assert Kept(s)[|s.attempts|] == s.pc.packet;
    }
  }

  /** How a step changes what is kept and what was cleared: a packet joins at the end, or the queued tail is dropped. */
  ghost predicate Effect(kept: seq<nat>, cleared: seq<nat>, n: nat, kept': seq<nat>, cleared': seq<nat>, n': nat) {
    || (kept' == kept && cleared' == cleared && n' == n)
    || (kept' == kept + [n] && cleared' == cleared && n' == n + 1)
    || (n' == n && kept' <= kept && cleared' == cleared + kept[|kept'|..])
  }

  lemma PrefixSplits(a: seq<nat>, b: seq<nat>)
    ensures a + [] == a <= a + b && (a + b)[|a|..] == b
  {
  }

  /** The loop dequeues, writes and reports without changing the order or the number of what is kept. */
  lemma LoopMovesWithinKept(s: State, a: Action, s': State)
    requires Next(s, a, s') && (a.ActOnAnswer? || a.WritePacket? || a.ReportPacket?)
    ensures Kept(s') == Kept(s) && s'.cleared == s.cleared && s'.packets == s.packets
  {
  }

  lemma StepEffect(s: State, a: Action, s': State)
    requires Next(s, a, s')
    ensures Effect(Kept(s), s.cleared, |s.packets|, Kept(s'), s'.cleared, |s'.packets|)
  {
    if !MovesPackets(a) {
      OthersMoveNothing(s, a, s');
    } else if a.LibraryClear? {
      PrefixSplits(s.attempts + InHand(s), s.queue);
    } else if a.WriterEnqueue? {
      assert Kept(s') == Kept(s) + [|s.packets|];
    } else {
      LoopMovesWithinKept(s, a, s');
    }
  }

  lemma EffectKeepsOrder(kept: seq<nat>, cleared: seq<nat>, n: nat, kept': seq<nat>, cleared': seq<nat>, n': nat)
    requires Effect(kept, cleared, n, kept', cleared', n')
    requires Increasing(kept) && Below(kept, n)
    requires cleared == [] ==> kept == Names(n)
    ensures Increasing(kept') && Below(kept', n')
    ensures cleared' == [] ==> kept' == Names(n')
  {
  }

  lemma EffectKeepsAll(kept: seq<nat>, cleared: seq<nat>, n: nat, kept': seq<nat>, cleared': seq<nat>, n': nat)
    requires Effect(kept, cleared, n, kept', cleared', n')
    requires multiset(kept) + multiset(cleared) == multiset(Names(n))
    ensures multiset(kept') + multiset(cleared') == multiset(Names(n'))
  {
    if n' == n + 1 {
      assert Names(n') == Names(n) + [n];
    } else {
      assert kept == kept' + kept[|kept'|..];
    }
  }

  // ----- bytes -----

  lemma {:induction false} BytesOfAppend(packets: seq<Item>, a: seq<nat>, b: seq<nat>)
    requires Below(a, |packets|) && Below(b, |packets|)
    ensures Below(a + b, |packets|)
    ensures BytesOf(packets, a + b) == BytesOf(packets, a) + BytesOf(packets, b)
  {
    if b == [] {
      assert a + b == a;
    } else {
      var b' := b[..|b| - 1];
      assert (a + b)[..|a + b| - 1] == a + b';
      BytesOfAppend(packets, a, b');
    }
  }

  lemma {:induction false} BytesOfKept(packets: seq<Item>, item: Item, a: seq<nat>)
    requires Below(a, |packets|)
    ensures BytesOf(packets + [item], a) == BytesOf(packets, a)
  {
    if a != [] {
      BytesOfKept(packets, item, a[..|a| - 1]);
    }
  }

  /** Summing by name and summing the items is the same. */
  lemma {:induction false} BytesOfItems(packets: seq<Item>, a: seq<nat>)
    requires Below(a, |packets|)
    ensures BytesOf(packets, a) == Bytes(Items(packets, a))
  {
    if a != [] {
      var a', last := a[..|a| - 1], packets[a[|a| - 1]];
      BytesOfItems(packets, a');
      assert Items(packets, a) == Items(packets, a') + [last];
      BytesOfConcatenation(Items(packets, a'), [last]);
      assert Bytes([last][1..]) == 0;
    }
  }

  lemma EnqueueBalances(packets: seq<Item>, queue: seq<nat>, unreported: seq<nat>, reports: seq<Transmitted>,
                        cleared: seq<nat>, item: Item)
    requires Balanced(packets, queue, unreported, reports, cleared)
    ensures Balanced(packets + [item], queue + [|packets|], unreported, reports, cleared)
  {
    BytesOfConcatenation(packets, [item]);
    assert Bytes([item][1..]) == 0;
    BytesOfKept(packets, item, queue);
    BytesOfKept(packets, item, unreported);
    BytesOfKept(packets, item, cleared);
    assert (queue + [|packets|])[..|queue|] == queue;
  }

  lemma DequeueBalances(packets: seq<Item>, queue: seq<nat>, reports: seq<Transmitted>, cleared: seq<nat>)
    requires Balanced(packets, queue, [], reports, cleared) && queue != []
    ensures Balanced(packets, queue[1..], [queue[0]], reports, cleared)
  {
    var head, rest := [queue[0]], queue[1..];
    assert queue == head + rest;
    BytesOfAppend(packets, head, rest);
  }

  lemma ReportBalances(packets: seq<Item>, queue: seq<nat>, packet: nat, reports: seq<Transmitted>, cleared: seq<nat>)
    requires Balanced(packets, queue, [packet], reports, cleared) && packet < |packets|
    ensures Balanced(packets, queue, [], reports + [Describe(packets[packet])], cleared)
  {
  }

  lemma ClearBalances(packets: seq<Item>, queue: seq<nat>, unreported: seq<nat>, reports: seq<Transmitted>,
                      cleared: seq<nat>)
    requires Balanced(packets, queue, unreported, reports, cleared)
    ensures Balanced(packets, [], unreported, reports, cleared + queue)
  {
    BytesOfAppend(packets, cleared, queue);
  }

  lemma DequeuedBalances(s: State)
    requires BytesBalance(s) && s.pc.Decide? && s.queue != []
    ensures BytesBalance(s.(pc := Write(s.queue[0]), queue := s.queue[1..]))
  {
    assert Unreported(s) == [];
    DequeueBalances(s.packets, s.queue, s.reports, s.cleared);
  }

  lemma NothingMovedBalances(s: State, s': State)
    requires BytesBalance(s) && Unreported(s') == Unreported(s)
    requires s'.packets == s.packets && s'.queue == s.queue && s'.reports == s.reports && s'.cleared == s.cleared
    ensures BytesBalance(s')
  {
  }

  lemma ActBalances(s: State)
    requires BytesBalance(s) && s.pc.Decide?
    ensures BytesBalance(Act(s, s.pc.transmit))
  {
    var s' := Act(s, s.pc.transmit);
    if s'.pc.Write? {
      DequeuedBalances(s);
    } else {
      NothingMovedBalances(s, s');
    }
  }

  lemma EnqueuedBalances(s: State, w: nat, item: Item)
    requires BytesBalance(s) && Enabled(s, WriterEnqueue(w, item)) && NamesDefined(s)
    ensures BytesBalance(Step(s, WriterEnqueue(w, item)))
  {
    EnqueueBalances(s.packets, s.queue, Unreported(s), s.reports, s.cleared, item);
  }

  lemma ClearedBalances(s: State)
    requires BytesBalance(s) && NamesDefined(s)
    ensures BytesBalance(Step(s, LibraryClear))
  {
    ClearBalances(s.packets, s.queue, Unreported(s), s.reports, s.cleared);
  }

  lemma ReportedBalances(s: State)
    requires BytesBalance(s) && s.pc.Report? && NamesDefined(s)
    ensures BytesBalance(Step(s, ReportPacket))
  {
    ReportBalances(s.packets, s.queue, s.pc.packet, s.reports, s.cleared);
  }

  lemma WrittenBalances(s: State)
    requires BytesBalance(s) && s.pc.Write?
    ensures BytesBalance(Step(s, WritePacket))
  {
    NothingMovedBalances(s, Step(s, WritePacket));
  }

  lemma OthersBalance(s: State, a: Action, s': State)
    requires BytesBalance(s) && Next(s, a, s') && !MovesPackets(a)
    ensures BytesBalance(s')
  {
    OthersMoveNothing(s, a, s');
    NothingMovedBalances(s, s');
  }

  lemma BalanceKept(s: State, a: Action, s': State)
    requires BytesBalance(s) && Next(s, a, s')
    ensures BytesBalance(s')
  {
    if !MovesPackets(a) {
      OthersBalance(s, a, s');
    } else {
      match a
      case WriterEnqueue(w, item) => EnqueuedBalances(s, w, item);
      case LibraryClear => ClearedBalances(s);
      case ActOnAnswer => ActBalances(s);
      case ReportPacket => ReportedBalances(s);
      case WritePacket => WrittenBalances(s);
    }
  }

  // ----- whole executions -----

  lemma StepKeeps(s: State, a: Action, s': State)
    requires Invariant(s) && Next(s, a, s')
    ensures Invariant(s')
  {
    ReportsKept(s, a, s');
    StepEffect(s, a, s');
    EffectKeepsOrder(Kept(s), s.cleared, |s.packets|, Kept(s'), s'.cleared, |s'.packets|);
    EffectKeepsAll(Kept(s), s.cleared, |s.packets|, Kept(s'), s'.cleared, |s'.packets|);
    BalanceKept(s, a, s');
  }

  /** Every state of every execution satisfies the invariant; in particular no enabled step is ever undefined. */
  lemma {:induction false} ExecutionKeeps(states: seq<State>, actions: seq<Action>, k: nat)
    requires IsExecution(states, actions) && k < |states|
    ensures Invariant(states[k]) && NamesDefined(states[k])
  {
    if k == 0 {
      var writers: nat :| states[0] == Init(writers);
      InitHolds(writers);
    } else {
      ExecutionKeeps(states, actions, k - 1);
      StepKeeps(states[k - 1], actions[k - 1], states[k]);
    }
  }

  /**
   Without Clear: write attempts so far, then the packet in hand, then the queue, are all packets in the
   order they were enqueued. With Clear: the attempts are still in that order and without repetition.
   */
  lemma AttemptsInOrder(states: seq<State>, actions: seq<Action>, k: nat)
    requires IsExecution(states, actions) && k < |states|
    ensures
      var s := states[k];
      && Increasing(s.attempts + InHand(s) + s.queue)
      && (s.cleared == [] ==> s.attempts + InHand(s) + s.queue == Names(|s.packets|))
  {
    ExecutionKeeps(states, actions, k);
  }

  /** The items that the writers have enqueued. */
  function EnqueuedItems(actions: seq<Action>): seq<Item> {
    if actions == [] then []
    else
      var last := actions[|actions| - 1];
      EnqueuedItems(actions[..|actions| - 1]) + if last.WriterEnqueue? then [last.item] else []
  }

  /** A name stands for what was enqueued under it, as it was enqueued, in every later state. */
  lemma {:induction false} PacketsAreEnqueued(states: seq<State>, actions: seq<Action>, k: nat)
    requires IsExecution(states, actions) && k < |states|
    ensures states[k].packets == EnqueuedItems(actions[..k])
  {
    if k > 0 {
      PacketsAreEnqueued(states, actions, k - 1);
      assert Next(states[k - 1], actions[k - 1], states[k]);
      assert actions[..k][..k - 1] == actions[..k - 1];
    }
  }

  lemma {:induction false} NamedOnce(n: nat, name: nat)
    requires name < n
    ensures multiset(Names(n))[name] == 1
  {
    assert Names(n) == Names(n)[..name] + [name] + Names(n)[name + 1..];
    assert name !in Names(n)[..name] && name !in Names(n)[name + 1..];
  }

  /** No packet is lost or duplicated: each is attempted, in hand, queued or cleared, and only one of these, once. */
  lemma PacketsConserved(states: seq<State>, actions: seq<Action>, k: nat, packet: nat)
    requires IsExecution(states, actions) && k < |states| && packet < |states[k].packets|
    ensures
      var s := states[k];
      multiset(s.attempts)[packet] + multiset(InHand(s))[packet]
      + multiset(s.queue)[packet] + multiset(s.cleared)[packet] == 1
  {
    ExecutionKeeps(states, actions, k);
    var s := states[k];
    NamedOnce(|s.packets|, packet);
    assert multiset(Kept(s)) == multiset(s.attempts) + multiset(InHand(s)) + multiset(s.queue);
  }

  /**
   The AddTransmitted log is the log of write attempts, one for one and in order, with the size, sequence number and
   marker of each packet; only while the loop is between the two calls is the last attempt outstanding.
   */
  lemma ReportsFollowAttempts(states: seq<State>, actions: seq<Action>, k: nat)
    requires IsExecution(states, actions) && k < |states|
    ensures
      var s := states[k];
      && |s.attempts| == |s.reports| + (if s.pc.Report? then 1 else 0)
      && forall i :: 0 <= i < |s.reports| ==>
        && s.attempts[i] < |s.packets|
        && var packet := s.packets[s.attempts[i]].packet;
           && s.reports[i].size == packet.size
           && s.reports[i].seqNr == packet.seqNr
           && s.reports[i].marker == packet.marker
  {
    ExecutionKeeps(states, actions, k);
  }

  function QueueOf(s: State): seq<Item>
    requires Below(s.queue, |s.packets|)
  {
    Items(s.packets, s.queue)
  }

  /** Bytes enqueued are bytes queued, in hand, reported to the controller, or cleared. */
  lemma BytesConserved(states: seq<State>, actions: seq<Action>, k: nat)
    requires IsExecution(states, actions) && k < |states|
    ensures BytesBalance(states[k])
    ensures BytesOf(states[k].packets, states[k].queue) == Bytes(QueueOf(states[k]))
  {
    ExecutionKeeps(states, actions, k);
    BytesOfItems(states[k].packets, states[k].queue);
  }

  // ----- the queue inside the system is the queue of rtp_queue.go -----

  /** The operation of the queue that a step performs, if it performs one. */
  function QueueOperation(a: Action, s': State): seq<Op> {
    match a
    case WriterEnqueue(_, item) => [Op.Enqueue(item)]
    case LibraryClear => [Op.Clear]
    case ActOnAnswer => if s'.pc.Write? then [Op.Dequeue] else []
    case _ => []
  }

  lemma ActTakesHead(s: State)
    requires Below(s.queue, |s.packets|) && s.pc.Decide?
    ensures
      var t := Act(s, s.pc.transmit);
      && t.packets == s.packets
      && Below(t.queue, |s.packets|)
      && (t.pc.Write? ==>
          && QueueOf(s) != [] && QueueOf(t) == QueueOf(s)[1..]
          && t.pc.packet < |s.packets| && s.packets[t.pc.packet] == QueueOf(s)[0])
      && (!t.pc.Write? ==> t.queue == s.queue)
  {
  }

  /** Each step does to the queue's contents what the operation it performs does, and what it dequeues is the head. */
  lemma StepIsQueueOperation(s: State, a: Action, s': State)
    requires Below(s.queue, |s.packets|) && Next(s, a, s')
    ensures Below(s'.queue, |s'.packets|)
    ensures var ops := QueueOperation(a, s');
      QueueOf(s') == if ops == [] then QueueOf(s) else Apply(QueueOf(s), ops[0])
    ensures a.ActOnAnswer? && s'.pc.Write? ==>
      QueueOf(s) != [] && s'.pc.packet < |s'.packets| && s'.packets[s'.pc.packet] == QueueOf(s)[0]
  {
    if !MovesPackets(a) {
      OthersMoveNothing(s, a, s');
    } else if a.WriterEnqueue? {
      assert QueueOf(s') == QueueOf(s) + [a.item];
    } else if a.LibraryClear? {
      assert QueueOf(s') == [];
    } else if a.ActOnAnswer? {
      ActTakesHead(s);
    } else {
      assert s'.queue == s.queue;
    }
  }

  /** The queue operations that the steps of a run perform, step by step. */
  function Operations(states: seq<State>, actions: seq<Action>): (r: seq<seq<Op>>)
    requires |states| == |actions| + 1
    ensures |r| == |actions| && forall i :: 0 <= i < |r| ==> r[i] == QueueOperation(actions[i], states[i + 1])
  {
    seq(|actions|, i requires 0 <= i < |actions| => QueueOperation(actions[i], states[i + 1]))
  }

  function Flatten(ops: seq<seq<Op>>): seq<Op> {
    if ops == [] then [] else Flatten(ops[..|ops| - 1]) + ops[|ops| - 1]
  }

  /** `contents` are the successive contents of a queue, starting empty, when `ops` are performed on it. */
  ghost predicate QueueHistory(contents: seq<seq<Item>>, ops: seq<seq<Op>>) {
    && |contents| == |ops| + 1
    && contents[0] == []
    && forall i :: 0 <= i < |ops| ==>
      |ops[i]| <= 1 && contents[i + 1] == if ops[i] == [] then contents[i] else Apply(contents[i], ops[i][0])
  }

  lemma RunOneMore(ops: seq<Op>, more: seq<Op>)
    requires |more| <= 1
    ensures Run(ops + more) == if more == [] then Run(ops) else Apply(Run(ops), more[0])
  {
    if more == [] {
      assert ops + more == ops;
    } else {
      assert (ops + more)[..|ops|] == ops;
    }
  }

  lemma {:induction false} HistoryIsRun(contents: seq<seq<Item>>, ops: seq<seq<Op>>, k: nat)
    requires QueueHistory(contents, ops) && k <= |ops|
    ensures contents[k] == Run(Flatten(ops[..k]))
  {
    if k > 0 {
      HistoryIsRun(contents, ops, k - 1);
      assert ops[..k][..k - 1] == ops[..k - 1];
      RunOneMore(Flatten(ops[..k - 1]), ops[k - 1]);
    }
  }

  lemma ExecutionStep(states: seq<State>, actions: seq<Action>, k: nat)
    requires IsExecution(states, actions) && k < |actions|
    ensures Below(states[k].queue, |states[k].packets|) && Below(states[k + 1].queue, |states[k + 1].packets|)
    ensures var ops := QueueOperation(actions[k], states[k + 1]);
      && |ops| <= 1
      && QueueOf(states[k + 1]) == if ops == [] then QueueOf(states[k]) else Apply(QueueOf(states[k]), ops[0])
  {
    ExecutionKeeps(states, actions, k);
    var s, a, s' := states[k], actions[k], states[k + 1];
    assert Next(s, a, s');
    StepIsQueueOperation(s, a, s');
  }

  lemma ExecutionNamesQueued(states: seq<State>, actions: seq<Action>, k: nat)
    requires IsExecution(states, actions) && k < |states|
    ensures Below(states[k].queue, |states[k].packets|)
    ensures k == 0 ==> states[k].queue == []
  {
    ExecutionKeeps(states, actions, k);
  }

  /**
   So in every state of every execution the queue holds what the operations so far leave in a queue of
   rtp_queue.go, and all that is proved of such a queue (its byte counter, its order, the delay of its head)
   holds of the one inside the system.
   */
  lemma ExecutionIsQueueRun(states: seq<State>, actions: seq<Action>, k: nat)
    requires IsExecution(states, actions) && k < |states|
    ensures Below(states[k].queue, |states[k].packets|)
    ensures QueueOf(states[k]) == Run(Flatten(Operations(states, actions)[..k]))
  {
    forall i | 0 <= i < |states| ensures Below(states[i].queue, |states[i].packets|) {
      ExecutionNamesQueued(states, actions, i);
    }
    var contents := seq(|states|, i requires 0 <= i < |states| => QueueOf(states[i]));
    var ops := Operations(states, actions);
    forall i | 0 <= i < |actions|
      ensures |ops[i]| <= 1 && contents[i + 1] == if ops[i] == [] then contents[i] else Apply(contents[i], ops[i][0])
    {
      ExecutionStep(states, actions, i);
    }
    ExecutionNamesQueued(states, actions, 0);
    HistoryIsRun(contents, ops, k);
  }
}

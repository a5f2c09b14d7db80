/**
 The packet queue of the SCReAM sender (scream/rtp_queue.go).

 The first half gives the queue's meaning as functions on the sequence of queued items and proves
 what every run of operations keeps. The second half is the queue itself, a class whose methods
 update its fields in place and are proved against those functions.
 */
module RtpQueue {
  import opened Words
  import opened Wrappers

  /** What the queue reads of an RTP packet: `size` stands for `MarshalSize()`. */
  datatype Packet = Packet(size: nat, seqNr: uint16, marker: bool)

  datatype Item = Item(packet: Packet, ts: real)

  datatype Op = Enqueue(item: Item) | Dequeue | Clear

  // ----- the queue's meaning -----

  function Apply(s: seq<Item>, op: Op): seq<Item> {
    match op
    case Enqueue(item) => s + [item]
    case Dequeue => if s == [] then s else s[1..]
    case Clear => []
  }

  /** The items that `op` takes out of the queue `s`. */
  function Removed(s: seq<Item>, op: Op): seq<Item> {
    match op
    case Enqueue(_) => []
    case Dequeue => if s == [] then [] else [s[0]]
    case Clear => s
  }

  /** The queue after a whole run of operations on an empty queue. */
  function Run(ops: seq<Op>): seq<Item> {
    if ops == [] then [] else Apply(Run(ops[..|ops| - 1]), ops[|ops| - 1])
  }

  /** Everything a run enqueues, in order. */
  function Enqueued(ops: seq<Op>): seq<Item> {
    if ops == [] then []
    else
      var before := Enqueued(ops[..|ops| - 1]);
      match ops[|ops| - 1]
      case Enqueue(item) => before + [item]
      case _ => before
  }

  /** Everything a run takes out, by Dequeue or by Clear, in order. */
  function Departed(ops: seq<Op>): seq<Item> {
    if ops == [] then []
    else Departed(ops[..|ops| - 1]) + Removed(Run(ops[..|ops| - 1]), ops[|ops| - 1])
  }

  /** The sum of the marshalled sizes of `s`. */
  function Bytes(s: seq<Item>): nat {
    if s == [] then 0 else s[0].packet.size + Bytes(s[1..])
  }

  lemma {:induction false} BytesOfConcatenation(a: seq<Item>, b: seq<Item>)
    ensures Bytes(a + b) == Bytes(a) + Bytes(b)
  {
    if a == [] {
      assert a + b == b;
    } else {
      assert (a + b)[1..] == a[1..] + b;
      BytesOfConcatenation(a[1..], b);
    }
  }

  lemma ApplyConserves(gone: seq<Item>, s: seq<Item>, op: Op)
    ensures (gone + Removed(s, op)) + Apply(s, op) == if op.Enqueue? then gone + s + [op.item] else gone + s
  {
  }

  /** First in, first out, nothing lost: what left the queue followed by what is still in it is what was enqueued. */
  lemma {:induction false} RunConserves(ops: seq<Op>)
    ensures Departed(ops) + Run(ops) == Enqueued(ops)
    ensures Bytes(Enqueued(ops)) == Bytes(Departed(ops)) + Bytes(Run(ops))
  {
    if ops != [] {
      var before, op := ops[..|ops| - 1], ops[|ops| - 1];
      RunConserves(before);
      ApplyConserves(Departed(before), Run(before), op);
    }
    BytesOfConcatenation(Departed(ops), Run(ops));
  }

  // ----- delay -----

  /** `GetDelay`: only the item at the head is looked at. */
  function HeadDelay(s: seq<Item>, ts: real): real {
    if s == [] then 0.0
    else if ts - s[0].ts < 0.0 then 0.0
    else ts - s[0].ts
  }

  function ItemDelay(item: Item, ts: real): real {
    if item.ts <= ts then ts - item.ts else 0.0
  }

  /** `d` is the largest delay of any queued item, and 0 on an empty queue. */
  ghost predicate IsWorstDelay(s: seq<Item>, ts: real, d: real) {
    && (s == [] ==> d == 0.0)
    && (s != [] ==> exists i :: 0 <= i < |s| && ItemDelay(s[i], ts) == d)
    && forall i :: 0 <= i < |s| ==> ItemDelay(s[i], ts) <= d
  }

  ghost predicate HeadIsOldest(s: seq<Item>) {
    forall i :: 0 <= i < |s| ==> s[0].ts <= s[i].ts
  }

  ghost predicate TimeOrdered(s: seq<Item>) {
    forall i, j :: 0 <= i < j < |s| ==> s[i].ts <= s[j].ts
  }

  /**
   The head's delay is the worst delay, whenever it is asked for, exactly when no queued item is older than
   the head.
   */
  lemma HeadDelayIsWorst(s: seq<Item>)
    ensures HeadIsOldest(s) <==> forall ts :: IsWorstDelay(s, ts, HeadDelay(s, ts))
  {
    if HeadIsOldest(s) {
      forall ts ensures IsWorstDelay(s, ts, HeadDelay(s, ts)) {
        if s != [] {
          assert ItemDelay(s[0], ts) == HeadDelay(s, ts);
        }
      }
    } else {
      var i :| 0 <= i < |s| && !(s[0].ts <= s[i].ts);
      var ts := s[0].ts;
      assert ItemDelay(s[i], ts) > 0.0 == HeadDelay(s, ts);
      assert !IsWorstDelay(s, ts, HeadDelay(s, ts));
    }
  }

  /** Enqueuing in order of time keeps every queue that a run can reach in order of time. */
  lemma OrderedRunStaysOrdered(ops: seq<Op>)
    requires TimeOrdered(Enqueued(ops))
    ensures TimeOrdered(Run(ops)) && HeadIsOldest(Run(ops))
  {
    RunConserves(ops);
    var d, q, e := Departed(ops), Run(ops), Enqueued(ops);
    assert forall i :: 0 <= i < |q| ==> q[i] == e[|d| + i];
  }

  // ----- the queue -----

  class Queue {
    var bytesInQueue: int
    var queue: seq<Item>
    ghost var log: seq<Op>  // every operation so far

    ghost predicate Valid()
      reads this
    {
      && queue == Run(log)
      && bytesInQueue == Bytes(queue)
    }

    constructor ()
      ensures Valid() && log == [] && queue == []
    {
      bytesInQueue, queue, log := 0, [], [];
    }

    method Enqueue(packet: Packet, ts: real)
      requires Valid()
      modifies this
      ensures Valid() && log == old(log) + [Op.Enqueue(Item(packet, ts))]
      ensures queue == old(queue) + [Item(packet, ts)] && bytesInQueue == old(bytesInQueue) + packet.size
    {
      BytesOfConcatenation(queue, [Item(packet, ts)]);
      bytesInQueue := bytesInQueue + packet.size;
      queue := queue + [Item(packet, ts)];
      log := log + [Op.Enqueue(Item(packet, ts))];
    }

    method Dequeue() returns (packet: Option<Packet>)
      requires Valid()
      modifies this
      ensures Valid() && log == old(log) + [Op.Dequeue]
      ensures old(queue) == [] ==> packet == None && queue == [] && bytesInQueue == old(bytesInQueue)
      ensures old(queue) != [] ==> packet == Some(old(queue)[0].packet) && [old(queue)[0]] + queue == old(queue)
      ensures old(queue) != [] ==> bytesInQueue == old(bytesInQueue) - old(queue)[0].packet.size
    {
      ghost var before := log;
      log := log + [Op.Dequeue];
      assert log[..|log| - 1] == before;
      if |queue| <= 0 {
        return None;
      }
      var front := queue[0];
      queue := queue[1..];
      bytesInQueue := bytesInQueue - front.packet.size;
      packet := Some(front.packet);
    }

    method Clear() returns (size: nat)
      requires Valid()
      modifies this
      ensures Valid() && log == old(log) + [Op.Clear]
      ensures queue == [] && bytesInQueue == 0 && size == |old(queue)|
    {
      size := |queue|;
      bytesInQueue := 0;
      queue := [];
      log := log + [Op.Clear];
    }

    /** The byte counter is never negative and is what was ever enqueued less what ever departed. */
    method BytesInQueue() returns (n: int)
      requires Valid()
      ensures n >= 0
      ensures n == Bytes(queue) == Bytes(Enqueued(log)) - Bytes(Departed(log))
    {
      RunConserves(log);
      n := bytesInQueue;
    }

    method SizeOfQueue() returns (n: nat)
      requires Valid()
      ensures n == |queue| == |Enqueued(log)| - |Departed(log)|
    {
      RunConserves(log);
      n := |queue|;
    }

    /** When packets were enqueued in order of time, the delay of the head is the worst delay in the queue. */
    method GetDelay(ts: real) returns (d: real)
      requires Valid()
      ensures HeadIsOldest(queue) ==> IsWorstDelay(queue, ts, d)
      ensures TimeOrdered(Enqueued(log)) ==> IsWorstDelay(queue, ts, d)
      ensures d == if queue == [] || ts < queue[0].ts then 0.0 else ts - queue[0].ts
    {
      HeadDelayIsWorst(queue);
      if TimeOrdered(Enqueued(log)) {
        OrderedRunStaysOrdered(log);
      }
      if |queue| <= 0 {
        return 0.0;
      }
      d := ts - queue[0].ts;
      if d < 0.0 {
        return 0.0;
      }
    }
  }
}

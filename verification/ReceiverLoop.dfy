/**
 The loop of the SCReAM receiver (scream/receiver_interceptor.go): it hands each arriving packet to the
 receiver registered for its SSRC, and after a packet it asks all receivers for feedback if the last such
 round is longer ago than `interval`. Times are nanoseconds.
 */
module ReceiverLoop {
  import opened Words

  /** An RTP packet as `Receive` gets it; `time` is its arrival in NTP units. */
  datatype Packet = Packet(ssrc: uint32, time: uint32, size: nat, seqNr: uint16, marker: bool)

  /**
   What happens to the interceptor, in the order in which it takes effect. Handing on a packet and asking for feedback
   each hold the lock, but other goroutines may bind and unbind streams in between. `Reading` is where the loop, with
   the clock reading taken after the packet, looks whether a round is due; what happens between the reading of the clock
   and the lock comes before it.
   */
  datatype Event = Bind(ssrc: uint32) | Unbind(ssrc: uint32) | Arrival(packet: Packet) | Reading(now: int)

  /** One round of asking every registered receiver for feedback. */
  datatype Round = Round(now: int, marker: bool, asked: set<uint32>)

  // ----- which packets a receiver sees -----

  /** The position of the Bind that registered the receiver now serving `ssrc`, or -1 if there is none. */
  function Registration(events: seq<Event>, ssrc: uint32): (r: int)
    ensures -1 <= r < |events|
  {
    if events == [] then -1
    else
      var n := |events| - 1;
      if events[n] == Bind(ssrc) then n
      else if events[n] == Unbind(ssrc) then -1
      else Registration(events[..n], ssrc)
  }

  /** It is the one Bind of this SSRC that no later Bind or Unbind of it undoes. */
  lemma {:induction false} RegistrationIsLatest(events: seq<Event>, ssrc: uint32, i: nat)
    ensures Registration(events, ssrc) == i <==>
      && i < |events| && events[i] == Bind(ssrc)
      && forall j :: i < j < |events| ==> events[j] != Bind(ssrc) && events[j] != Unbind(ssrc)
  {
    if events != [] {
      RegistrationIsLatest(events[..|events| - 1], ssrc, i);
    }
  }

  /** The packets of `ssrc` among the events from position `from` on, in order. */
  function Arrived(events: seq<Event>, from: nat, ssrc: uint32): seq<Packet> {
    if |events| <= from then []
    else
      var n := |events| - 1;
      var before := Arrived(events[..n], from, ssrc);
      if events[n].Arrival? && events[n].packet.ssrc == ssrc then before + [events[n].packet] else before
  }

  function Registered(events: seq<Event>): set<uint32> {
    set e | e in events && e.Bind? && Registration(events, e.ssrc) >= 0 :: e.ssrc
  }

  /**
   Each registered receiver has seen exactly the packets of its SSRC since it was registered; no other
   receiver exists.
   */
  ghost predicate Demultiplexed(screamRx: map<uint32, seq<Packet>>, events: seq<Event>) {
    forall ssrc: uint32 ::
      && (ssrc in screamRx <==> Registration(events, ssrc) >= 0)
      && (ssrc in screamRx ==> screamRx[ssrc] == Arrived(events, Registration(events, ssrc) + 1, ssrc))
  }

  /** `at` are the positions of all packets of `ssrc` from position `from` on, and of no other events, in order. */
  ghost predicate Positions(at: seq<nat>, events: seq<Event>, from: nat, ssrc: uint32) {
    && (forall k, l :: 0 <= k < l < |at| ==> at[k] < at[l])
    && forall j: nat :: j in at <==> from <= j < |events| && events[j].Arrival? && events[j].packet.ssrc == ssrc
  }

  lemma OneMorePosition(at: seq<nat>, events: seq<Event>, from: nat, ssrc: uint32)
    requires |events| > from && Positions(at, events[..|events| - 1], from, ssrc)
    ensures
      var n := |events| - 1;
      Positions(if events[n].Arrival? && events[n].packet.ssrc == ssrc then at + [n] else at, events, from, ssrc)
  {
    var n := |events| - 1;
    forall k | 0 <= k < |at| ensures at[k] < n {
      var j := at[k];
      assert j in at;
    }
  }

  ghost predicate Holds(at: seq<nat>, packets: seq<Packet>, events: seq<Event>) {
    && |at| == |packets|
    && forall k :: 0 <= k < |at| ==> at[k] < |events| && events[at[k]] == Arrival(packets[k])
  }

  lemma HoldsOneMore(at: seq<nat>, packets: seq<Packet>, events: seq<Event>)
    requires events != [] && Holds(at, packets, events[..|events| - 1])
    ensures Holds(at, packets, events)
    ensures
      var n := |events| - 1;
      events[n].Arrival? ==> Holds(at + [n], packets + [events[n].packet], events)
  {
  }

  /** Which packets these are: all packets of this SSRC from position `from` on, in the order of their arrival. */
  lemma {:induction false} ArrivedInOrder(events: seq<Event>, from: nat, ssrc: uint32) returns (at: seq<nat>)
    ensures Positions(at, events, from, ssrc) && Holds(at, Arrived(events, from, ssrc), events)
  {
    if |events| <= from {
      at := [];
    } else {
      var n := |events| - 1;
      var before := ArrivedInOrder(events[..n], from, ssrc);
      OneMorePosition(before, events, from, ssrc);
      HoldsOneMore(before, Arrived(events[..n], from, ssrc), events);
      at := if events[n].Arrival? && events[n].packet.ssrc == ssrc then before + [n] else before;
    }
  }

  // ----- when feedback is asked for -----

  /** The clock readings of the loop, one after each packet. */
  function Clock(events: seq<Event>): seq<int> {
    if events == [] then []
    else
      var n := |events| - 1;
      if events[n].Reading? then Clock(events[..n]) + [events[n].now] else Clock(events[..n])
  }

  /** The readings at which a round takes place: each one that is more than `interval` after the round before. */
  function RoundTimes(clock: seq<int>, last: int, interval: int): seq<int> {
    if clock == [] then []
    else if clock[0] - last > interval then [clock[0]] + RoundTimes(clock[1..], clock[0], interval)
    else RoundTimes(clock[1..], last, interval)
  }

  function LastRound(times: seq<int>, start: int): int {
    if times == [] then start else times[|times| - 1]
  }

  lemma {:induction false} OneMoreReading(clock: seq<int>, now: int, last: int, interval: int)
    ensures
      var times := RoundTimes(clock, last, interval);
      RoundTimes(clock + [now], last, interval) ==
      if now - LastRound(times, last) > interval then times + [now] else times
  {
    if clock != [] {
      assert (clock + [now])[1..] == clock[1..] + [now];
      OneMoreReading(clock[1..], now, if clock[0] - last > interval then clock[0] else last, interval);
    }
  }

  function Times(rounds: seq<Round>): (r: seq<int>)
    ensures |r| == |rounds| && forall k :: 0 <= k < |r| ==> r[k] == rounds[k].now
  {
    seq(|rounds|, k requires 0 <= k < |rounds| => rounds[k].now)
  }

  /** The marker of the latest packet. */
  function LatestMarker(events: seq<Event>): bool {
    if events == [] then false
    else
      var n := |events| - 1;
      if events[n].Arrival? then events[n].packet.marker else LatestMarker(events[..n])
  }

  /**
   The rounds of a whole run: the first reading starts the clock, each later one makes a round if the last round is more
   than `interval` ago, and a round asks exactly the receivers registered at that moment, with the marker of the
   latest packet.
   */
  function Rounds(events: seq<Event>, interval: int): seq<Round> {
    if events == [] then []
    else
      var n := |events| - 1;
      var before, clock := Rounds(events[..n], interval), Clock(events[..n]);
      if events[n].Reading? && clock != [] && events[n].now - LastRound(Times(before), clock[0]) > interval
      then before + [Round(events[n].now, LatestMarker(events[..n]), Registered(events[..n]))]
      else before
  }

  /** The times of the rounds depend on the clock readings of the packets alone. */
  lemma {:induction false} RoundsFollowClock(events: seq<Event>, interval: int)
    ensures
      var clock := Clock(events);
      Times(Rounds(events, interval)) == if clock == [] then [] else RoundTimes(clock[1..], clock[0], interval)
  {
    if events != [] {
      var n := |events| - 1;
      var before, clock := Rounds(events[..n], interval), Clock(events[..n]);
      RoundsFollowClock(events[..n], interval);
      if events[n].Reading? && clock != [] {
        var now := events[n].now;
        assert Clock(events)[1..] == clock[1..] + [now];
        OneMoreReading(clock[1..], now, clock[0], interval);
        if |Rounds(events, interval)| > |before| {
          assert Times(Rounds(events, interval)) == Times(before) + [now];
        }
      }
    }
  }

  lemma {:induction false} NoRoundsWithoutClock(events: seq<Event>, interval: int)
    requires Clock(events) == []
    ensures Rounds(events, interval) == []
  {
    RoundsFollowClock(events, interval);
    assert |Times(Rounds(events, interval))| == 0;
  }

  /** A packet has been handed on and the clock not yet been read. */
  predicate Midway(events: seq<Event>) {
    if events == [] then false
    else
      var n := |events| - 1;
      events[n].Arrival? || (!events[n].Reading? && Midway(events[..n]))
  }

  /** The steps of the loop come in their order: packets and readings take turns, the first packet first. */
  ghost predicate InTurn(events: seq<Event>) {
    forall k :: 0 <= k < |events| ==>
      && (events[k].Arrival? ==> !Midway(events[..k]))
      && (events[k].Reading? ==> Midway(events[..k]))
  }

  /** Stream `ssrc` is bound and not unbound at position `j`. */
  ghost predicate BoundAt(events: seq<Event>, j: nat, ssrc: uint32)
    requires j <= |events|
  {
    exists b :: 0 <= b < j && events[b] == Bind(ssrc) && forall c :: b < c < j ==> events[c] != Unbind(ssrc)
  }

  lemma {:induction false} RegisteredIsBound(events: seq<Event>, ssrc: uint32)
    ensures ssrc in Registered(events) <==> BoundAt(events, |events|, ssrc)
  {
    if events != [] {
      var n := |events| - 1;
      RegisteredIsBound(events[..n], ssrc);
    }
  }

  lemma {:induction false} LatestPacket(events: seq<Event>) returns (i: nat)
    requires Midway(events)
    ensures i < |events| && events[i].Arrival? && events[i].packet.marker == LatestMarker(events)
    ensures forall c :: i < c < |events| ==> !events[c].Arrival? && !events[c].Reading?
  {
    var n := |events| - 1;
    if events[n].Arrival? {
      i := n;
    } else {
      i := LatestPacket(events[..n]);
    }
  }

  lemma BoundInPrefix(events: seq<Event>, n: nat, j: nat, ssrc: uint32)
    requires j <= n <= |events|
    ensures BoundAt(events[..n], j, ssrc) <==> BoundAt(events, j, ssrc)
  {
    if b :| 0 <= b < j && events[b] == Bind(ssrc) && forall c :: b < c < j ==> events[c] != Unbind(ssrc) {
      assert events[..n][b] == Bind(ssrc) && forall c :: b < c < j ==> events[..n][c] != Unbind(ssrc);
    }
  }

  lemma InTurnBefore(events: seq<Event>)
    requires InTurn(events) && events != []
    ensures InTurn(events[..|events| - 1])
  {
    var before := events[..|events| - 1];
    assert forall k :: 0 <= k < |before| ==> before[..k] == events[..k];
  }

  /**
   Each round belongs to a reading `j` of the clock and to the packet `i` handed on last before it: it has the time of
   the one and the marker of the other, and asks exactly the streams bound at that moment.
   */
  lemma {:induction false} RoundsExplained(events: seq<Event>, interval: int, k: nat) returns (i: nat, j: nat)
    requires InTurn(events) && k < |Rounds(events, interval)|
    ensures i < j < |events| && events[i].Arrival? && events[j].Reading?
    ensures forall c :: i < c < j ==> !events[c].Arrival? && !events[c].Reading?
    ensures
      var round := Rounds(events, interval)[k];
      && round.now == events[j].now
      && round.marker == events[i].packet.marker
      && forall ssrc: uint32 :: ssrc in round.asked <==> BoundAt(events, j, ssrc)
  {
    var n := |events| - 1;
    var before := events[..n];
    if k < |Rounds(before, interval)| {
      InTurnBefore(events);
      i, j := RoundsExplained(before, interval, k);
    } else {
      i := LatestPacket(before);
      j := n;
    }
    forall ssrc: uint32 ensures ssrc in Rounds(events, interval)[k].asked <==> BoundAt(events, j, ssrc) {
      BoundInPrefix(events, n, j, ssrc);
      if j == n {
        RegisteredIsBound(before, ssrc);
      }
    }
  }

  ghost predicate Spaced(times: seq<int>, last: int, interval: int) {
    times == [] || (times[0] - last > interval && Spaced(times[1..], times[0], interval))
  }

  lemma {:induction false} RoundsAreSpaced(clock: seq<int>, last: int, interval: int)
    ensures Spaced(RoundTimes(clock, last, interval), last, interval)
  {
    if clock != [] {
      RoundsAreSpaced(clock[1..], if clock[0] - last > interval then clock[0] else last, interval);
    }
  }

  /** Spaced rounds: the k-th one, counting from 1, is strictly later than k intervals after the start. */
  lemma {:induction false} KthRoundIsLate(times: seq<int>, last: int, interval: int, k: nat)
    requires Spaced(times, last, interval) && 1 <= k <= |times|
    ensures times[k - 1] > last + k * interval
  {
    if k > 1 {
      KthRoundIsLate(times[1..], times[0], interval, k - 1);
    }
  }

  /**
   Rate bound over a whole run: the k-th packet-driven round is strictly later than k intervals after the
   loop started. Hence up to any time `end` that the rounds do not exceed there are fewer than (end - start)
   / interval of them.
   */
  lemma RateBound(events: seq<Event>, interval: int, k: nat, end: int)
    requires 1 <= k <= |Rounds(events, interval)| && Rounds(events, interval)[k - 1].now <= end
    ensures Clock(events) != []
    ensures Rounds(events, interval)[k - 1].now > Clock(events)[0] + k * interval
    ensures k * interval < end - Clock(events)[0]
  {
    var clock := Clock(events);
    RoundsFollowClock(events, interval);
    var times := Times(Rounds(events, interval));
    assert times[k - 1] == Rounds(events, interval)[k - 1].now;
    RoundsAreSpaced(clock[1..], clock[0], interval);
    KthRoundIsLate(times, clock[0], interval, k);
  }

  predicate Subsequence(a: seq<int>, b: seq<int>) {
    a == [] || (b != [] && ((a[0] == b[0] && Subsequence(a[1..], b[1..])) || Subsequence(a, b[1..])))
  }

  ghost predicate Nondecreasing(s: seq<int>) {
    forall i, j :: 0 <= i < j < |s| ==> s[i] <= s[j]
  }

  lemma DropHead(a: seq<int>, b: seq<int>)
    requires b != [] && Subsequence(a, b[1..])
    ensures Subsequence(a, b)
  {
  }

  lemma {:induction false} SubsequenceTail(a: seq<int>, b: seq<int>)
    requires Subsequence(a, b) && a != []
    ensures Subsequence(a[1..], b) && a[0] in b
    decreases |b|
  {
    if a[0] == b[0] && Subsequence(a[1..], b[1..]) {
      DropHead(a[1..], b);
    } else {
      SubsequenceTail(a, b[1..]);
      DropHead(a[1..], b);
    }
  }

  /**
   The limiter wastes no opportunity: with a clock that does not go back, no choice of packets that keeps
   rounds more than `interval` apart has more rounds.
   */
  lemma {:induction false} RoundsAreMost(clock: seq<int>, last: int, other: int, interval: int, choice: seq<int>)
    requires Nondecreasing(clock) && last <= other && interval >= 0
    requires Subsequence(choice, clock) && Spaced(choice, other, interval)
    ensures |choice| <= |RoundTimes(clock, last, interval)|
    decreases |clock|
  {
    if clock != [] && choice != [] {
      var x, rest := clock[0], clock[1..];
      if x - last > interval {
        if choice[0] == x && Subsequence(choice[1..], rest) {
          RoundsAreMost(rest, x, x, interval, choice[1..]);
        } else {
          assert Subsequence(choice, rest);
          SubsequenceTail(choice, rest);
          assert x <= choice[0];
          RoundsAreMost(rest, x, choice[0], interval, choice[1..]);
        }
      } else {
        assert choice[0] != x;
        RoundsAreMost(rest, last, other, interval, choice);
      }
    }
  }

  // ----- the interceptor -----

  lemma RegisteredBound(events: seq<Event>, ssrc: uint32)
    ensures ssrc in Registered(events) <==> Registration(events, ssrc) >= 0
  {
  }

  lemma KeysAreRegistered(screamRx: map<uint32, seq<Packet>>, events: seq<Event>)
    requires Demultiplexed(screamRx, events)
    ensures screamRx.Keys == Registered(events)
  {
    forall ssrc: uint32 ensures ssrc in screamRx.Keys <==> ssrc in Registered(events) {
      RegisteredBound(events, ssrc);
    }
  }

  /** One event changes the receiver of its own SSRC as the specification says, and no other. */
  lemma OthersKept(before: map<uint32, seq<Packet>>, after: map<uint32, seq<Packet>>, events: seq<Event>, e: Event)
    requires Demultiplexed(before, events)
    requires after == match e
      case Bind(ssrc) => before[ssrc := []]
      case Unbind(ssrc) => before - {ssrc}
      case Arrival(p) => if p.ssrc in before then before[p.ssrc := before[p.ssrc] + [p]] else before
      case Reading(_) => before
    ensures Demultiplexed(after, events + [e])
  {
  }

  lemma OneMore(events: seq<Event>, k: nat, e: Event)
    requires k < |events| && events[k] == e
    ensures events[..k] + [e] == events[..k + 1]
  {
  }

  class ReceiverInterceptor {
    var screamRx: map<uint32, seq<Packet>>  // the receivers, each as the log of its `Receive` calls
    const interval: int
    var rounds: seq<Round>
    ghost var history: seq<Event>

    ghost predicate Valid()
      reads this
    {
      Demultiplexed(screamRx, history)
    }

    constructor (interval: int)
      ensures Valid() && history == [] && rounds == [] && this.interval == interval
    {
      screamRx, rounds, history := map[], [], [];
      this.interval := interval;
    }

    /** `BindRemoteStream` of a stream that supports SCReAM: a new receiver, which has seen nothing. */
    method BindRemoteStream(ssrc: uint32)
      requires Valid()
      modifies this
      ensures Valid() && history == old(history) + [Bind(ssrc)] && rounds == old(rounds)
    {
      screamRx := screamRx[ssrc := []];
      history := history + [Bind(ssrc)];
      OthersKept(old(screamRx), screamRx, old(history), Bind(ssrc));
    }

    method UnbindRemoteStream(ssrc: uint32)
      requires Valid()
      modifies this
      ensures Valid() && history == old(history) + [Unbind(ssrc)] && rounds == old(rounds)
    {
      screamRx := screamRx - {ssrc};
      history := history + [Unbind(ssrc)];
      OthersKept(old(screamRx), screamRx, old(history), Unbind(ssrc));
    }

    /** The part of the loop that hands a packet to its receiver, if there is one. */
    method Receive(packet: Packet)
      requires Valid()
      modifies this
      ensures Valid() && history == old(history) + [Arrival(packet)] && rounds == old(rounds)
      ensures screamRx.Keys == old(screamRx).Keys
    {
      if packet.ssrc in screamRx {
        screamRx := screamRx[packet.ssrc := screamRx[packet.ssrc] + [packet]];
      }
      history := history + [Arrival(packet)];
      OthersKept(old(screamRx), screamRx, old(history), Arrival(packet));
    }

    /** The rounds so far are those that the events so far make. */
    ghost predicate Consistent()
      reads this
    {
      Valid() && rounds == Rounds(history, interval)
    }

    /**
     The loop has read the clock before, and `lastFeedback` is when it last asked for feedback, or else its first
     reading.
     */
    ghost predicate Running(lastFeedback: int)
      reads this
    {
      && Consistent()
      && Clock(history) != []
      && lastFeedback == LastRound(Times(rounds), Clock(history)[0])
    }

    /** The first reading of the clock, with no round. */
    method StartClock(now: int) returns (lastFeedback: int)
      requires Consistent() && Clock(history) == []
      modifies this
      ensures Running(lastFeedback) && history == old(history) + [Reading(now)] && rounds == old(rounds)
      ensures !Midway(history)
    {
      history := history + [Reading(now)];
      OthersKept(screamRx, screamRx, old(history), Reading(now));
      assert history[..|history| - 1] == old(history);
      NoRoundsWithoutClock(old(history), interval);
      lastFeedback := now;
    }

    /** The part of the loop after a packet: a round to everyone registered now, if the last one is long enough ago. */
    method AskIfDue(marker: bool, now: int, lastFeedback: int) returns (last: int)
      requires Running(lastFeedback) && marker == LatestMarker(history)
      modifies this
      ensures Running(last) && history == old(history) + [Reading(now)] && !Midway(history)
      ensures rounds ==
        if now - lastFeedback > interval then old(rounds) + [Round(now, marker, old(screamRx).Keys)] else old(rounds)
    {
      KeysAreRegistered(screamRx, history);
      history := history + [Reading(now)];
      OthersKept(screamRx, screamRx, old(history), Reading(now));
      assert history[..|history| - 1] == old(history);
      last := lastFeedback;
      if now - lastFeedback > interval {
        rounds := rounds + [Round(now, marker, screamRx.Keys)];
        last := now;
      }
    }

    /** What other goroutines do before the next step of the loop. */
    method Interleave(events: seq<Event>, from: nat) returns (k: nat)
      requires Consistent() && from <= |events| && history == events[..from]
      modifies this
      ensures Consistent() && from <= k <= |events| && history == events[..k]
      ensures k < |events| ==> events[k].Arrival? || events[k].Reading?
      ensures rounds == old(rounds) && Clock(history) == old(Clock(history))
      ensures Midway(history) == old(Midway(history)) && LatestMarker(history) == old(LatestMarker(history))
    {
      k := from;
      while k < |events| && !events[k].Arrival? && !events[k].Reading?
        invariant from <= k <= |events| && Consistent() && history == events[..k]
        invariant rounds == old(rounds) && Clock(history) == old(Clock(history))
        invariant Midway(history) == old(Midway(history)) && LatestMarker(history) == old(LatestMarker(history))
      {
        assert events[..k + 1][..k] == events[..k];
        match events[k] {
          case Bind(ssrc) => BindRemoteStream(ssrc);
          case Unbind(ssrc) => UnbindRemoteStream(ssrc);
        }
        k := k + 1;
      }
    }

    /** The packet at `from`, and what other goroutines do before the loop goes on. */
    method HandOn(events: seq<Event>, from: nat) returns (k: nat, marker: bool)
      requires Consistent() && InTurn(events)
      requires from < |events| && history == events[..from] && (events[from].Arrival? || events[from].Reading?)
      requires !Midway(history)
      modifies this
      ensures Consistent() && from < k <= |events| && history == events[..k] && Midway(history)
      ensures k < |events| ==> events[k].Reading?
      ensures rounds == old(rounds) && Clock(history) == old(Clock(history))
      ensures marker == LatestMarker(history)
    {
      assert events[..from + 1][..from] == events[..from];
      Receive(events[from].packet);
      marker := events[from].packet.marker;
      k := Interleave(events, from + 1);
    }

    /** The loop up to its first reading of the clock; it may be closed before. */
    method Start(events: seq<Event>) returns (k: nat, lastFeedback: int)
      requires Consistent() && history == [] && InTurn(events)
      modifies this
      ensures Consistent() && k <= |events| && history == events[..k]
      ensures k < |events| ==> Running(lastFeedback) && !Midway(history)
    {
      lastFeedback := 0;
      k := Interleave(events, 0);
      if k < |events| {
        var marker;
        k, marker := HandOn(events, k);
        if k < |events| {
          OneMore(events, k, Reading(events[k].now));
          lastFeedback := StartClock(events[k].now);
          k := k + 1;
        }
      }
    }

    /** The loop from one reading of the clock to the next; it may be closed before. */
    method Iterate(events: seq<Event>, from: nat, lastFeedback: int) returns (k: nat, last: int)
      requires from < |events| && history == events[..from] && InTurn(events)
      requires Running(lastFeedback) && !Midway(history)
      modifies this
      ensures Consistent() && from < k <= |events| && history == events[..k]
      ensures k < |events| ==> Running(last) && !Midway(history)
    {
      last := lastFeedback;
      k := Interleave(events, from);
      if k < |events| {
        var marker;
        k, marker := HandOn(events, k);
        if k < |events| {
          OneMore(events, k, Reading(events[k].now));
          last := AskIfDue(marker, events[k].now, lastFeedback);
          k := k + 1;
        }
      }
    }

    /** `loop`, over everything that happens until the interceptor is closed. */
    method Loop(events: seq<Event>)
      requires Valid() && history == [] && rounds == [] && InTurn(events)
      modifies this
      ensures Valid() && history == events
      ensures rounds == Rounds(events, interval)
    {
      assert events[..|events|] == events;
      var k, lastFeedback := Start(events);
      while k < |events|
        invariant k <= |events| && Consistent() && history == events[..k]
        invariant k < |events| ==> Running(lastFeedback) && !Midway(history)
      {
        k, lastFeedback := Iterate(events, k, lastFeedback);
      }
    }
  }
}

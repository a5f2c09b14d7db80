/**
 Extending 16-bit sequence numbers (rtp/unwrapper.go): serial comparison in the sense of section 3.2 of
 RFC 1982 with a tie-break, and a floor at zero.
 */
module Unwrapper {
  import opened Words

  const CYCLE: int := 0x1_0000
  const BREAKPOINT: int := 0x8000

  /** Subtraction of two `uint16` values, which wraps around. */
  function Minus(a: uint16, b: uint16): uint16 {
    (a - b) % CYCLE
  }

  predicate IsNewer(value: uint16, previous: uint16) {
    if Minus(value, previous) == BREAKPOINT then value > previous
    else value != previous && Minus(value, previous) < BREAKPOINT
  }

  /** Of two different numbers exactly one is newer; no number is newer than itself. */
  lemma IsNewerIsTotal(a: uint16, b: uint16)
    ensures a != b ==> (IsNewer(a, b) <==> !IsNewer(b, a))
    ensures !IsNewer(a, a)
  {
  }

  /** What `unwrap` adds to the last value. The subtraction above never gives a negative `delta`. */
  function Delta(last: int, i: uint16): int {
    var lastWrapped := last % CYCLE;
    var delta := Minus(i, lastWrapped);
    if IsNewer(i, lastWrapped) then
      if delta < 0 then delta + CYCLE else delta
    else if delta > 0 && last + delta - CYCLE >= 0 then delta - CYCLE
    else delta
  }

  /** The value returned by the last of a run of calls. */
  function Last(inputs: seq<uint16>): int
    requires inputs != []
  {
    var n := |inputs| - 1;
    if n == 0 then inputs[0]
    else
      var last := Last(inputs[..n]);
      last + Delta(last, inputs[n])
  }

  // ----- a simple specification -----

  predicate Congruent(r: int, i: uint16) {
    r % CYCLE == i
  }

  function Distance(a: int, b: int): nat {
    if a <= b then b - a else a - b
  }

  /**
   `r` is a non-negative number congruent to `i` and none such is nearer to `last`. Of two equally near ones
   it is the one that shares its multiple of 65536 with `last`.
   */
  ghost predicate IsNearest(last: int, i: uint16, r: int) {
    && r >= 0 && Congruent(r, i)
    && (forall c :: c >= 0 && Congruent(c, i) ==> Distance(last, r) <= Distance(last, c))
    && (Distance(last, r) == BREAKPOINT ==> r / CYCLE == last / CYCLE)
  }

  /** The two outcomes: within half a cycle, or the first occurrence of `i` when going back would cross zero. */
  lemma DeltaCases(last: int, i: uint16)
    requires last >= 0
    ensures
      var u := last + Delta(last, i);
      && u >= 0 && Congruent(u, i)
      && (Distance(last, u) <= BREAKPOINT || (u == i && last < BREAKPOINT))
      && (Distance(last, u) == BREAKPOINT ==> u / CYCLE == last / CYCLE)
  {
  }

  lemma CongruentApart(a: int, b: int, i: uint16)
    requires Congruent(a, i) && Congruent(b, i)
    ensures a == b || Distance(a, b) >= CYCLE
    ensures a != b && Distance(a, b) < 2 * CYCLE ==> Distance(a, b) == CYCLE
  {
  }

  /** From any non-negative last value, `unwrap` returns the nearest number, and nothing else is nearest. */
  lemma UnwrapIsNearest(last: int, i: uint16, r: int)
    requires last >= 0
    ensures r == last + Delta(last, i) <==> IsNearest(last, i, r)
  {
    var u := last + Delta(last, i);
    DeltaCases(last, i);
    forall c | c >= 0 && Congruent(c, i) ensures Distance(last, u) <= Distance(last, c) {
      CongruentApart(u, c, i);
    }
    assert IsNearest(last, i, u);
    if IsNearest(last, i, r) {
      CongruentApart(u, r, i);
    }
  }

  // ----- bounds -----

  /** After n calls the output is at most 65535 + 32768 (n - 1). */
  lemma {:induction false} OutputsBounded(inputs: seq<uint16>)
    requires inputs != []
    ensures 0 <= Last(inputs) <= 0xFFFF + BREAKPOINT * (|inputs| - 1)
    ensures Congruent(Last(inputs), inputs[|inputs| - 1])
  {
    var n := |inputs| - 1;
    if n > 0 {
      OutputsBounded(inputs[..n]);
      DeltaCases(Last(inputs[..n]), inputs[n]);
    }
  }

  /**
   After up to 2^48 - 3 calls even the largest `delta`, before it is corrected, can be added to the last
   value without overflowing `int64`. So the first 2^48 - 2 calls compute what is computed here with
   unbounded integers.
   */
  lemma NoOverflow(inputs: seq<uint16>)
    requires inputs != [] && |inputs| <= 0x1_0000_0000_0000 - 3
    ensures Last(inputs) + 0xFFFF < 0x8000_0000_0000_0000
  {
    OutputsBounded(inputs);
  }

  // ----- whole reordered runs -----

  /** The 16-bit numbers on the wire for a true numbering. */
  function OnWire(t: seq<int>): (r: seq<uint16>)
    ensures |r| == |t| && forall k :: 0 <= k < |t| ==> r[k] == t[k] % CYCLE
  {
    seq(|t|, k requires 0 <= k < |t| => t[k] % CYCLE)
  }

  /** Consecutive packets are less than half a cycle apart in the true numbering, in either direction. */
  ghost predicate Steady(t: seq<int>) {
    && t != [] && 0 <= t[0] < CYCLE
    && forall k :: 0 <= k < |t| - 1 ==> Distance(t[k], t[k + 1]) < BREAKPOINT
  }

  /** How many cycles must be added so that the lowest number so far is not negative. */
  function Shift(t: seq<int>): nat {
    if t == [] then 0
    else
      var before := Shift(t[..|t| - 1]);
      var need := -(t[|t| - 1] / CYCLE);
      if need > before then need else before
  }

  /** `Shift` is the largest number of cycles that any element is below zero, and 0 if none is. */
  lemma {:induction false} ShiftIsMaximum(t: seq<int>)
    ensures forall j :: 0 <= j < |t| ==> -(t[j] / CYCLE) <= Shift(t)
    ensures Shift(t) == 0 || exists j :: 0 <= j < |t| && -(t[j] / CYCLE) == Shift(t)
  {
    if t != [] {
      var n := |t| - 1;
      ShiftIsMaximum(t[..n]);
      assert forall j :: 0 <= j < n ==> t[..n][j] == t[j];
      if Shift(t) != 0 && Shift(t) == Shift(t[..n]) {
        var j :| 0 <= j < n && -(t[..n][j] / CYCLE) == Shift(t[..n]);
        assert -(t[j] / CYCLE) == Shift(t);
      }
    }
  }

  /** One step of the run, from a value lifted by `c` cycles. */
  lemma LiftedStep(last: int, x: int, y: int, c: nat)
    requires Distance(x, y) < BREAKPOINT && last == x + CYCLE * c >= 0
    ensures
      var need := -(y / CYCLE);
      last + Delta(last, y % CYCLE) == y + CYCLE * (if need > c then need else c)
  {
  }

  lemma RunOneMore(t: seq<int>)
    requires |t| > 1
    ensures
      var n := |t| - 1;
      var last, shift, need := Last(OnWire(t[..n])), Shift(t[..n]), -(t[n] / CYCLE);
      && last >= 0 && Last(OnWire(t)) == last + Delta(last, t[n] % CYCLE)
      && Shift(t) == if need > shift then need else shift
  {
    var n := |t| - 1;
    assert OnWire(t)[..n] == OnWire(t[..n]);
    OutputsBounded(OnWire(t[..n]));
  }

  /** The exact output over a whole run: the true number, lifted by as many cycles as the run has gone below zero. */
  lemma {:induction false} UnwrapsRun(t: seq<int>)
    requires Steady(t)
    ensures Last(OnWire(t)) == t[|t| - 1] + CYCLE * Shift(t)
  {
    var n := |t| - 1;
    if n == 0 {
      assert t[..0] == [];
      assert Shift(t) == 0;
    } else {
      UnwrapsRun(t[..n]);
      RunOneMore(t);
      LiftedStep(Last(OnWire(t[..n])), t[n - 1], t[n], Shift(t[..n]));
    }
  }

  /** Every call of the run returns the true number. */
  ghost predicate ReturnsTrueNumbers(t: seq<int>) {
    forall k :: 0 < k <= |t| ==> Last(OnWire(t)[..k]) == t[k - 1]
  }

  ghost predicate NeverNegative(t: seq<int>) {
    forall k :: 0 <= k < |t| ==> t[k] >= 0
  }

  /** Every output of the run is the true number exactly when the true numbering never goes below zero. */
  lemma UnwrapsExactly(t: seq<int>)
    requires Steady(t)
    ensures ReturnsTrueNumbers(t) <==> NeverNegative(t)
  {
    forall k | 0 < k <= |t|
      ensures Last(OnWire(t)[..k]) == t[k - 1] + CYCLE * Shift(t[..k])
    {
      assert OnWire(t)[..k] == OnWire(t[..k]);
      UnwrapsRun(t[..k]);
    }
    if NeverNegative(t) {
      forall k | 0 < k <= |t| ensures Last(OnWire(t)[..k]) == t[k - 1] {
        ShiftIsMaximum(t[..k]);
      }
    } else {
      var k :| 0 <= k < |t| && t[k] < 0;
      ShiftIsMaximum(t[..k + 1]);
      assert -(t[..k + 1][k] / CYCLE) > 0;
      assert Last(OnWire(t)[..k + 1]) != t[(k + 1) - 1];
    }
  }

  /**
   `r` is the number that `unwrap` makes of its low bits after `last`: it is less than half a cycle away, or exactly
   half and in the same cycle, or too low for the number a cycle before it to exist.
   */
  predicate Follows(last: int, r: int) {
    && r >= 0
    && (|| Distance(last, r) < BREAKPOINT
        || (Distance(last, r) == BREAKPOINT && r / CYCLE == last / CYCLE)
        || (r < CYCLE && r - last > BREAKPOINT))
  }

  lemma DeltaFollows(last: int, r: int)
    requires last >= 0
    ensures Follows(last, r) <==> r == last + Delta(last, r % CYCLE)
  {
    DeltaCases(last, r % CYCLE);
    CongruentApart(r, last + Delta(last, r % CYCLE), r % CYCLE);
  }

  lemma FollowsIsNearest(last: int, r: int)
    requires last >= 0
    ensures Follows(last, r) <==> IsNearest(last, r % CYCLE, r)
  {
    UnwrapIsNearest(last, r % CYCLE, r);
    DeltaFollows(last, r);
  }

  lemma LastOneMore(inputs: seq<uint16>, k: nat)
    requires 0 < k < |inputs|
    ensures Last(inputs[..k]) >= 0
    ensures Last(inputs[..k + 1]) == Last(inputs[..k]) + Delta(Last(inputs[..k]), inputs[k])
  {
    assert inputs[..k + 1][..k] == inputs[..k];
    OutputsBounded(inputs[..k]);
  }

  /** The true numbering starts in the first cycle and each number follows the one before. */
  ghost predicate EachFollows(t: seq<int>) {
    t != [] && 0 <= t[0] < CYCLE && forall k :: 0 < k < |t| ==> Follows(t[k - 1], t[k])
  }

  lemma {:induction false} FollowingIsReturned(t: seq<int>, k: nat)
    requires EachFollows(t) && 0 < k <= |t|
    ensures Last(OnWire(t)[..k]) == t[k - 1]
  {
    if k > 1 {
      FollowingIsReturned(t, k - 1);
      LastOneMore(OnWire(t), k - 1);
      DeltaFollows(t[k - 2], t[k - 1]);
    }
  }

  /** On every run whatever, with jumps and ties: all outputs are the true numbers exactly if each follows the last. */
  lemma TrueNumbersExactly(t: seq<int>)
    requires t != []
    ensures ReturnsTrueNumbers(t) <==> EachFollows(t)
  {
    if EachFollows(t) {
      forall k | 0 < k <= |t| ensures Last(OnWire(t)[..k]) == t[k - 1] {
        FollowingIsReturned(t, k);
      }
    }
    if ReturnsTrueNumbers(t) {
      assert Last(OnWire(t)[..1]) == t[1 - 1];
      forall k | 0 < k < |t| ensures Follows(t[k - 1], t[k]) {
        assert Last(OnWire(t)[..k]) == t[k - 1] && Last(OnWire(t)[..k + 1]) == t[(k + 1) - 1];
        LastOneMore(OnWire(t), k);
        DeltaFollows(t[k - 1], t[k]);
      }
    }
  }

  lemma RunOfTwo(a: int, b: int)
    requires 0 <= a < CYCLE
    ensures Last(OnWire([a, b])) == a + Delta(a, b % CYCLE)
    ensures ReturnsTrueNumbers([a, b]) ==> Last(OnWire([a, b])) == b
  {
    var t := [a, b];
    assert OnWire(t)[..2] == OnWire(t);
    LastOneMore(OnWire(t), 1);
    if ReturnsTrueNumbers(t) {
      assert Last(OnWire(t)[..2]) == t[2 - 1];
    }
  }

  /** Two runs that are not returned: a packet from before number 0, and half a cycle ahead into the next cycle. */
  lemma RunsNotReturned()
    ensures Last(OnWire([0, -1])) == 0xFFFF && !ReturnsTrueNumbers([0, -1])
    ensures Last(OnWire([0x8000, 0x1_0000])) == 0 && !ReturnsTrueNumbers([0x8000, 0x1_0000])
  {
    RunOfTwo(0, -1);
    RunOfTwo(0x8000, 0x1_0000);
  }

  // ----- the unwrapper -----

  class Unwrapper {
    var init: bool
    var lastUnwrapped: int
    ghost var inputs: seq<uint16>  // every argument so far

    ghost predicate Valid()
      reads this
    {
      && (init <==> inputs != [])
      && (init ==> lastUnwrapped == Last(inputs))
    }

    constructor ()
      ensures Valid() && inputs == []
    {
      init, lastUnwrapped, inputs := false, 0, [];
    }

    method Unwrap(i: uint16) returns (r: int)
      requires Valid()
      modifies this
      ensures Valid() && inputs == old(inputs) + [i]
      ensures r == lastUnwrapped == Last(inputs)
      ensures if old(inputs) == [] then r == i else IsNearest(Last(old(inputs)), i, r)
      ensures 0 <= r <= 0xFFFF + BREAKPOINT * (|inputs| - 1)
    {
      ghost var before := inputs;
      inputs := inputs + [i];
      assert inputs[..|inputs| - 1] == before;
      OutputsBounded(inputs);
      if !init {
        init := true;
        lastUnwrapped := i;
        return lastUnwrapped;
      }
      OutputsBounded(before);
      UnwrapIsNearest(lastUnwrapped, i, lastUnwrapped + Delta(lastUnwrapped, i));
      var lastWrapped := lastUnwrapped % CYCLE;
      var delta: int := Minus(i, lastWrapped);
      if IsNewer(i, lastWrapped) {
        if delta < 0 {
          delta := delta + CYCLE;
        }
      } else if delta > 0 && lastUnwrapped + delta - CYCLE >= 0 {
        delta := delta - CYCLE;
      }
      lastUnwrapped := lastUnwrapped + delta;
      return lastUnwrapped;
    }
  }
}

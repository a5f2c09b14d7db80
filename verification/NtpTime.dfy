/**
 The two clocks in units of 1/65536 s: `ntpTime32` (scream/scream.go), the short format of section 6 of RFC 5905, and
 `getTimeBetweenNTP` (quic/local_rfc8888.go), which counts from the start of the program. An instant is a
 number of nanoseconds since 1970; `float64` is read as the real numbers.
 */
module NtpTime {
  import opened Arithmetic

  const TWO_16: int := 0x1_0000
  const TWO_32: int := 0x1_0000_0000

  /** From 1900 to 1970, in seconds. */
  const EPOCH: real := 2208988800.0

  // ----- bit operations on non-negative integers -----

  function Pow2(k: nat): nat {
    if k == 0 then 1 else 2 * Pow2(k - 1)
  }

  function Or(a: nat, b: nat): nat {
    if a == 0 && b == 0 then 0
    else 2 * Or(a / 2, b / 2) + if a % 2 == 1 || b % 2 == 1 then 1 else 0
  }

  function And(a: nat, b: nat): nat {
    if a == 0 || b == 0 then 0
    else 2 * And(a / 2, b / 2) + if a % 2 == 1 && b % 2 == 1 then 1 else 0
  }

  function ShiftLeft(a: nat, k: nat): nat {
    if k == 0 then a else 2 * ShiftLeft(a, k - 1)
  }

  function ShiftRight(a: nat, k: nat): nat {
    if k == 0 then a else ShiftRight(a / 2, k - 1)
  }

  lemma {:induction false} ShiftLeftMultiplies(a: nat, k: nat)
    ensures ShiftLeft(a, k) == a * Pow2(k)
  {
    if k > 0 {
      ShiftLeftMultiplies(a, k - 1);
    }
  }

  lemma {:induction false} OrWithZero(b: nat)
    ensures Or(0, b) == b
  {
    if b > 0 {
      OrWithZero(b / 2);
    }
  }

  /** Below the bits that a shift has vacated, OR is addition. */
  lemma {:induction false} OrFillsVacated(a: nat, b: nat, k: nat)
    requires b < Pow2(k)
    ensures Or(ShiftLeft(a, k), b) == ShiftLeft(a, k) + b
  {
    if k == 0 {
      if a > 0 {
        OrFillsVacated(a / 2, 0, 0);
      }
    } else {
      OrFillsVacated(a, b / 2, k - 1);
    }
  }

  lemma DivideTwice(a: nat, p: nat)
    requires p >= 1
    ensures a / 2 / p == a / (2 * p)
  {
    var q, r := a / 2 / p, a / 2 % p;
    assert a / 2 == p * q + r;
    var rest := a - 2 * p * q;
    assert 2 * p * q == (2 * p) * q;
    assert 0 <= rest < 2 * p;
    DivisionIs(a, 2 * p, q, rest);
  }

  lemma {:induction false} ShiftRightDivides(a: nat, k: nat)
    ensures Pow2(k) >= 1 && ShiftRight(a, k) == a / Pow2(k)
  {
    if k > 0 {
      ShiftRightDivides(a / 2, k - 1);
      DivideTwice(a, Pow2(k - 1));
    }
  }

  lemma RemainderOfDouble(a: nat, p: nat)
    requires p >= 1
    ensures a % (2 * p) == 2 * (a / 2 % p) + a % 2
  {
    var q, r := a / 2 / p, a / 2 % p;
    assert a / 2 == p * q + r;
    assert (2 * p) * q == 2 * (p * q);
    DivisionIs(a, 2 * p, q, 2 * r + a % 2);
  }

  /** Masking with 2^k - 1 is reduction modulo 2^k. */
  lemma {:induction false} AndMasks(a: nat, k: nat)
    ensures Pow2(k) >= 1 && And(a, Pow2(k) - 1) == a % Pow2(k)
  {
    if k > 0 {
      var p := Pow2(k - 1);
      AndMasks(a / 2, k - 1);
      RemainderOfDouble(a, p);
      assert (2 * p - 1) / 2 == p - 1 && (2 * p - 1) % 2 == 1;
      assert a == 0 ==> a / 2 % p == 0;
    }
  }

  lemma Powers()
    ensures Pow2(16) == TWO_16 && Pow2(32) == TWO_32
  {
    assert Pow2(8) == 256;
    assert Pow2(12) == 4096;
    assert Pow2(20) == 0x10_0000;
    assert Pow2(24) == 0x100_0000;
    assert Pow2(28) == 0x1000_0000;
  }

  // ----- ntpTime32 -----

  /** Seconds since 1900. */
  function NtpSeconds(nanos: int): real {
    nanos as real / 1000000000.0 + EPOCH
  }

  /** The instants up to 2036 for which the seconds fit `uint32`. */
  predicate InRange(s: real) {
    0.0 <= s < TWO_32 as real
  }

  function Fraction(s: real): nat
    requires InRange(s)
  {
    ((s - s.Floor as real) * 0xFFFF_FFFF as real).Floor
  }

  /** `ntpTime32`, with the shifts and masks of the source. */
  function Ntp32(s: real): nat
    requires InRange(s)
  {
    And(ShiftRight(Or(ShiftLeft(s.Floor, 32), Fraction(s)), 16), 0xFFFF_FFFF)
  }

  /** The number of ticks since 1900, as far as the source's scale factor lets it count. */
  function Ticks(s: real): nat
    requires InRange(s)
  {
    TWO_16 * s.Floor + Fraction(s) / TWO_16
  }

  lemma FractionBound(s: real)
    requires InRange(s)
    ensures Fraction(s) < TWO_32
  {
  }

  /** The bit operations compute the ticks modulo 2^32. */
  lemma Ntp32IsTicks(s: real)
    requires InRange(s)
    ensures Ntp32(s) == Ticks(s) % TWO_32 && Ntp32(s) < TWO_32
  {
    var i, f := s.Floor, Fraction(s);
    FractionBound(s);
    Powers();
    ShiftLeftMultiplies(i, 32);
    OrFillsVacated(i, f, 32);
    var word := i * TWO_32 + f;
    ShiftRightDivides(word, 16);
    DivisionIs(word, TWO_16, TWO_16 * i + f / TWO_16, f % TWO_16);
    AndMasks(word / TWO_16, 32);
  }

  /** The count is never ahead of the time, and behind it by less than one tick and 2^-16 of a tick. */
  lemma TicksAccurate(s: real)
    requires InRange(s)
    ensures 0.0 <= 65536.0 * s - Ticks(s) as real < 1.0 + 1.0 / 65536.0
  {
  }

  /** A later instant never has fewer ticks. */
  lemma TicksMonotone(s: real, t: real)
    requires InRange(s) && InRange(t) && s <= t
    ensures Ticks(s) <= Ticks(t)
  {
    FractionBound(s);
    if s.Floor == t.Floor {
      assert (s - s.Floor as real) * 0xFFFF_FFFF as real <= (t - t.Floor as real) * 0xFFFF_FFFF as real;
      assert Fraction(s) <= Fraction(t);
    } else {
      assert s.Floor + 1 <= t.Floor;
    }
  }

  /**
   What `ntpTime32` returns for an instant: the 65536ths of a second since 1900, which is 2208988800 s before 1970,
   short by less than one of them and 2^-16, and without whole multiples of 2^32.
   */
  lemma StampAccurate(nanos: int) returns (cycles: nat)
    requires 0.0 <= nanos as real / 1000000000.0 + 2208988800.0 < 4294967296.0
    ensures InRange(NtpSeconds(nanos)) && Ntp32(NtpSeconds(nanos)) < 0x1_0000_0000
    ensures
      var exact := 65536.0 * (nanos as real / 1000000000.0 + 2208988800.0);
      var stamp := Ntp32(NtpSeconds(nanos)) + 0x1_0000_0000 * cycles;
      0.0 <= exact - stamp as real < 1.0 + 1.0 / 65536.0
  {
    var s := NtpSeconds(nanos);
    TicksAccurate(s);
    Ntp32IsTicks(s);
    cycles := Ticks(s) / TWO_32;
  }

  /** At whole seconds the stamp is exact: the low 16 bits of the seconds since 1900, and a fraction of 0. */
  lemma StampOfWholeSeconds(seconds: int)
    requires 0 <= seconds + 2208988800 < 0x1_0000_0000
    ensures InRange(NtpSeconds(seconds * 1000000000))
    ensures Ntp32(NtpSeconds(seconds * 1000000000)) == 0x1_0000 * ((seconds + 2208988800) % 0x1_0000)
  {
    var s, whole := NtpSeconds(seconds * 1000000000), seconds + 2208988800;
    assert s == whole as real && s.Floor == whole;
    Ntp32IsTicks(s);
    assert Ticks(s) == TWO_16 * whole;
    DivisionIs(TWO_16 * whole, TWO_32, whole / TWO_16, TWO_16 * (whole % TWO_16));
  }

  lemma ModularDifference(a: int, b: int)
    ensures (b % TWO_32 - a % TWO_32) % TWO_32 == (b - a) % TWO_32
    ensures 0 <= b - a < TWO_32 ==> (b - a) % TWO_32 == b - a
  {
  }

  /**
   Differences of stamps, taken modulo 2^32, recover the elapsed time to within one tick and a bit, even
   across the wrap, as long as the span is shorter than the 65536 s period by that margin.
   */
  lemma ElapsedRecovered(s: real, t: real)
    requires InRange(s) && InRange(t) && s <= t
    requires 65536.0 * (t - s) + 1.0 + 1.0 / 65536.0 <= TWO_32 as real
    ensures
      var elapsed := (Ntp32(t) - Ntp32(s)) % TWO_32;
      && elapsed == Ticks(t) - Ticks(s)
      && -(1.0 + 1.0 / 65536.0) < elapsed as real - 65536.0 * (t - s) < 1.0 + 1.0 / 65536.0
  {
    Ntp32IsTicks(s);
    Ntp32IsTicks(t);
    TicksAccurate(s);
    TicksAccurate(t);
    TicksMonotone(s, t);
    ModularDifference(Ticks(s), Ticks(t));
  }

  // ----- getTimeBetweenNTP -----

  /** Seconds with their microseconds, as `Unix` and `UnixMicro` give them. Both round down. */
  function MicroSeconds(nanos: int): real {
    var secs := nanos / 1000000000;
    var usecs := nanos / 1000 - secs * 1000000;
    secs as real + usecs as real * 0.000001
  }

  predicate After(t0: real, nanos: int) {
    MicroSeconds(nanos) >= t0
  }

  function LocalTicks(t0: real, nanos: int): nat
    requires After(t0, nanos)
  {
    ((MicroSeconds(nanos) - t0) * 65536.0).Floor
  }

  function TimeBetween(t0: real, nanos: int): nat
    requires After(t0, nanos)
  {
    And(0xFFFF_FFFF, LocalTicks(t0, nanos))
  }

  lemma {:induction false} AndCommutes(a: nat, b: nat)
    ensures And(a, b) == And(b, a)
  {
    if a != 0 && b != 0 {
      AndCommutes(a / 2, b / 2);
    }
  }

  lemma TimeBetweenIsTicks(t0: real, nanos: int)
    requires After(t0, nanos)
    ensures TimeBetween(t0, nanos) == LocalTicks(t0, nanos) % TWO_32
  {
    AndCommutes(0xFFFF_FFFF, LocalTicks(t0, nanos));
    Powers();
    AndMasks(LocalTicks(t0, nanos), 32);
  }

  /** The local count is behind the time since `t0` by less than 1.0656 ticks. */
  lemma LocalTicksAccurate(t0: real, nanos: int)
    requires After(t0, nanos)
    ensures 0.0 <= 65536.0 * (nanos as real / 1000000000.0 - t0) - LocalTicks(t0, nanos) as real < 1.0656
  {
  }

  /** What `getTimeBetweenNTP` returns: the 65536ths of a second since `t0`, without whole multiples of 2^32. */
  lemma TimeBetweenAccurate(t0: real, nanos: int) returns (cycles: nat)
    requires After(t0, nanos)
    ensures TimeBetween(t0, nanos) < 0x1_0000_0000
    ensures
      var exact := 65536.0 * (nanos as real / 1000000000.0 - t0);
      0.0 <= exact - (TimeBetween(t0, nanos) + 0x1_0000_0000 * cycles) as real < 1.0656
  {
    TimeBetweenIsTicks(t0, nanos);
    LocalTicksAccurate(t0, nanos);
    cycles := LocalTicks(t0, nanos) / TWO_32;
  }

  // ----- the two clocks together -----

  /** `a` and `b` differ by at most `n` steps around a circle of 2^32. */
  predicate Near(a: int, b: int, n: nat) {
    (a - b) % TWO_32 <= n || (b - a) % TWO_32 <= n
  }

  /** Before reduction, the two clocks differ by at most 2 ticks in what they count between two instants. */
  lemma TicksAgree(t0: real, n1: int, n2: int)
    requires After(t0, n1) && After(t0, n2) && InRange(NtpSeconds(n1)) && InRange(NtpSeconds(n2))
    ensures -2 <= (Ticks(NtpSeconds(n2)) - Ticks(NtpSeconds(n1))) - (LocalTicks(t0, n2) - LocalTicks(t0, n1)) <= 2
  {
    TicksAccurate(NtpSeconds(n1));
    TicksAccurate(NtpSeconds(n2));
    LocalTicksAccurate(t0, n1);
    LocalTicksAccurate(t0, n2);
    var a, b := Ticks(NtpSeconds(n2)) - Ticks(NtpSeconds(n1)), LocalTicks(t0, n2) - LocalTicks(t0, n1);
    assert -3.0 < a as real - b as real < 3.0;
  }

  lemma NearModulo(a: int, b: int)
    requires -2 <= a - b <= 2
    ensures Near(a % TWO_32, b % TWO_32, 2)
  {
  }

  /** Four readings that count modulo 2^32 what nearly equal counts count before it. */
  lemma DifferencesNear(s1: int, s2: int, l1: int, l2: int, a1: int, a2: int, b1: int, b2: int)
    requires s1 == a1 % TWO_32 && s2 == a2 % TWO_32 && l1 == b1 % TWO_32 && l2 == b2 % TWO_32
    requires -2 <= (a2 - a1) - (b2 - b1) <= 2
    ensures Near((s2 - s1) % TWO_32, (l2 - l1) % TWO_32, 2)
  {
    ModularDifference(a1, a2);
    ModularDifference(b1, b2);
    NearModulo(a2 - a1, b2 - b1);
  }

  /** So between any two instants the stamps count the same number of ticks, modulo 2^32, up to 2. */
  lemma ClocksAgree(t0: real, n1: int, n2: int)
    requires After(t0, n1) && After(t0, n2) && InRange(NtpSeconds(n1)) && InRange(NtpSeconds(n2))
    ensures
      var stamps := (Ntp32(NtpSeconds(n2)) - Ntp32(NtpSeconds(n1))) % TWO_32;
      var locals := (TimeBetween(t0, n2) - TimeBetween(t0, n1)) % TWO_32;
      Near(stamps, locals, 2)
  {
    var s1, s2 := NtpSeconds(n1), NtpSeconds(n2);
    TicksAgree(t0, n1, n2);
    Ntp32IsTicks(s1);
    Ntp32IsTicks(s2);
    TimeBetweenIsTicks(t0, n1);
    TimeBetweenIsTicks(t0, n2);
    DifferencesNear(Ntp32(s1), Ntp32(s2), TimeBetween(t0, n1), TimeBetween(t0, n2),
                    Ticks(s1), Ticks(s2), LocalTicks(t0, n1), LocalTicks(t0, n2));
  }

  /** The bound is met: for these two instants one clock counts two ticks and the other none. */
  lemma ClocksCanDifferByTwo()
    ensures
      var t0, n1, n2 := -1.0 / 3276800.0, 15058, 30518;
      && After(t0, n1) && After(t0, n2) && InRange(NtpSeconds(n1)) && InRange(NtpSeconds(n2))
      && Ticks(NtpSeconds(n2)) - Ticks(NtpSeconds(n1)) == 2
      && LocalTicks(t0, n2) - LocalTicks(t0, n1) == 0
  {
    assert NtpSeconds(15058).Floor == 2208988800;
    assert NtpSeconds(30518).Floor == 2208988800;
  }

  // ----- arrival times of locally generated feedback -----

  /** `run`: the time of arrival it assumes, half a round trip after sending. */
  function ArrivalTime(sent: nat, rttSeconds: real): nat
    requires rttSeconds >= 0.0
  {
    sent + (rttSeconds * 65536.0).Floor / 2
  }

  /** Halving after truncation is truncation after halving: the assumed delay is less than a tick short. */
  lemma ArrivalAccurate(sent: nat, rttSeconds: real)
    requires rttSeconds >= 0.0
    ensures 0.0 <= sent as real + 65536.0 * (rttSeconds / 2.0) - ArrivalTime(sent, rttSeconds) as real < 1.0
  {
  }
}

/** Machine words and their big-endian byte form (`encoding/binary`). */
module Words {

  type byte = x: int | 0 <= x < 0x100
  type uint16 = x: int | 0 <= x < 0x1_0000
  type uint32 = x: int | 0 <= x < 0x1_0000_0000
  type uint64 = x: int | 0 <= x < 0x1_0000_0000_0000_0000

  function Pow256(k: nat): nat {
    if k == 0 then 1 else 256 * Pow256(k - 1)
  }

  lemma {:induction false} Pow256Positive(k: nat)
    ensures Pow256(k) >= 1
  {
    if k > 0 {
      Pow256Positive(k - 1);
    }
  }

  /** The number that `b` spells, most significant byte first. */
  function FromBytes(b: seq<byte>): nat {
    if b == [] then 0 else 256 * FromBytes(b[..|b| - 1]) + b[|b| - 1]
  }

  /** The last `k` base-256 digits of `n`, most significant first. */
  function ToBytes(n: nat, k: nat): (r: seq<byte>)
    ensures |r| == k
  {
    if k == 0 then [] else ToBytes(n / 256, k - 1) + [n % 256]
  }

  lemma {:induction false} FromBytesBound(b: seq<byte>)
    ensures FromBytes(b) < Pow256(|b|)
  {
    if b != [] {
      FromBytesBound(b[..|b| - 1]);
    }
  }

  lemma {:induction false} FromToBytes(n: nat, k: nat)
    requires n < Pow256(k)
    ensures FromBytes(ToBytes(n, k)) == n
  {
    if k > 0 {
      FromToBytes(n / 256, k - 1);
      assert ToBytes(n, k)[..k - 1] == ToBytes(n / 256, k - 1);
    }
  }

  lemma {:induction false} ToFromBytes(b: seq<byte>)
    ensures ToBytes(FromBytes(b), |b|) == b
  {
    if b != [] {
      ToFromBytes(b[..|b| - 1]);
    }
  }

  /** The leading byte carries the most significant digit. */
  lemma {:induction false} FromBytesCons(x: byte, rest: seq<byte>)
    ensures FromBytes([x] + rest) == x * Pow256(|rest|) + FromBytes(rest)
  {
    var b := [x] + rest;
    if rest == [] {
      assert b[..|b| - 1] == [];
    } else {
      var rest' := rest[..|rest| - 1];
      assert b[..|b| - 1] == [x] + rest';
      FromBytesCons(x, rest');
    }
  }

  lemma TwoBytes(b: seq<byte>)
    requires |b| == 2
    ensures FromBytes(b) == 256 * (b[0] as int) + b[1] < 0x1_0000
  {
    assert b[..1] == [b[0]];
    assert FromBytes(b[..1][..0]) == 0;
  }
}

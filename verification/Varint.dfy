/** Variable-length integers of QUIC (section 16 of RFC 9000), which carry the flow identifier. */
module Varint {
  import opened Arithmetic
  import opened Words
  import opened Wrappers

  /** What fits into 62 bits. */
  const LIMIT: int := 0x4000_0000_0000_0000

  type uint62 = x: int | 0 <= x < LIMIT

  /** The length of the shortest encoding (`quicvarint.Len`). */
  function Len(i: uint62): nat {
    if i < 0x40 then 1 else if i < 0x4000 then 2 else if i < 0x4000_0000 then 4 else 8
  }

  /** The two leading bits say that the encoding takes 1, 2, 4 or 8 bytes. */
  function LengthOf(first: byte): nat {
    match first / 64
    case 0 => 1
    case 1 => 2
    case 2 => 4
    case _ => 8
  }

  function PrefixFor(length: nat): nat {
    if length == 1 then 0 else if length == 2 then 1 else if length == 4 then 2 else 3
  }

  predicate IsLength(length: nat) {
    length == 1 || length == 2 || length == 4 || length == 8
  }

  lemma Powers()
    ensures Pow256(0) == 1 && Pow256(1) == 0x100 && Pow256(3) == 0x100_0000 && Pow256(7) == 0x100_0000_0000_0000
  {
  }

  /** Room in an encoding of the given length. */
  function Capacity(length: nat): nat
    requires IsLength(length)
  {
    64 * Pow256(length - 1)
  }

  lemma FirstDigit(i: nat, p: nat)
    requires p > 0 && i < 64 * p
    ensures 0 <= i / p < 64 && 0 <= i % p < p && i == p * (i / p) + i % p
  {
  }

  /** An encoding of `i` of the given length: the shortest, or a longer one, which section 16 of RFC 9000 allows. */
  function EncodeAs(i: nat, length: nat): (r: seq<byte>)
    requires IsLength(length) && i < Capacity(length)
    ensures |r| == length
  {
    Pow256Positive(length - 1);
    FirstDigit(i, Pow256(length - 1));
    [64 * PrefixFor(length) + i / Pow256(length - 1)] + ToBytes(i % Pow256(length - 1), length - 1)
  }

  lemma LenFits(i: uint62)
    ensures IsLength(Len(i)) && i < Capacity(Len(i))
    ensures forall length :: IsLength(length) && i < Capacity(length) ==> Len(i) <= length
  {
  }

  /** `quicvarint.Write`. */
  function Encode(i: uint62): (r: seq<byte>)
    ensures |r| == Len(i) && 1 <= |r| <= 8
  {
    LenFits(i);
    EncodeAs(i, Len(i))
  }

  datatype Decoded = Decoded(value: uint62, consumed: nat)

  lemma DecodedFits(first: byte, rest: seq<byte>)
    requires |rest| == LengthOf(first) - 1
    ensures FromBytes([first % 64] + rest) < LIMIT
    ensures FromBytes([first % 64] + rest) < Capacity(LengthOf(first))
  {
    FromBytesCons(first % 64, rest);
    FromBytesBound(rest);
    Powers();
  }

  /** The number at the front of `b` and how many bytes it takes, or nothing if `b` ends too early. */
  function Decode(b: seq<byte>): (r: Option<Decoded>)
    ensures r.Some? ==> 1 <= r.value.consumed <= |b| && r.value.consumed == LengthOf(b[0])
    ensures r.None? <==> b == [] || |b| < LengthOf(b[0])
  {
    if b == [] || |b| < LengthOf(b[0]) then None
    else
      var n := LengthOf(b[0]);
      DecodedFits(b[0], b[1..n]);
      Some(Decoded(FromBytes([b[0] % 64] + b[1..n]), n))
  }

  lemma FirstByte(length: nat, x: nat)
    requires IsLength(length) && x < 64
    ensures
      var first := 64 * PrefixFor(length) + x;
      first < 256 && LengthOf(first) == length && first % 64 == x
  {
  }

  lemma CapacityBelowLimit(length: nat)
    requires IsLength(length)
    ensures Capacity(length) <= LIMIT
  {
  }

  /** Every encoding, shortest or not, decodes to its number and consumes exactly itself, whatever follows. */
  lemma DecodeEncodedAs(i: nat, length: nat, rest: seq<byte>)
    requires IsLength(length) && i < Capacity(length)
    ensures i < LIMIT
    ensures Decode(EncodeAs(i, length) + rest) == Some(Decoded(i, length))
  {
    var p := Pow256(length - 1);
    Pow256Positive(length - 1);
    FirstDigit(i, p);
    CapacityBelowLimit(length);
    FirstByte(length, i / p);
    var digits := ToBytes(i % p, length - 1);
    FromToBytes(i % p, length - 1);
    FromBytesCons(i / p, digits);
    assert (EncodeAs(i, length) + rest)[1..length] == digits;
  }

  lemma DecodeEncoded(i: uint62, rest: seq<byte>)
    ensures Decode(Encode(i) + rest) == Some(Decoded(i, Len(i)))
  {
    LenFits(i);
    DecodeEncodedAs(i, Len(i), rest);
  }

  /** Conversely, every decodable prefix is the encoding, of the length it announces, of the number it decodes to. */
  lemma EncodeDecoded(b: seq<byte>)
    requires Decode(b).Some?
    ensures
      var d := Decode(b).value;
      && IsLength(d.consumed) && d.value < Capacity(d.consumed)
      && EncodeAs(d.value, d.consumed) == b[..d.consumed]
  {
    var n := LengthOf(b[0]);
    var rest, x := b[1..n], b[0] % 64;
    var i := FromBytes([x] + rest);
    DecodedFits(b[0], rest);
    FromBytesCons(x, rest);
    FromBytesBound(rest);
    Powers();
    DivisionIs(i, Pow256(n - 1), x, FromBytes(rest));
    ToFromBytes(rest);
    assert b[..n] == [b[0]] + rest;
  }

  /** `b` starts with the shortest encoding of its number. */
  predicate MinimallyEncoded(b: seq<byte>) {
    Decode(b).Some? && Decode(b).value.consumed == Len(Decode(b).value.value)
  }

  /** Minimality is being what `quicvarint.Write` writes. */
  lemma MinimalIsEncode(b: seq<byte>)
    ensures MinimallyEncoded(b) <==> exists i: uint62 :: Encode(i) <= b
  {
    if MinimallyEncoded(b) {
      EncodeDecoded(b);
      assert Encode(Decode(b).value.value) <= b;
    }
    if i: uint62 :| Encode(i) <= b {
      DecodeEncoded(i, b[Len(i)..]);
      assert b == Encode(i) + b[Len(i)..];
    }
  }

  /** The table of section 16 of RFC 9000: the two leading bits of the first byte, the length, and the range. */
  lemma LeadingBits(i: uint62)
    ensures
      var b := Encode(i);
      && (i <= 63 ==> |b| == 1 && b[0] / 64 == 0)
      && (63 < i <= 16383 ==> |b| == 2 && b[0] / 64 == 1)
      && (16383 < i <= 1073741823 ==> |b| == 4 && b[0] / 64 == 2)
      && (1073741823 < i ==> |b| == 8 && b[0] / 64 == 3)
  {
    LenFits(i);
    Pow256Positive(Len(i) - 1);
    FirstDigit(i, Pow256(Len(i) - 1));
  }

  lemma FourBytes(b: seq<byte>)
    requires |b| == 4
    ensures FromBytes(b) == 256 * (256 * (256 * (b[0] as int) + b[1]) + b[2]) + b[3]
  {
    var b3, b2, b1 := b[..3], b[..2], b[..1];
    assert b3[..2] == b2 && b2[..1] == b1 && b1[..0] == [];
    assert FromBytes(b1) == b[0];
    assert FromBytes(b3) == 256 * FromBytes(b2) + b[2];
  }

  /** Four examples of section A.1 of RFC 9000. */
  lemma Examples()
    ensures Decode([0x9d, 0x7f, 0x3e, 0x7d]) == Some(Decoded(494878333, 4))
    ensures Decode([0x7b, 0xbd]) == Some(Decoded(15293, 2))
    ensures Decode([0x25]) == Some(Decoded(37, 1))
    ensures Decode([0x40, 0x25]) == Some(Decoded(37, 2))
  {
    FourBytes([0x9d % 64, 0x7f, 0x3e, 0x7d]);
    TwoBytes([0x7b % 64, 0xbd]);
    TwoBytes([0x40 % 64, 0x25]);
    assert [0x25 % 64][..0] == [];
    assert [0x1d] + [0x9d, 0x7f, 0x3e, 0x7d][1..4] == [0x9d % 64, 0x7f, 0x3e, 0x7d];
    assert [0x3b] + [0x7b, 0xbd][1..2] == [0x7b % 64, 0xbd];
    assert [0x00] + [0x40, 0x25][1..2] == [0x40 % 64, 0x25];
    assert [0x25] + [0x25][1..1] == [0x25];
  }
}

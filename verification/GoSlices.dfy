/** Byte slices of Go that start at the beginning of their backing array, and `append`. */
module GoSlices {
  import opened Words

  /** The first `len` bytes of `backing`; the rest of the array is spare capacity. */
  datatype Slice = Slice(backing: array<byte>, len: nat) {
    predicate Valid() {
      len <= backing.Length
    }

    ghost function Contents(): (r: seq<byte>)
      requires Valid()
      reads backing
      ensures |r| == len
    {
      backing[..len]
    }
  }

  /** `a` with `x` written over it at `offset`. */
  function Overlay(a: seq<byte>, offset: nat, x: seq<byte>): (r: seq<byte>)
    requires offset + |x| <= |a|
    ensures |r| == |a|
  {
    a[..offset] + x + a[offset + |x|..]
  }

  lemma OverlayTwice(a: seq<byte>, offset: nat, x: seq<byte>, y: seq<byte>)
    requires offset <= |a|
    ensures Overlay(a, offset, []) == a
    ensures offset + |x| + |y| <= |a| ==> Overlay(Overlay(a, offset, x), offset + |x|, y) == Overlay(a, offset, x + y)
  {
  }

  /**
   `append(s, xs...)`: in place when the capacity suffices, otherwise into a new array with some spare capacity
   of the allocator's choice. In place it writes just behind `s` and nowhere else; otherwise it leaves the
   old array alone.
   */
  method Append(s: Slice, xs: seq<byte>, spare: nat) returns (r: Slice)
    requires s.Valid()
    modifies s.backing
    ensures r.Valid() && r.len == s.len + |xs|
    ensures r.Contents() == old(s.Contents()) + xs
    ensures s.Contents() == old(s.Contents())
    ensures r.len <= s.backing.Length ==>
      r.backing == s.backing && s.backing[..] == Overlay(old(s.backing[..]), s.len, xs)
    ensures r.len > s.backing.Length ==>
      fresh(r.backing) && r.backing.Length == r.len + spare && s.backing[..] == old(s.backing[..])
  {
    var n := s.len + |xs|;
    if n <= s.backing.Length {
      forall i | 0 <= i < |xs| {
        s.backing[s.len + i] := xs[i];
      }
      r := Slice(s.backing, n);
    } else {
      var grown := new byte[n + spare];
      forall i | 0 <= i < s.len {
        grown[i] := s.backing[i];
      }
      forall i | 0 <= i < |xs| {
        grown[s.len + i] := xs[i];
      }
      r := Slice(grown, n);
    }
    assert r.backing[..s.len] == old(s.Contents());
    assert r.backing[s.len..n] == xs;
    assert r.backing[..n] == r.backing[..s.len] + r.backing[s.len..n];
  }
}

/**
 Which streams a congestion control feedback packet is about (scream/sender_interceptor.go): a walk over the raw
 packet, and the same question asked of the unmarshalled report. The packet format is that of section 3.1
 of RFC 8888.
 */
module FeedbackWalker {
  import opened Words
  import opened Wrappers

  // ----- the walk -----

  function Uint32At(packet: seq<byte>, offset: nat): uint32
    requires offset + 4 <= |packet|
  {
    var b := packet[offset..offset + 4];
    FromBytesBound(b);
    assert Pow256(2) == 0x1_0000 && Pow256(4) == 0x1_0000_0000;
    FromBytes(b)
  }

  function Uint16At(packet: seq<byte>, offset: nat): uint16
    requires offset + 2 <= |packet|
  {
    var b := packet[offset..offset + 2];
    FromBytesBound(b);
    assert Pow256(2) == 0x1_0000;
    FromBytes(b)
  }

  /** The padded number of reports. The increment is one of `uint16` and wraps around. */
  function Padded(numReports: uint16): uint16 {
    if numReports % 2 != 0 then (numReports + 1) % 0x1_0000 else numReports
  }

  /** The offset after the block at `offset`. */
  function NextOffset(packet: seq<byte>, offset: nat): (r: nat)
    requires offset + 8 <= |packet|
    ensures r >= offset + 8 && (offset % 4 == 0 ==> r % 4 == 0)
  {
    offset + 2 * Padded(Uint16At(packet, offset + 6)) + 8
  }

  /** The offsets at which the walk looks for a block, starting from `offset`; nothing if it reads out of bounds. */
  function Visited(packet: seq<byte>, offset: nat): Option<seq<nat>>
    decreases |packet| - offset
  {
    if offset >= |packet| - 4 then Some([])
    else if offset + 8 > |packet| then None
    else
      match Visited(packet, NextOffset(packet, offset))
      case None => None
      case Some(rest) => Some([offset] + rest)
  }

  /** Where the walk stops. */
  function Stop(packet: seq<byte>, offset: nat): nat
    decreases |packet| - offset
  {
    if offset >= |packet| - 4 || offset + 8 > |packet| then offset
    else Stop(packet, NextOffset(packet, offset))
  }

  lemma {:induction false} VisitedInBounds(packet: seq<byte>, offset: nat)
    ensures Visited(packet, offset).Some? ==>
      forall k :: 0 <= k < |Visited(packet, offset).value| ==> Visited(packet, offset).value[k] + 8 <= |packet|
    decreases |packet| - offset
  {
    if offset < |packet| - 4 && offset + 8 <= |packet| {
      VisitedInBounds(packet, NextOffset(packet, offset));
    }
  }

  /** The SSRC fields at the offsets visited, in order and with repetitions. */
  function SsrcsAt(packet: seq<byte>, offsets: seq<nat>): (r: seq<uint32>)
    requires forall k :: 0 <= k < |offsets| ==> offsets[k] + 8 <= |packet|
    ensures |r| == |offsets| && forall k :: 0 <= k < |r| ==> r[k] == Uint32At(packet, offsets[k])
  {
    seq(|offsets|, k requires 0 <= k < |offsets| => Uint32At(packet, offsets[k]))
  }

  function Walk(packet: seq<byte>): Option<seq<uint32>> {
    VisitedInBounds(packet, 8);
    match Visited(packet, 8)
    case None => None
    case Some(offsets) => Some(SsrcsAt(packet, offsets))
  }

  // ----- first occurrences -----

  function Dedup(s: seq<uint32>): seq<uint32> {
    if s == [] then []
    else
      var d, last := Dedup(s[..|s| - 1]), s[|s| - 1];
      if last in d then d else d + [last]
  }

  ghost predicate Distinct(s: seq<uint32>) {
    forall i, j :: 0 <= i < j < |s| ==> s[i] != s[j]
  }

  /** Position of the first occurrence of `x`. */
  function First(s: seq<uint32>, x: uint32): nat
    requires x in s
  {
    if s[0] == x then 0 else 1 + First(s[1..], x)
  }

  /** `d` holds each element of `s` once, in the order of their first occurrences. */
  ghost predicate FirstOccurrences(s: seq<uint32>, d: seq<uint32>) {
    && Distinct(d)
    && (forall x :: x in s <==> x in d)
    && forall i, j :: 0 <= i < j < |d| ==> First(s, d[i]) < First(s, d[j])
  }

  lemma {:induction false} FirstOfAppend(s: seq<uint32>, x: uint32, last: uint32)
    requires x in s
    ensures First(s + [last], x) == First(s, x) < |s|
  {
    if s[0] != x {
      assert (s + [last])[1..] == s[1..] + [last];
      FirstOfAppend(s[1..], x, last);
    }
  }

  lemma {:induction false} FirstOfNew(s: seq<uint32>, last: uint32)
    requires last !in s
    ensures First(s + [last], last) == |s|
  {
    if s != [] {
      assert (s + [last])[1..] == s[1..] + [last];
      FirstOfNew(s[1..], last);
    }
  }

  lemma {:induction false} DedupIsFirstOccurrences(s: seq<uint32>)
    ensures FirstOccurrences(s, Dedup(s))
  {
    if s != [] {
      var s', last := s[..|s| - 1], s[|s| - 1];
      var d := Dedup(s');
      DedupIsFirstOccurrences(s');
      assert s == s' + [last];
      forall x | x in d ensures First(s, x) == First(s', x) < |s'| {
        FirstOfAppend(s', x, last);
      }
      if last !in d {
        FirstOfNew(s', last);
      }
    }
  }

  // ----- the two functions of the sender -----

  lemma DedupOneMore(packet: seq<byte>, offsets: seq<nat>, offset: nat)
    requires forall k :: 0 <= k < |offsets| ==> offsets[k] + 8 <= |packet|
    requires offset + 8 <= |packet|
    ensures
      var before := Dedup(SsrcsAt(packet, offsets));
      var ssrc := Uint32At(packet, offset);
      Dedup(SsrcsAt(packet, offsets + [offset])) == if ssrc in before then before else before + [ssrc]
  {
    var seen, ssrc := SsrcsAt(packet, offsets), Uint32At(packet, offset);
    assert SsrcsAt(packet, offsets + [offset]) == seen + [ssrc];
    assert (seen + [ssrc])[..|seen|] == seen;
  }

  /** Moving one visited offset to the front part leaves the whole as it is. */
  lemma VisitOne(packet: seq<byte>, offsets: seq<nat>, offset: nat)
    requires offset < |packet| - 4 && offset + 8 <= |packet|
    ensures
      var here, next := Visited(packet, offset), Visited(packet, NextOffset(packet, offset));
      && (here.None? <==> next.None?)
      && (here.Some? ==>
          && here.value == [offset] + next.value
          && offsets + here.value == (offsets + [offset]) + next.value)
  {
  }

  /** The walk has visited `offsets`, stands at `offset`, and has collected `ssrcs`. */
  ghost predicate Walking(packet: seq<byte>, offsets: seq<nat>, offset: nat, ssrcs: seq<uint32>) {
    && (forall k :: 0 <= k < |offsets| ==> offsets[k] + 8 <= |packet|)
    && (Visited(packet, 8).None? <==> Visited(packet, offset).None?)
    && (Visited(packet, offset).Some? ==> Visited(packet, 8).value == offsets + Visited(packet, offset).value)
    && ssrcs == Dedup(SsrcsAt(packet, offsets))
  }

  lemma WalkingOn(packet: seq<byte>, offsets: seq<nat>, offset: nat, ssrcs: seq<uint32>)
    requires Walking(packet, offsets, offset, ssrcs) && offset < |packet| - 4 && offset + 8 <= |packet|
    ensures
      var ssrc := Uint32At(packet, offset);
      Walking(packet, offsets + [offset], NextOffset(packet, offset), if ssrc in ssrcs then ssrcs else ssrcs + [ssrc])
  {
    DedupOneMore(packet, offsets, offset);
    VisitOne(packet, offsets, offset);
  }

  lemma WalkingEnds(packet: seq<byte>, offsets: seq<nat>, offset: nat, ssrcs: seq<uint32>)
    requires Walking(packet, offsets, offset, ssrcs) && (offset >= |packet| - 4 || offset + 8 > |packet|)
    ensures Walk(packet) == if offset >= |packet| - 4 then Some(SsrcsAt(packet, offsets)) else None
  {
    VisitedInBounds(packet, 8);
    assert offsets + [] == offsets;
  }

  /** `extractSSRCs`; None stands for the panic of an index out of range. */
  method ExtractSSRCs(packet: seq<byte>) returns (r: Option<seq<uint32>>)
    ensures r.None? <==> Walk(packet).None?
    ensures r.Some? ==> r.value == Dedup(Walk(packet).value)
    ensures |packet| % 4 == 0 ==> r.Some?
  {
    var uniqueSSRCs: set<uint32> := {};
    var ssrcs: seq<uint32> := [];
    ghost var offsets: seq<nat> := [];
    var offset: nat := 8;
    while offset < |packet| - 4
      invariant Walking(packet, offsets, offset, ssrcs)
      invariant forall x :: x in uniqueSSRCs <==> x in ssrcs
      invariant |packet| % 4 == 0 ==> offset % 4 == 0
      decreases |packet| - offset
    {
      if offset + 8 > |packet| {
        WalkingEnds(packet, offsets, offset, ssrcs);
        return None;
      }
      WalkingOn(packet, offsets, offset, ssrcs);
      offsets := offsets + [offset];
      ghost var next := NextOffset(packet, offset);

      var ssrc := Uint32At(packet, offset);
      if ssrc !in uniqueSSRCs {
        ssrcs := ssrcs + [ssrc];
        uniqueSSRCs := uniqueSSRCs + {ssrc};
      }
      var numReports: int := Uint16At(packet, offset + 6);
      if numReports % 2 != 0 {
        numReports := (numReports + 1) % 0x1_0000;
      }
      assert numReports == Padded(Uint16At(packet, offset + 6));
      offset := offset + 2 * numReports;
      offset := offset + 8;
      assert offset == next;
    }
    WalkingEnds(packet, offsets, offset, ssrcs);
    r := Some(ssrcs);
  }

  /** A report block: the metric blocks of consecutive packets of one stream. */
  datatype Block = Block(ssrc: uint32, beginSeq: uint16, metrics: seq<uint16>)

  datatype Report = Report(sender: uint32, blocks: seq<Block>, timestamp: uint32)

  function Ssrcs(blocks: seq<Block>): (r: seq<uint32>)
    ensures |r| == |blocks| && forall k :: 0 <= k < |r| ==> r[k] == blocks[k].ssrc
  {
    seq(|blocks|, k requires 0 <= k < |blocks| => blocks[k].ssrc)
  }

  /** `extractSSRCsReport`. */
  method ExtractSSRCsReport(report: Report) returns (ssrcs: array<uint32>)
    ensures fresh(ssrcs) && ssrcs[..] == Ssrcs(report.blocks)
  {
    ssrcs := new uint32[|report.blocks|];
    for i := 0 to |report.blocks|
      invariant forall k :: 0 <= k < i ==> ssrcs[k] == report.blocks[k].ssrc
    {
      ssrcs[i] := report.blocks[i].ssrc;
    }
  }

  // ----- bounds -----

  /** On packets whose length is a multiple of 4 every read is in bounds, well-formed or not. */
  lemma {:induction false} AlignedInBounds(packet: seq<byte>, offset: nat)
    requires |packet| % 4 == 0 && offset % 4 == 0
    ensures Visited(packet, offset).Some? && Stop(packet, offset) % 4 == 0
    ensures forall k :: 0 <= k < |Visited(packet, offset).value| ==> Visited(packet, offset).value[k] % 4 == 0
    decreases |packet| - offset
  {
    if offset < |packet| - 4 {
      AlignedInBounds(packet, NextOffset(packet, offset));
    }
  }

  /** The lengths at which the walk can read out of bounds. */
  predicate Unsafe(n: nat) {
    n % 4 != 0 && n >= 13 && !(17 <= n <= 19)
  }

  lemma SafeLength(packet: seq<byte>)
    requires !Unsafe(|packet|)
    ensures Walk(packet).Some?
  {
    if |packet| % 4 == 0 {
      AlignedInBounds(packet, 8);
    } else if |packet| >= 13 {
      assert Visited(packet, NextOffset(packet, 8)) == Some([]);
    }
  }

  lemma TwoReports(packet: seq<byte>)
    requires |packet| >= 16 && packet[14] == 0 && packet[15] == 2
    ensures NextOffset(packet, 8) == 20
  {
    TwoBytes(packet[14..16]);
  }

  /** Over zeros the walk goes in steps of 8 and runs into the unaligned end. */
  lemma {:induction false} ZerosPanic(packet: seq<byte>, offset: nat)
    requires |packet| % 4 != 0
    requires offset <= |packet| - 4 - |packet| % 4
    requires (|packet| - 4 - |packet| % 4 - offset) % 8 == 0
    requires forall k :: offset <= k < |packet| ==> packet[k] == 0
    ensures Visited(packet, offset).None?
    decreases |packet| - offset
  {
    if offset + 8 <= |packet| {
      TwoBytes(packet[offset + 6..offset + 8]);
      assert NextOffset(packet, offset) == offset + 8;
      ZerosPanic(packet, offset + 8);
    }
  }

  /** A first block of two reports takes 12 bytes, after which steps of 8 meet the end. */
  lemma PanicsAfterTwoReports(packet: seq<byte>)
    requires Unsafe(|packet|) && (|packet| - 4 - |packet| % 4) % 8 != 0
    requires packet[14] == 0 && packet[15] == 2
    requires forall k :: 20 <= k < |packet| ==> packet[k] == 0
    ensures Walk(packet).None?
  {
    TwoReports(packet);
    ZerosPanic(packet, 20);
  }

  lemma PanickingPacket(n: nat) returns (packet: seq<byte>)
    requires Unsafe(n)
    ensures |packet| == n && Walk(packet).None?
  {
    if (n - 4 - n % 4) % 8 == 0 {
      packet := seq(n, _ => 0);
      ZerosPanic(packet, 8);
    } else {
      packet := seq(n, k => if k == 15 then 2 else 0);
      PanicsAfterTwoReports(packet);
    }
  }

  /** Some packet of length `n` makes the walk read out of bounds exactly when `n` is unsafe. */
  lemma PanicsByLength(n: nat)
    ensures Unsafe(n) <==> exists packet: seq<byte> :: |packet| == n && Walk(packet).None?
  {
    if Unsafe(n) {
      var packet := PanickingPacket(n);
      assert Walk(packet).None?;
    } else {
      forall packet: seq<byte> | |packet| == n ensures Walk(packet).Some? {
        SafeLength(packet);
      }
    }
  }

  // ----- against the format -----

  function Metrics(metrics: seq<uint16>): (r: seq<byte>)
    ensures |r| == 2 * |metrics|
  {
    if metrics == [] then [] else ToBytes(metrics[0], 2) + Metrics(metrics[1..])
  }

  /** SSRC, begin_seq, num_reports, the metric blocks, and padding to a multiple of 32 bits. */
  function EncodeBlock(b: Block): (r: seq<byte>)
    requires |b.metrics| <= 0xFFFF
    ensures |r| == 8 + 2 * |b.metrics| + 2 * (|b.metrics| % 2)
  {
    ToBytes(b.ssrc, 4) + ToBytes(b.beginSeq, 2) + ToBytes(|b.metrics|, 2) + Metrics(b.metrics)
    + if |b.metrics| % 2 == 1 then [0, 0] else []
  }

  lemma BlockAligned(n: nat)
    ensures (8 + 2 * n + 2 * (n % 2)) % 4 == 0
  {
  }

  ghost predicate Encodable(blocks: seq<Block>) {
    forall k :: 0 <= k < |blocks| ==> |blocks[k].metrics| <= 0xFFFF
  }

  function EncodeBlocks(blocks: seq<Block>): seq<byte>
    requires Encodable(blocks)
  {
    if blocks == [] then [] else EncodeBlock(blocks[0]) + EncodeBlocks(blocks[1..])
  }

  lemma SumAligned(a: nat, b: nat)
    requires a % 4 == 0 && b % 4 == 0
    ensures (a + b) % 4 == 0
  {
  }

  lemma {:induction false} BlocksAligned(blocks: seq<Block>)
    requires Encodable(blocks)
    ensures |EncodeBlocks(blocks)| % 4 == 0
  {
    if blocks != [] {
      BlocksAligned(blocks[1..]);
      BlockAligned(|blocks[0].metrics|);
      SumAligned(|EncodeBlock(blocks[0])|, |EncodeBlocks(blocks[1..])|);
    }
  }

  /** A report whose blocks fit their counts and whose size fits the 16-bit length field, in 32-bit words less one. */
  ghost predicate WellFormed(report: Report) {
    Encodable(report.blocks) && (12 + |EncodeBlocks(report.blocks)|) / 4 - 1 <= 0xFFFF
  }

  /** The feedback packet: RTCP header with format 11 and type 205, sender, report blocks, report timestamp. */
  function EncodeReport(report: Report): (r: seq<byte>)
    requires WellFormed(report)
    ensures |r| == 12 + |EncodeBlocks(report.blocks)|
  {
    [0x8B, 205] + ToBytes((12 + |EncodeBlocks(report.blocks)|) / 4 - 1, 2) + ToBytes(report.sender, 4)
    + EncodeBlocks(report.blocks)
    + ToBytes(report.timestamp, 4)
  }

  lemma WordBytes(n: uint16)
    ensures ToBytes(n, 2) == [n / 256, n % 256]
    ensures ToBytes(n, 4) == [0, 0, n / 256, n % 256]
  {
    assert ToBytes(n / 256, 1) == [n / 256];
    assert ToBytes(n / 256 / 256, 2) == [0, 0] by {
      assert ToBytes(0, 1) == [0];
    }
    assert ToBytes(n / 256, 3) == [0, 0, n / 256];
  }

  lemma BlockOfOne(ssrc: uint16, beginSeq: uint16, metric: uint16)
    ensures EncodeBlock(Block(ssrc, beginSeq, [metric])) ==
      [0, 0, ssrc / 256, ssrc % 256, beginSeq / 256, beginSeq % 256, 0, 1, metric / 256, metric % 256, 0, 0]
  {
    WordBytes(ssrc);
    WordBytes(beginSeq);
    WordBytes(1);
    WordBytes(metric);
    assert [metric][1..] == [];
    assert Metrics([metric]) == ToBytes(metric, 2) + Metrics([]);
  }

  /** A packet with one metric block byte by byte: it is padded to 32 bits, and its length is 6 words, less one. */
  lemma ReportOfOne(sender: uint16, ssrc: uint16, beginSeq: uint16, metric: uint16, timestamp: uint16)
    ensures
      var report := Report(sender, [Block(ssrc, beginSeq, [metric])], timestamp);
      && WellFormed(report)
      && EncodeReport(report) ==
         [0x8B, 205, 0, 5, 0, 0, sender / 256, sender % 256]
         + [0, 0, ssrc / 256, ssrc % 256, beginSeq / 256, beginSeq % 256, 0, 1, metric / 256, metric % 256, 0, 0]
         + [0, 0, timestamp / 256, timestamp % 256]
  {
    var block := Block(ssrc, beginSeq, [metric]);
    assert [block][1..] == [];
    BlockOfOne(ssrc, beginSeq, metric);
    assert EncodeBlocks([block]) == EncodeBlock(block) + EncodeBlocks([]);
    WordBytes(5);
    WordBytes(sender);
    WordBytes(timestamp);
  }

  function BlockEnd(b: Block, offset: nat): nat
    requires |b.metrics| <= 0xFFFF
  {
    offset + |EncodeBlock(b)|
  }

  /** Where the blocks start when the first one starts at `offset`. */
  function Starts(blocks: seq<Block>, offset: nat): seq<nat>
    requires Encodable(blocks)
  {
    if blocks == [] then [] else [offset] + Starts(blocks[1..], BlockEnd(blocks[0], offset))
  }

  /** No count is so large that padding it wraps around. */
  predicate CountsDoNotWrap(blocks: seq<Block>) {
    forall k :: 0 <= k < |blocks| ==> |blocks[k].metrics| < 0xFFFF
  }

  /** From `offset` on, `packet` consists of these blocks and a timestamp. */
  ghost predicate HoldsBlocks(packet: seq<byte>, offset: nat, blocks: seq<Block>) {
    && Encodable(blocks)
    && |packet| == offset + |EncodeBlocks(blocks)| + 4
    && EncodeBlocks(blocks) <= packet[offset..]
  }

  /** A block at the front of `bytes`, as the walk reads it. */
  lemma BlockRead(bytes: seq<byte>, b: Block)
    requires |b.metrics| <= 0xFFFF && EncodeBlock(b) <= bytes
    ensures Uint32At(bytes, 0) == b.ssrc && Uint16At(bytes, 6) == |b.metrics|
  {
    assert bytes[0..4] == ToBytes(b.ssrc, 4);
    assert bytes[6..8] == ToBytes(|b.metrics|, 2);
    assert Pow256(2) == 0x1_0000 && Pow256(4) == 0x1_0000_0000;
    FromToBytes(b.ssrc, 4);
    FromToBytes(|b.metrics|, 2);
  }

  /** The same bytes, whether counted from the start of the packet or from the start of the block. */
  lemma BlockAtFront(packet: seq<byte>, offset: nat, block: seq<byte>, rest: seq<byte>)
    requires offset <= |packet| && block + rest <= packet[offset..] && |block| >= 8
    ensures block <= packet[offset..] && rest <= packet[offset + |block|..]
    ensures packet[offset..][0..4] == packet[offset..offset + 4]
    ensures packet[offset..][6..8] == packet[offset + 6..offset + 8]
  {
  }

  /** The walk skips the padding that the format asks for, unless adding it wraps around. */
  lemma PaddedLength(n: uint16)
    ensures 2 * Padded(n) + 8 == if n == 0xFFFF then 8 else 8 + 2 * n + 2 * (n % 2)
  {
  }

  /** The walk at the first of some blocks: what it reads there and where it goes next. */
  lemma FirstBlock(packet: seq<byte>, offset: nat, blocks: seq<Block>)
    requires HoldsBlocks(packet, offset, blocks) && blocks != []
    ensures
      var end := BlockEnd(blocks[0], offset);
      && HoldsBlocks(packet, end, blocks[1..])
      && offset + 8 <= end <= |packet| - 4 && (offset % 4 == 0 ==> end % 4 == 0)
      && Uint32At(packet, offset) == blocks[0].ssrc
      && NextOffset(packet, offset) == if |blocks[0].metrics| == 0xFFFF then offset + 8 else end
    ensures |blocks[0].metrics| == 0xFFFF ==> BlockEnd(blocks[0], offset) > offset + 8
    ensures EncodeBlock(blocks[0]) <= packet[offset..]
  {
    var b, bytes := blocks[0], packet[offset..];
    BlockAtFront(packet, offset, EncodeBlock(b), EncodeBlocks(blocks[1..]));
    BlockRead(bytes, b);
    PaddedLength(|b.metrics|);
    BlockAligned(|b.metrics|);
    if offset % 4 == 0 {
      SumAligned(offset, |EncodeBlock(b)|);
    }
  }

  /** Counts that do not wrap: the walk stops behind the last block. */
  lemma {:induction false} StopsBehindBlocks(packet: seq<byte>, offset: nat, blocks: seq<Block>)
    requires HoldsBlocks(packet, offset, blocks) && CountsDoNotWrap(blocks)
    ensures Stop(packet, offset) == |packet| - 4
    decreases |blocks|
  {
    if blocks != [] {
      FirstBlock(packet, offset, blocks);
      StopsBehindBlocks(packet, BlockEnd(blocks[0], offset), blocks[1..]);
    }
  }

  lemma {:induction false} StartsCount(blocks: seq<Block>, offset: nat)
    requires Encodable(blocks)
    ensures |Starts(blocks, offset)| == |blocks|
    decreases |blocks|
  {
    if blocks != [] {
      StartsCount(blocks[1..], BlockEnd(blocks[0], offset));
    }
  }

  /** At the start of the k-th block is the SSRC of the k-th block. */
  lemma {:induction false} StartsHoldSsrcs(packet: seq<byte>, offset: nat, blocks: seq<Block>, k: nat)
    requires HoldsBlocks(packet, offset, blocks) && k < |blocks|
    ensures |Starts(blocks, offset)| == |blocks| && Starts(blocks, offset)[k] + 8 <= |packet|
    ensures Uint32At(packet, Starts(blocks, offset)[k]) == blocks[k].ssrc
    decreases |blocks|
  {
    StartsCount(blocks, offset);
    FirstBlock(packet, offset, blocks);
    if k > 0 {
      StartsHoldSsrcs(packet, BlockEnd(blocks[0], offset), blocks[1..], k - 1);
    }
  }

  lemma ConsEqual(x: nat, a: seq<nat>, b: seq<nat>)
    ensures [x] + a == [x] + b <==> a == b
  {
    assert ([x] + a)[1..] == a && ([x] + b)[1..] == b;
  }

  /** What the walk visits from here on is this offset and what it visits from the next one on. */
  lemma VisitedTail(packet: seq<byte>, offset: nat, tail: seq<nat>)
    requires |packet| % 4 == 0 && offset % 4 == 0 && offset + 8 <= |packet| - 4
    ensures
      Visited(packet, offset) == Some([offset] + tail) <==>
      Visited(packet, NextOffset(packet, offset)) == Some(tail)
  {
    AlignedInBounds(packet, NextOffset(packet, offset));
    ConsEqual(offset, Visited(packet, NextOffset(packet, offset)).value, tail);
  }

  lemma NotVisitedNext(packet: seq<byte>, offset: nat, tail: seq<nat>)
    requires offset < |packet| - 4 && (tail == [] || tail[0] != offset)
    ensures Visited(packet, offset) != Some(tail)
  {
  }

  /** The walk visits exactly the starts of the blocks if and only if no block counts 65535 reports. */
  lemma {:induction false} VisitsStarts(packet: seq<byte>, offset: nat, blocks: seq<Block>)
    requires HoldsBlocks(packet, offset, blocks) && |packet| % 4 == 0 && offset % 4 == 0
    ensures Visited(packet, offset) == Some(Starts(blocks, offset)) <==> CountsDoNotWrap(blocks)
    decreases |blocks|
  {
    if blocks != [] {
      var end := BlockEnd(blocks[0], offset);
      FirstBlock(packet, offset, blocks);
      VisitedTail(packet, offset, Starts(blocks[1..], end));
      if |blocks[0].metrics| < 0xFFFF {
        VisitsStarts(packet, end, blocks[1..]);
      } else {
        NotVisitedNext(packet, offset + 8, Starts(blocks[1..], end));
      }
    }
  }

  lemma HoldsItsBlocks(report: Report)
    requires WellFormed(report)
    ensures HoldsBlocks(EncodeReport(report), 8, report.blocks) && |EncodeReport(report)| % 4 == 0
  {
    var blocks := EncodeBlocks(report.blocks);
    var packet := EncodeReport(report);
    BlocksAligned(report.blocks);
    assert packet[8..8 + |blocks|] == blocks;
  }

  /** On every well-formed feedback packet whose counts do not wrap, the walk ends exactly at the report timestamp. */
  lemma StopsAtTimestamp(report: Report)
    requires WellFormed(report) && CountsDoNotWrap(report.blocks)
    ensures Stop(EncodeReport(report), 8) == |EncodeReport(report)| - 4
  {
    HoldsItsBlocks(report);
    StopsBehindBlocks(EncodeReport(report), 8, report.blocks);
  }

  /**
   And it sees the SSRCs of the report, in order: what `ExtractSSRCs` returns on the packet is what
   `ExtractSSRCsReport` returns on the report with repetitions removed, so both branches signal the same
   streams.
   */
  lemma BothBranchesAgree(report: Report)
    requires WellFormed(report) && CountsDoNotWrap(report.blocks)
    ensures Walk(EncodeReport(report)) == Some(Ssrcs(report.blocks))
  {
    var packet := EncodeReport(report);
    HoldsItsBlocks(report);
    VisitsStarts(packet, 8, report.blocks);
    VisitedInBounds(packet, 8);
    StartsCount(report.blocks, 8);
    forall k | 0 <= k < |report.blocks| ensures Uint32At(packet, Starts(report.blocks, 8)[k]) == report.blocks[k].ssrc {
      StartsHoldSsrcs(packet, 8, report.blocks, k);
    }
    assert SsrcsAt(packet, Starts(report.blocks, 8)) == Ssrcs(report.blocks);
  }

  /**
   For every well-formed packet: the walk keeps to the block boundaries exactly when no block counts 65535
   reports.
   */
  lemma KeepsToBlocks(report: Report)
    requires WellFormed(report)
    ensures Visited(EncodeReport(report), 8) == Some(Starts(report.blocks, 8)) <==> CountsDoNotWrap(report.blocks)
  {
    HoldsItsBlocks(report);
    VisitsStarts(EncodeReport(report), 8, report.blocks);
  }

  // ----- which reports name the same streams -----

  /** A report that can be sent, with these numbers of metric blocks. */
  ghost predicate HasCounts(report: Report, counts: seq<nat>) {
    && WellFormed(report)
    && |report.blocks| == |counts|
    && forall k :: 0 <= k < |counts| ==> |report.blocks[k].metrics| == counts[k]
  }

  /** Both branches of the reader name the same streams. */
  ghost predicate SameStreams(report: Report)
    requires WellFormed(report)
  {
    var walk := Walk(EncodeReport(report));
    walk.Some? && forall x :: x in walk.value <==> x in Ssrcs(report.blocks)
  }

  /** Blocks of stream 1 with nothing but zeros to report. */
  function ZeroBlocks(counts: seq<nat>): (r: seq<Block>)
    ensures |r| == |counts| && forall k :: 0 <= k < |r| ==> r[k] == Block(1, 0, seq(counts[k], _ => 0))
  {
    seq(|counts|, k requires 0 <= k < |counts| => Block(1, 0, seq(counts[k], _ => 0)))
  }

  /** How long the blocks are depends on their counts alone. */
  lemma {:induction false} LengthByCounts(a: seq<Block>, b: seq<Block>)
    requires Encodable(a) && Encodable(b) && |a| == |b|
    requires forall k :: 0 <= k < |a| ==> |a[k].metrics| == |b[k].metrics|
    ensures |EncodeBlocks(a)| == |EncodeBlocks(b)|
  {
    if a != [] {
      LengthByCounts(a[1..], b[1..]);
    }
  }

  ghost predicate AllZero(blocks: seq<Block>) {
    forall k, i :: 0 <= k < |blocks| && 0 <= i < |blocks[k].metrics| ==> blocks[k].metrics[i] == 0
  }

  /** Behind the first eight bytes of a block come its metrics. */
  lemma BehindHeader(packet: seq<byte>, offset: nat, block: Block, n: nat)
    requires |block.metrics| <= 0xFFFF && n <= 2 * |block.metrics|
    requires offset <= |packet| && EncodeBlock(block) <= packet[offset..]
    ensures offset + 8 + n <= |packet|
    ensures packet[offset + 8..offset + 8 + n] == Metrics(block.metrics)[..n]
  {
    assert packet[offset + 8..offset + 8 + n] == packet[offset..][8..8 + n] == EncodeBlock(block)[8..8 + n];
  }

  lemma {:induction false} MetricsOfZeros(metrics: seq<uint16>)
    requires forall k :: 0 <= k < |metrics| ==> metrics[k] == 0
    ensures forall k :: 0 <= k < |Metrics(metrics)| ==> Metrics(metrics)[k] == 0
  {
    if metrics != [] {
      MetricsOfZeros(metrics[1..]);
      assert ToBytes(0, 2) == [0, 0] by {
        assert ToBytes(0, 1) == [0];
      }
    }
  }

  lemma {:induction false} ZerosAreZero(b: seq<byte>)
    requires forall k :: 0 <= k < |b| ==> b[k] == 0
    ensures FromBytes(b) == 0
  {
    if b != [] {
      ZerosAreZero(b[..|b| - 1]);
    }
  }

  /** Four zero bytes behind the first eight of a block read as the number 0. */
  lemma ZerosBehindHeader(packet: seq<byte>, offset: nat, block: Block)
    requires 2 <= |block.metrics| <= 0xFFFF && forall k :: 0 <= k < |block.metrics| ==> block.metrics[k] == 0
    requires offset + 12 <= |packet| && EncodeBlock(block) <= packet[offset..]
    ensures Uint32At(packet, offset + 8) == 0
  {
    MetricsOfZeros(block.metrics);
    BehindHeader(packet, offset, block, 4);
    ZerosAreZero(packet[offset + 8..offset + 12]);
  }

  /** If some count wraps and there are only zeros to report, the walk lands on zeros and takes them for an SSRC. */
  lemma {:induction false} VisitsZeros(packet: seq<byte>, offset: nat, blocks: seq<Block>) returns (at: nat)
    requires HoldsBlocks(packet, offset, blocks) && |packet| % 4 == 0 && offset % 4 == 0
    requires AllZero(blocks) && !CountsDoNotWrap(blocks)
    ensures Visited(packet, offset).Some? && at in Visited(packet, offset).value
    ensures at + 8 <= |packet| && Uint32At(packet, at) == 0
    decreases |blocks|
  {
    FirstBlock(packet, offset, blocks);
    AlignedInBounds(packet, offset);
    var end := BlockEnd(blocks[0], offset);
    if |blocks[0].metrics| == 0xFFFF {
      at := offset + 8;
      ZerosBehindHeader(packet, offset, blocks[0]);
      VisitOne(packet, [], at);
    } else {
      at := VisitsZeros(packet, end, blocks[1..]);
    }
    VisitOne(packet, [], offset);
  }

  lemma ZeroReport(some: Report, counts: seq<nat>) returns (zeros: Report)
    requires HasCounts(some, counts)
    ensures HasCounts(zeros, counts) && AllZero(zeros.blocks) && 0 !in Ssrcs(zeros.blocks)
  {
    var blocks := ZeroBlocks(counts);
    LengthByCounts(some.blocks, blocks);
    zeros := Report(0, blocks, 0);
  }

  lemma ZerosAreInvented(report: Report)
    requires WellFormed(report) && AllZero(report.blocks) && !CountsDoNotWrap(report.blocks)
    ensures Walk(EncodeReport(report)).Some? && 0 in Walk(EncodeReport(report)).value
  {
    var packet := EncodeReport(report);
    HoldsItsBlocks(report);
    var at := VisitsZeros(packet, 8, report.blocks);
    VisitedInBounds(packet, 8);
    var offsets := Visited(packet, 8).value;
    var k :| 0 <= k < |offsets| && offsets[k] == at;
    assert Walk(packet).value[k] == 0;
  }

  /**
   The exact condition: whatever the SSRCs, sequence numbers and metrics in it, each report with these counts makes both
   branches name the same streams, if and only if no count is 65535.
   */
  lemma SameStreamsByCounts(counts: seq<nat>)
    requires exists r :: HasCounts(r, counts)
    ensures
      (forall r :: HasCounts(r, counts) ==> SameStreams(r)) <==>
      forall k :: 0 <= k < |counts| ==> counts[k] < 0xFFFF
  {
    if forall k :: 0 <= k < |counts| ==> counts[k] < 0xFFFF {
      forall r | HasCounts(r, counts) ensures SameStreams(r) {
        BothBranchesAgree(r);
      }
    } else {
      var some :| HasCounts(some, counts);
      var zeros := ZeroReport(some, counts);
      ZerosAreInvented(zeros);
    }
  }

  lemma OneBlockLength(report: Report)
    requires |report.blocks| == 1 && |report.blocks[0].metrics| == 0xFFFF
    ensures WellFormed(report) && |EncodeReport(report)| == 131092
  {
    assert EncodeBlocks(report.blocks[1..]) == [];
  }

  /**
   A concrete packet on which they differ: one block for stream 1 that counts 65535 reports, all zero. The walk skips
   none of them, reads the second one as a block, and reports a stream 0 that the packet does not mention.
   */
  lemma WrapInventsStream()
    ensures
      var report := Report(0, [Block(1, 0, seq(0xFFFF, _ => 0))], 0);
      && WellFormed(report)
      && |EncodeReport(report)| == 131092
      && Ssrcs(report.blocks) == [1]
      && Walk(EncodeReport(report)).Some?
      && 0 in Walk(EncodeReport(report)).value
  {
    var report := Report(0, [Block(1, 0, seq(0xFFFF, _ => 0))], 0);
    OneBlockLength(report);
    ZerosAreInvented(report);
  }

  lemma {:induction false} MetricAt(metrics: seq<uint16>, k: nat, high: byte, low: byte)
    requires k < |metrics| && metrics[k] == 256 * high + low
    ensures Metrics(metrics)[2 * k..2 * k + 2] == [high, low]
  {
    if k > 0 {
      MetricAt(metrics[1..], k - 1, high, low);
    } else {
      assert ToBytes(metrics[0] / 256, 1) == [high];
    }
  }

  lemma JoinFour(b: seq<byte>, w0: seq<byte>, w1: seq<byte>, w2: seq<byte>, w3: seq<byte>)
    requires |b| >= 8 && b[0..2] == w0 && b[2..4] == w1 && b[4..6] == w2 && b[6..8] == w3
    ensures b[..8] == w0 + w1 + w2 + w3
  {
  }

  lemma FirstMetrics(metrics: seq<uint16>)
    requires |metrics| >= 4 && metrics[0] == 0 && metrics[1] == 1 && metrics[2] == 0 && metrics[3] == 0xFFFC
    ensures Metrics(metrics)[..8] == [0, 0, 0, 1, 0, 0, 0xFF, 0xFC]
  {
    MetricAt(metrics, 0, 0, 0);
    MetricAt(metrics, 1, 0, 1);
    MetricAt(metrics, 2, 0, 0);
    MetricAt(metrics, 3, 0xFF, 0xFC);
    JoinFour(Metrics(metrics), [0, 0], [0, 1], [0, 0], [0xFF, 0xFC]);
  }

  lemma ReadsAsBlock(packet: seq<byte>)
    requires |packet| == 131092 && packet[16..24] == [0, 0, 0, 1, 0, 0, 0xFF, 0xFC]
    requires Uint32At(packet, 8) == 1 && NextOffset(packet, 8) == 16
    ensures Walk(packet) == Some([1, 1])
  {
    var word := packet[16..20];
    assert word == packet[16..24][..4] == [0, 0, 0, 1];
    ZerosAreZero(word[..3]);
    assert Uint32At(packet, 16) == 1;
    assert packet[22..24] == packet[16..24][6..] == [0xFF, 0xFC];
    TwoBytes(packet[22..24]);
    assert NextOffset(packet, 16) == |packet| - 4;
    VisitOne(packet, [], 16);
    assert Visited(packet, 16).value == [16];
    VisitOne(packet, [], 8);
    assert Visited(packet, 8).value == [8, 16];
    assert Walk(packet).value == [1, 1];
  }

  /**
   A count that wraps does no harm to some reports: here the metrics happen to read as a block of stream 1 again, one
   whose reports reach to the timestamp.
   */
  lemma WrapCanBeHarmless()
    ensures
      var report := Report(0, [Block(1, 0, [0, 1, 0, 0xFFFC] + seq(0xFFFB, _ => 0))], 0);
      WellFormed(report) && SameStreams(report)
  {
    var block := Block(1, 0, [0, 1, 0, 0xFFFC] + seq(0xFFFB, _ => 0));
    var report := Report(0, [block], 0);
    var packet := EncodeReport(report);
    OneBlockLength(report);
    HoldsItsBlocks(report);
    FirstBlock(packet, 8, report.blocks);
    FirstMetrics(block.metrics);
    BehindHeader(packet, 8, block, 8);
    ReadsAsBlock(packet);
  }
}

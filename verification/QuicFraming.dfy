/**
 RTP over QUIC datagrams and streams: quic/sender.go and quic/receiver.go. A packet is prefixed with its
 flow identifier as a variable-length integer; on a stream the end of the stream ends the packet.
 */
module QuicFraming {
  import opened Words
  import opened Wrappers
  import opened Varint
  import opened GoSlices

  datatype TransportMode = ANY | DGRAM | STREAM

  /** One use of the connection: a datagram, or a unidirectional stream written once and closed. */
  datatype Sent = Datagram(bytes: seq<byte>) | UniStream(bytes: seq<byte>)

  /** The reliability attribute of a packet: `attributes` may be nil or may not hold one. */
  datatype Attributes = NoAttributes | NoReliability | Reliability(required: bool)

  /** What a media stream hands to the transport for one packet. */
  function Frame(id: uint62, header: seq<byte>, payload: seq<byte>): seq<byte> {
    Encode(id) + header + payload
  }

  /** The packet goes on a stream if asked to, or, in mode ANY, if it is large or must be reliable. */
  predicate UsesStream(mode: TransportMode, attributes: Attributes, size: nat, maxMTU: nat) {
    || mode == STREAM
    || (mode == ANY && (size > maxMTU || attributes == Reliability(true)))
  }

  function Send(mode: TransportMode, attributes: Attributes, bytes: seq<byte>, maxMTU: nat): Sent {
    if UsesStream(mode, attributes, |bytes|, maxMTU) then UniStream(bytes) else Datagram(bytes)
  }

  /** In mode ANY a packet goes in a datagram unless it is too large or must be reliable; else the mode decides. */
  lemma TransportChoice(mode: TransportMode, attributes: Attributes, bytes: seq<byte>, maxMTU: nat)
    ensures Send(mode, attributes, bytes, maxMTU).bytes == bytes
    ensures mode == DGRAM ==> Send(mode, attributes, bytes, maxMTU).Datagram?
    ensures mode == STREAM ==> Send(mode, attributes, bytes, maxMTU).UniStream?
    ensures mode == ANY ==>
      (Send(mode, attributes, bytes, maxMTU).UniStream? <==> |bytes| > maxMTU || attributes == Reliability(true))
  {
  }

  // ----- sender -----

  /** How the transport may fail a write: no datagram is taken, no stream is opened, or a stream takes so many bytes. */
  datatype Fault = NoFault | NotTaken(error: string) | NotOpened(error: string) | CutShort(taken: nat, error: string)

  predicate Fails(handed: Sent, fault: Fault) {
    if handed.Datagram? then fault.NotTaken? else fault.NotOpened? || fault.CutShort?
  }

  /** The part of `b` that a stream takes before it fails. */
  function Cut(b: seq<byte>, taken: nat): seq<byte> {
    b[..if taken <= |b| then taken else |b|]
  }

  /** What a failed write leaves on the connection. A stream that was opened is closed even if it was cut short. */
  function Fragment(handed: Sent, fault: Fault): seq<Sent> {
    if handed.UniStream? && fault.CutShort? then [UniStream(Cut(handed.bytes, fault.taken))] else []
  }

  /** How many bytes a failed write reports: all of a datagram, and of a stream those taken. */
  function Reported(handed: Sent, fault: Fault): nat {
    if handed.Datagram? then |handed.bytes|
    else if fault.CutShort? then |Cut(handed.bytes, fault.taken)|
    else 0
  }

  /** The QUIC connection of the sender, as a log of what it was given. */
  class Connection {
    var sent: seq<Sent>

    constructor ()
      ensures sent == []
    {
      sent := [];
    }

    /** `writeDgram`, which reports the whole length even when it fails. */
    method SendMessage(pl: Slice, fault: Fault) returns (n: nat, err: Option<string>)
      requires pl.Valid()
      modifies this
      ensures n == pl.len
      ensures fault.NotTaken? ==> err == Some(fault.error) && sent == old(sent)
      ensures !fault.NotTaken? ==> err == None && sent == old(sent) + [Datagram(pl.Contents())]
    {
      n := pl.len;
      if fault.NotTaken? {
        err := Some(fault.error);
      } else {
        sent, err := sent + [Datagram(pl.backing[..pl.len])], None;
      }
    }

    /** `writeStream`. */
    method WriteStream(pl: Slice, fault: Fault) returns (n: nat, err: Option<string>)
      requires pl.Valid()
      modifies this
      ensures
        match fault
        case NotOpened(error) => n == 0 && err == Some(error) && sent == old(sent)
        case CutShort(taken, error) =>
          && n == (if taken <= pl.len then taken else pl.len) && err == Some(error)
          && sent == old(sent) + [UniStream(pl.Contents()[..n])]
        case _ => n == pl.len && err == None && sent == old(sent) + [UniStream(pl.Contents())]
    {
      if fault.NotOpened? {
        return 0, Some(fault.error);
      }
      var buf := pl.backing[..pl.len];
      if fault.CutShort? {
        buf, err := Cut(buf, fault.taken), Some(fault.error);
      } else {
        err := None;
      }
      sent, n := sent + [UniStream(buf)], |buf|;
    }
  }

  /** The bytes of a `bytes.Buffer` to which the identifier was written. */
  method IdentifierBytes(id: uint62, spare: nat) returns (s: Slice)
    ensures s.Valid() && fresh(s.backing)
    ensures s.Contents() == Encode(id) && s.backing.Length == s.len + spare
  {
    var bytes := Encode(id);
    var buffer := new byte[|bytes| + spare];
    forall i | 0 <= i < |bytes| {
      buffer[i] := bytes[i];
    }
    s := Slice(buffer, |bytes|);
    assert buffer[..|bytes|] == bytes;
  }

  /** What two appends write in place when there is room for `room` more bytes. */
  function InPlace(room: nat, header: seq<byte>, payload: seq<byte>): (r: seq<byte>)
    ensures |r| <= room
  {
    if |header| + |payload| <= room then header + payload
    else if |header| <= room then header
    else []
  }

  lemma SameRest(prefix: seq<byte>, x: seq<byte>, y: seq<byte>)
    ensures prefix + x == prefix + y <==> x == y
  {
    assert (prefix + x)[|prefix|..] == x && (prefix + y)[|prefix|..] == y;
  }

  /**
   Bytes written behind the prefix survive another write there exactly if one of the two continues the other, that is,
   if they agree wherever both of them write.
   */
  lemma OverlaySurvives(a: seq<byte>, prefix: seq<byte>, earlier: seq<byte>, later: seq<byte>)
    requires prefix + earlier <= a && |prefix| + |later| <= |a|
    ensures
      var b := Overlay(a, |prefix|, later);
      && (prefix + earlier <= b <==> earlier <= later || later <= earlier)
      && prefix + later <= b
  {
    var n, b := |prefix| + |earlier|, Overlay(a, |prefix|, later);
    if |earlier| <= |later| {
      assert b[..n] == prefix + later[..|earlier|];
      SameRest(prefix, later[..|earlier|], earlier);
    } else {
      var rest := earlier[|later|..];
      assert a[|prefix| + |later|..n] == (prefix + earlier)[|prefix| + |later|..] == rest;
      assert b[..n] == prefix + (later + rest);
      SameRest(prefix, later + rest, earlier);
      assert (later + rest)[..|later|] == later;
    }
  }

  /** One packet given to a media stream, with the transport that was chosen for it. */
  datatype Written = Written(header: seq<byte>, payload: seq<byte>, handed: Sent)

  /**
   The write closure of `NewMediaStreamWithFlowID`. All calls append to the one slice `idBytes`, so they may
   write into the same backing array, each over what the one before left there.
   */
  class MediaStream {
    const id: uint62
    const idBytes: Slice
    const conn: Connection
    const mode: TransportMode
    const maxMTU: nat
    ghost var written: seq<Written>  // every packet handed to the transport so far

    /** The shared prefix is intact, and every packet so far was handed over as its own frame. */
    ghost predicate Valid()
      reads this, idBytes.backing
    {
      && idBytes.Valid()
      && idBytes.Contents() == Encode(id)
      && forall k :: 0 <= k < |written| ==>
        written[k].handed.bytes == Frame(id, written[k].header, written[k].payload)
    }

    constructor (id: uint62, conn: Connection, mode: TransportMode, maxMTU: nat, spare: nat)
      ensures Valid() && written == []
      ensures this.id == id && this.conn == conn && this.mode == mode && this.maxMTU == maxMTU
      ensures fresh(idBytes.backing) && idBytes.backing.Length == idBytes.len + spare
      ensures conn.sent == old(conn.sent)
    {
      var bytes := IdentifierBytes(id, spare);
      this.id, this.conn, this.mode, this.maxMTU := id, conn, mode, maxMTU;
      idBytes, written := bytes, [];
    }

    /**
     `append(append(idBytes, header...), payload...)`, and exactly what it leaves in the shared array: what fits is
     written behind the prefix, and the frame itself lies in the shared array only if all of it fits.
     */
    method Assemble(header: seq<byte>, payload: seq<byte>, spare: nat) returns (pl: Slice)
      requires Valid()
      modifies idBytes.backing
      ensures Valid() && written == old(written)
      ensures pl.Valid() && pl.Contents() == Frame(id, header, payload)
      ensures pl.len <= idBytes.backing.Length <==> pl.backing == idBytes.backing
      ensures pl.len > idBytes.backing.Length ==> fresh(pl.backing)
      ensures idBytes.backing[..] ==
        Overlay(old(idBytes.backing[..]), idBytes.len, InPlace(idBytes.backing.Length - idBytes.len, header, payload))
    {
      ghost var was := idBytes.backing[..];
      pl := Append(idBytes, header, spare);
      OverlayTwice(was, idBytes.len, header, payload);
      pl := Append(pl, payload, spare);
    }

    /**
     Two packets, one after the other: the second frame is intact, and the buffer of the first one still holds its frame
     exactly if that had an array of its own, or what the second packet put into the shared array agrees with it.
     */
    method AssembleTwice(header: seq<byte>, payload: seq<byte>, header': seq<byte>, payload': seq<byte>, spare: nat)
      returns (pl: Slice, pl': Slice)
      requires Valid()
      modifies idBytes.backing
      ensures Valid() && written == old(written)
      ensures pl.Valid() && pl'.Valid() && pl'.Contents() == Frame(id, header', payload')
      ensures
        var room, earlier := idBytes.backing.Length - idBytes.len, header + payload;
        var later := InPlace(room, header', payload');
        && (pl.Contents() == Frame(id, header, payload) <==>
            |earlier| > room || earlier <= later || later <= earlier)
        && (|earlier| == |header'| + |payload'| <= room ==> pl == pl')
    {
      pl := Assemble(header, payload, spare);
      ghost var was := idBytes.backing[..];
      pl' := Assemble(header', payload', spare);
      ghost var earlier, room := header + payload, idBytes.backing.Length - idBytes.len;
      assert Frame(id, header, payload) == Encode(id) + earlier;
      if |earlier| <= room {
        assert Encode(id) + earlier <= was;
        OverlaySurvives(was, Encode(id), earlier, InPlace(room, header', payload'));
      }
    }

    /** The choice of the transport for a frame. */
    method Transmit(pl: Slice, attributes: Attributes, fault: Fault) returns (n: nat, err: Option<string>)
      requires pl.Valid()
      modifies conn
      ensures
        var handed := Send(mode, attributes, pl.Contents(), maxMTU);
        if Fails(handed, fault) then
          && n == Reported(handed, fault) && err == Some(fault.error)
          && conn.sent == old(conn.sent) + Fragment(handed, fault)
        else
          n == pl.len && err == None && conn.sent == old(conn.sent) + [handed]
    {
      if mode == DGRAM {
        n, err := conn.SendMessage(pl, fault);
      } else if mode == STREAM {
        n, err := conn.WriteStream(pl, fault);
      } else if pl.len > maxMTU {
        n, err := conn.WriteStream(pl, fault);
      } else if attributes == NoAttributes {
        n, err := conn.SendMessage(pl, fault);
      } else if attributes == Reliability(true) {
        n, err := conn.WriteStream(pl, fault);
      } else {
        n, err := conn.SendMessage(pl, fault);
      }
    }

    /**
     One packet. Whatever the branch taken, the transport gets the flow identifier, the header and the payload,
     and the shared prefix is as it was. Only the shared array and the connection change, so a buffer that
     did not fit into the shared array is never touched again.
     */
    method Write(header: Result<seq<byte>, string>, payload: seq<byte>, attributes: Attributes, fault: Fault,
                 spare: nat)
      returns (n: nat, err: Option<string>)
      requires Valid()
      modifies this, conn, idBytes.backing
      ensures Valid() && idBytes.Contents() == old(idBytes.Contents())
      ensures header.Err? ==>
        n == 0 && err == Some(header.error) && conn.sent == old(conn.sent) && written == old(written)
      ensures header.Ok? ==>
        var handed := Send(mode, attributes, Frame(id, header.value, payload), maxMTU);
        if Fails(handed, fault) then
          && n == Reported(handed, fault) && err == Some(fault.error)
          && conn.sent == old(conn.sent) + Fragment(handed, fault)
          && written == old(written)
        else
          && n == |handed.bytes| && err == None
          && conn.sent == old(conn.sent) + [handed]
          && written == old(written) + [Written(header.value, payload, handed)]
      ensures header.Ok? && fault.NoFault? ==>
        && |conn.sent| == |old(conn.sent)| + 1
        && n == |Encode(id)| + |header.value| + |payload|
        && var onStream := conn.sent[|conn.sent| - 1].UniStream?;
           match mode
           case DGRAM => !onStream
           case STREAM => onStream
           case ANY => onStream <==> n > maxMTU || attributes == Reliability(true)
    {
      if header.Err? {
        return 0, Some(header.error);
      }
      var pl := Assemble(header.value, payload, spare);

      n, err := Transmit(pl, attributes, fault);
      if err == None {
        written := written + [Written(header.value, payload, Send(mode, attributes, pl.Contents(), maxMTU))];
      }
    }
  }

  /** Two RTP headers that differ in one byte, the low one of the sequence number. */
  const HEADER: seq<byte> := [0x80, 96, 0, 1, 0, 0, 0, 0, 0, 0, 0, 7]

  const NEXT_HEADER: seq<byte> := [0x80, 96, 0, 2, 0, 0, 0, 0, 0, 0, 0, 7]

  /**
   A concrete pair of packets: with room for 63 bytes behind the identifier, the buffer that was handed out for the
   first one holds the second one afterwards.
   */
  method EarlierPacketOverwritten(conn: Connection, payload: seq<byte>) returns (pl: Slice)
    requires |payload| <= 51
    ensures conn.sent == old(conn.sent)
    ensures pl.Valid()
    ensures pl.Contents() == Frame(5, NEXT_HEADER, payload) != Frame(5, HEADER, payload)
  {
    var stream := new MediaStream(5, conn, DGRAM, 1200, 63);
    var pl';
    pl, pl' := stream.AssembleTwice(HEADER, payload, NEXT_HEADER, payload, 0);
    assert (HEADER + payload)[3] != (NEXT_HEADER + payload)[3];
  }

  const MAX_UINT64: int := 0xFFFF_FFFF_FFFF_FFFF

  /** The flow identifiers handed out by `newFlowID`: the map `flowIDs` and how many there are. */
  class FlowIDs {
    var flowIDs: set<uint64>
    ghost var issued: nat

    ghost predicate Valid()
      reads this
    {
      && issued <= MAX_UINT64
      && forall i: uint64 :: i in flowIDs <==> i < issued
    }

    constructor ()
      ensures Valid() && issued == 0
    {
      flowIDs, issued := {}, 0;
    }

    /** The identifiers come out as 0, 1, 2, ... without repetition, until 2^64 - 1 of them are in use. */
    method NewFlowID() returns (r: Result<uint64, string>)
      requires Valid()
      modifies this
      ensures Valid()
      ensures old(issued) < 0xFFFF_FFFF_FFFF_FFFF ==>
        r == Ok(old(issued)) && issued == old(issued) + 1 && flowIDs == old(flowIDs) + {old(issued)}
      ensures old(issued) == 0xFFFF_FFFF_FFFF_FFFF ==> r.Err? && issued == old(issued) && flowIDs == old(flowIDs)
      ensures r.Ok? ==> r.value !in old(flowIDs)
    {
      var i: uint64 := 0;
      while i < MAX_UINT64
        invariant i <= issued
        invariant flowIDs == old(flowIDs) && issued == old(issued)
      {
        if i !in flowIDs {
          flowIDs := flowIDs + {i};
          issued := issued + 1;
          return Ok(i);
        }
        i := i + 1;
      }
      return Err("too many flows, no unused IDs left");
    }
  }

  // ----- receiver -----

  datatype Pkt = Pkt(flowID: uint62, transport: TransportMode, buffer: seq<byte>)

  /** What `ReceiveMessage` returns: a datagram, an error that ends the routine, or any other error. */
  datatype Received = Message(bytes: seq<byte>) | Closed | Failed

  /** A source of bytes that is read front to back; `fails` if it ends in an error rather than at its end. */
  class ByteReader {
    const data: seq<byte>
    const fails: bool
    var pos: nat

    ghost predicate Valid()
      reads this
    {
      pos <= |data|
    }

    constructor (data: seq<byte>, fails: bool)
      ensures Valid() && this.data == data && this.fails == fails && pos == 0
    {
      this.data, this.fails, pos := data, fails, 0;
    }

    method ReadByte() returns (b: Option<byte>)
      requires Valid()
      modifies this
      ensures Valid()
      ensures old(pos) < |data| ==> b == Some(data[old(pos)]) && pos == old(pos) + 1
      ensures old(pos) == |data| ==> b == None && pos == old(pos)
    {
      if pos == |data| {
        return None;
      }
      b := Some(data[pos]);
      pos := pos + 1;
    }

    method ReadAll() returns (b: Option<seq<byte>>)
      requires Valid()
      modifies this
      ensures Valid() && pos == |data|
      ensures b == if fails then None else Some(data[old(pos)..])
    {
      var rest := data[pos..];
      pos := |data|;
      b := if fails then None else Some(rest);
    }
  }

  /** `quicvarint.Read`, one byte after another. */
  method ReadVarint(r: ByteReader) returns (id: Option<uint62>)
    requires r.Valid() && r.pos == 0
    modifies r
    ensures r.Valid()
    ensures
      match Decode(r.data)
      case Some(d) => id == Some(d.value) && r.pos == d.consumed
      case None => id == None
  {
    var first := r.ReadByte();
    if first == None {
      return None;
    }
    var length := LengthOf(first.value);
    var v: nat := first.value % 64;
    var k := 1;
    assert FromBytes([first.value % 64] + r.data[1..1]) == v by {
      FromBytesCons(first.value % 64, []);
    }
    while k < length
      invariant r.Valid() && r.pos == k <= length
      invariant v == FromBytes([first.value % 64] + r.data[1..k])
    {
      var b := r.ReadByte();
      if b == None {
        return None;
      }
      ghost var digits := [first.value % 64] + r.data[1..k + 1];
      assert digits[..|digits| - 1] == [first.value % 64] + r.data[1..k];
      v := 256 * v + b.value;
      k := k + 1;
    }
    DecodedFits(first.value, r.data[1..length]);
    var value: uint62 := v;
    id := Some(value);
  }

  lemma ShortestIsShorter(b: seq<byte>)
    ensures Decode(b).Some? ==> Len(Decode(b).value.value) <= Decode(b).value.consumed
  {
    if Decode(b).Some? {
      EncodeDecoded(b);
      LenFits(Decode(b).value.value);
    }
  }

  /** What the datagram path delivers for one message: it strips as many bytes as the shortest encoding takes. */
  function DatagramPkt(msg: seq<byte>): Option<Pkt> {
    match Decode(msg)
    case None => None
    case Some(d) =>
      ShortestIsShorter(msg);
      Some(Pkt(d.value, DGRAM, msg[Len(d.value)..]))
  }

  /** What the stream path delivers for one stream that ends properly: it strips the bytes that were read. */
  function StreamPkt(data: seq<byte>): Option<Pkt> {
    match Decode(data)
    case None => None
    case Some(d) => Some(Pkt(d.value, STREAM, data[d.consumed..]))
  }

  /** All that the datagram routine delivers. */
  function DatagramPkts(events: seq<Received>): seq<Pkt> {
    if events == [] then []
    else
      match events[0]
      case Closed => []
      case Failed => DatagramPkts(events[1..])
      case Message(msg) =>
        match DatagramPkt(msg)
        case None => DatagramPkts(events[1..])
        case Some(p) => [p] + DatagramPkts(events[1..])
  }

  /**
   The datagram routine handles each event by itself: one good datagram delivers one packet, a failure or a datagram
   without a complete identifier delivers nothing and stops nothing.
   */
  lemma {:induction false} EventsDeliverSeparately(before: seq<Received>, event: Received, after: seq<Received>)
    requires Closed !in before
    ensures
      var rest := if event.Closed? then [] else DatagramPkts(after);
      DatagramPkts(before + [event] + after) ==
        DatagramPkts(before)
        + (if event.Message? && Decode(event.bytes).Some? then [DatagramPkt(event.bytes).value] else [])
        + rest
  {
    var events := before + [event] + after;
    if before == [] {
      assert events[1..] == after;
    } else {
      assert events[1..] == before[1..] + [event] + after;
      EventsDeliverSeparately(before[1..], event, after);
    }
  }

  /** `receiveDgrams`, until the connection is closed or `events` are exhausted. */
  method ReceiveDgrams(events: seq<Received>) returns (pkts: seq<Pkt>)
    ensures pkts == DatagramPkts(events)
  {
    pkts := [];
    var k := 0;
    while k < |events|
      invariant 0 <= k <= |events|
      invariant pkts + DatagramPkts(events[k..]) == DatagramPkts(events)
    {
      assert events[k..][1..] == events[k + 1..];
      match events[k] {
        case Closed =>
          return;
        case Failed =>
        case Message(msg) =>
          var reader := new ByteReader(msg, false);
          var id := ReadVarint(reader);
          if id.Some? {
            ShortestIsShorter(msg);
            var offset := Len(id.value);
            pkts := pkts + [Pkt(id.value, DGRAM, msg[offset..])];
          }
      }
      k := k + 1;
    }
    assert events[k..] == [];
  }

  /** `readStream`: nothing is delivered if the identifier is incomplete or the stream ends in an error. */
  method ReadStream(stream: ByteReader) returns (p: Option<Pkt>)
    requires stream.Valid() && stream.pos == 0
    modifies stream
    ensures p == if stream.fails then None else StreamPkt(stream.data)
  {
    var id := ReadVarint(stream);
    if id == None {
      return None;
    }
    var buf := stream.ReadAll();
    if buf == None {
      return None;
    }
    p := Some(Pkt(id.value, STREAM, buf.value));
  }

  lemma DatagramDelivers(id: uint62, packet: seq<byte>)
    ensures DatagramPkt(Encode(id) + packet) == Some(Pkt(id, DGRAM, packet))
  {
    DecodeEncoded(id, packet);
    assert (Encode(id) + packet)[Len(id)..] == packet;
  }

  /** `WriteRTCP`: feedback for a flow, or for flow 0 if none is given; the length returned leaves out the prefix. */
  method WriteRTCP(conn: Connection, report: Result<seq<byte>, string>, flowID: Option<uint62>, fault: Fault,
                   spare: nat)
    returns (n: nat, err: Option<string>)
    modifies conn
    ensures report.Err? ==> n == 0 && err == Some(report.error) && conn.sent == old(conn.sent)
    ensures report.Ok? ==>
      var id := if flowID.Some? then flowID.value else 0;
      && n == |report.value|
      && (if fault.NotTaken? then err == Some(fault.error) && conn.sent == old(conn.sent)
          else err == None && conn.sent == old(conn.sent) + [Datagram(Encode(id) + report.value)])
      && DatagramPkt(Encode(id) + report.value) == Some(Pkt(id, DGRAM, report.value))
  {
    if report.Err? {
      return 0, Some(report.error);
    }
    var id: uint62 := 0;
    if flowID.Some? {
      id := flowID.value;
    }
    DatagramDelivers(id, report.value);
    var prefix := IdentifierBytes(id, spare);
    var msg := Append(prefix, report.value, spare);
    var _, sendErr := conn.SendMessage(msg, fault);
    n, err := |report.value|, sendErr;
  }

  // ----- the two ends together -----

  function Deliver(sent: Sent): Option<Pkt> {
    match sent
    case Datagram(bytes) => DatagramPkt(bytes)
    case UniStream(bytes) => StreamPkt(bytes)
  }

  lemma StreamDelivers(id: uint62, packet: seq<byte>)
    ensures StreamPkt(Encode(id) + packet) == Some(Pkt(id, STREAM, packet))
  {
    DecodeEncoded(id, packet);
    assert (Encode(id) + packet)[Len(id)..] == packet;
  }

  /** A stream that was cut short and closed delivers the front part of the packet, or nothing. */
  lemma CutStreamDelivers(id: uint62, packet: seq<byte>, taken: nat)
    ensures StreamPkt(Cut(Encode(id) + packet, taken)) ==
      if taken < Len(id) then None else Some(Pkt(id, STREAM, Cut(packet, taken - Len(id))))
  {
    var b := Encode(id) + packet;
    DecodeEncoded(id, packet);
    if Len(id) <= taken {
      assert Cut(b, taken) == Encode(id) + Cut(packet, taken - Len(id));
      StreamDelivers(id, Cut(packet, taken - Len(id)));
    }
  }

  /** Whatever transport is chosen for a packet, the receiver delivers exactly its flow identifier and its bytes. */
  lemma RoundTrip(id: uint62, header: seq<byte>, payload: seq<byte>, mode: TransportMode, attributes: Attributes,
                  maxMTU: nat)
    ensures
      var handed := Send(mode, attributes, Frame(id, header, payload), maxMTU);
      Deliver(handed) == Some(Pkt(id, if handed.UniStream? then STREAM else DGRAM, header + payload))
  {
    assert Frame(id, header, payload) == Encode(id) + (header + payload);
    DatagramDelivers(id, header + payload);
    StreamDelivers(id, header + payload);
  }

  /**
   After any run of writes on a stream, each packet it handed over is delivered with its flow identifier and
   its bytes.
   */
  lemma StreamDeliversAll(stream: MediaStream, k: nat)
    requires stream.Valid() && k < |stream.written|
    ensures
      var w := stream.written[k];
      Deliver(w.handed) == Some(Pkt(stream.id, if w.handed.UniStream? then STREAM else DGRAM, w.header + w.payload))
  {
    var w := stream.written[k];
    assert w.handed.bytes == Encode(stream.id) + (w.header + w.payload);
    DatagramDelivers(stream.id, w.header + w.payload);
    StreamDelivers(stream.id, w.header + w.payload);
  }

  /** The datagrams of a list of packets, all received, deliver that list. */
  lemma {:induction false} DatagramsDeliverAll(ids: seq<uint62>, packets: seq<seq<byte>>, events: seq<Received>)
    requires |ids| == |packets| == |events|
    requires forall k :: 0 <= k < |events| ==> events[k] == Message(Encode(ids[k]) + packets[k])
    ensures DatagramPkts(events) == seq(|ids|, k requires 0 <= k < |ids| => Pkt(ids[k], DGRAM, packets[k]))
  {
    if events != [] {
      DatagramsDeliverAll(ids[1..], packets[1..], events[1..]);
      DatagramDelivers(ids[0], packets[0]);
    }
  }

  /**
   On any input at all: the two decoders drop the same inputs, they read the same identifier, and they deliver the
   same bytes exactly when that identifier was encoded in the shortest way.
   */
  lemma DecodersAgree(b: seq<byte>)
    ensures DatagramPkt(b).None? <==> StreamPkt(b).None?
    ensures DatagramPkt(b).Some? ==>
      && DatagramPkt(b).value.flowID == StreamPkt(b).value.flowID
      && (DatagramPkt(b).value.buffer == StreamPkt(b).value.buffer <==> MinimallyEncoded(b))
  {
    ShortestIsShorter(b);
    if Decode(b).Some? {
      var d := Decode(b).value;
      assert |b[Len(d.value)..]| == |b| - Len(d.value) && |b[d.consumed..]| == |b| - d.consumed;
    }
  }

  /** A concrete input on which they differ: flow 5 written in two bytes, with a one-byte packet. */
  lemma DecodersDiffer()
    ensures
      var b: seq<byte> := [0x40, 5, 9];
      && DatagramPkt(b) == Some(Pkt(5, DGRAM, [5, 9]))
      && StreamPkt(b) == Some(Pkt(5, STREAM, [9]))
  {
    var b: seq<byte> := [0x40, 5, 9];
    assert b[1..2] == [5];
    FromBytesCons(0, [5]);
    FromBytesCons(5, []);
    assert [5] + [] == [5];
    assert Decode(b) == Some(Decoded(5, 2));
  }
}

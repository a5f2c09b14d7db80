/**
 RTP over TCP: tcp/sender.go and tcp/receiver.go. Each message is prefixed with its length in two bytes, the
 layout of section 2 of RFC 4571.
 */
module TcpFraming {
  import opened Words
  import opened Wrappers

  const MAX_MESSAGE: int := 0xFFFF

  /** The bytes of `uint16(n)`: the conversion drops all but the low 16 bits. */
  function Length16(n: nat): (r: seq<byte>)
    ensures |r| == 2
  {
    ToBytes(n % 0x1_0000, 2)
  }

  function Frame(msg: seq<byte>): seq<byte> {
    Length16(|msg|) + msg
  }

  lemma BigEndian(n: nat)
    ensures Length16(n) == [(n / 256) % 256, n % 256]
  {
    var m := n % 0x1_0000;
    assert m % 256 == n % 256 && m / 256 == (n / 256) % 256;
    assert ToBytes(m / 256 / 256, 0) == [];
    assert ToBytes(m / 256, 1) == [m / 256 % 256];
  }

  /** The layout of section 2 of RFC 4571: the high byte of the length, the low byte, the message. */
  lemma FrameLayout(msg: seq<byte>)
    requires |msg| <= MAX_MESSAGE
    ensures Frame(msg) == [|msg| / 256, |msg| % 256] + msg
  {
    BigEndian(|msg|);
  }

  /** The bytes on the connection after a list of messages. */
  function Frames(msgs: seq<seq<byte>>): seq<byte> {
    if msgs == [] then [] else Frame(msgs[0]) + Frames(msgs[1..])
  }

  /** The length that the first two bytes announce. */
  function Announced(b: seq<byte>): nat
    requires |b| >= 2
  {
    FromBytes(b[..2])
  }

  predicate HasFrame(b: seq<byte>) {
    |b| >= 2 && |b| >= 2 + Announced(b)
  }

  /** The messages of the longest run of complete frames at the front of `b`. */
  function Messages(b: seq<byte>): seq<seq<byte>> {
    if !HasFrame(b) then []
    else [b[2..2 + Announced(b)]] + Messages(b[2 + Announced(b)..])
  }

  /** How many bytes that run takes. */
  function Consumed(b: seq<byte>): (n: nat)
    ensures n <= |b|
  {
    if !HasFrame(b) then 0
    else 2 + Announced(b) + Consumed(b[2 + Announced(b)..])
  }

  // ----- round trip -----

  lemma FrameAnnounces(msg: seq<byte>, rest: seq<byte>)
    requires |msg| <= MAX_MESSAGE
    ensures Announced(Frame(msg) + rest) == |msg|
  {
    assert (Frame(msg) + rest)[..2] == Length16(|msg|);
    assert Pow256(2) == 0x1_0000;
    FromToBytes(|msg|, 2);
  }

  lemma FrameParses(msg: seq<byte>, rest: seq<byte>)
    requires |msg| <= MAX_MESSAGE
    ensures HasFrame(Frame(msg) + rest)
    ensures Messages(Frame(msg) + rest) == [msg] + Messages(rest)
    ensures Consumed(Frame(msg) + rest) == 2 + |msg| + Consumed(rest)
  {
    var b, n := Frame(msg) + rest, 2 + |msg|;
    FrameAnnounces(msg, rest);
    assert b[2..n] == msg && b[n..] == rest;
  }

  /** One frame delivers its message, and no part of it delivers anything. */
  lemma CutFrameParses(msg: seq<byte>, cut: seq<byte>)
    requires |msg| <= MAX_MESSAGE && cut <= Frame(msg)
    ensures Messages(cut) == if |cut| < 2 + |msg| then [] else [msg]
  {
    FrameParses(msg, []);
    assert Frame(msg) + [] == Frame(msg);
    if |cut| == 2 + |msg| {
      assert cut == Frame(msg);
    } else if |cut| >= 2 {
      FrameAnnounces(msg, []);
      assert cut[..2] == Frame(msg)[..2];
    }
  }

  lemma {:induction false} FramesParse(msgs: seq<seq<byte>>)
    requires forall k :: 0 <= k < |msgs| ==> |msgs[k]| <= MAX_MESSAGE
    ensures Messages(Frames(msgs)) == msgs && Consumed(Frames(msgs)) == |Frames(msgs)|
  {
    if msgs != [] {
      FramesParse(msgs[1..]);
      FrameParses(msgs[0], Frames(msgs[1..]));
    }
  }

  /** No message that is delivered can be longer than 65535 bytes. */
  lemma {:induction false} DeliveredAreShort(b: seq<byte>)
    ensures forall k :: 0 <= k < |Messages(b)| ==> |Messages(b)[k]| <= MAX_MESSAGE
  {
    if HasFrame(b) {
      TwoBytes(b[..2]);
      DeliveredAreShort(b[2 + Announced(b)..]);
    }
  }

  /**
   Decoding the frames of a list of messages gives the list back exactly when no message is too long for its
   prefix.
   */
  lemma RoundTrip(msgs: seq<seq<byte>>)
    ensures Messages(Frames(msgs)) == msgs <==> forall k :: 0 <= k < |msgs| ==> |msgs[k]| <= MAX_MESSAGE
  {
    if forall k :: 0 <= k < |msgs| ==> |msgs[k]| <= MAX_MESSAGE {
      FramesParse(msgs);
    } else {
      DeliveredAreShort(Frames(msgs));
    }
  }

  /** A concrete message that does not survive: 65536 bytes are announced as 0. */
  lemma TooLong()
    ensures
      var msg: seq<byte> := seq(0x1_0000, _ => 1);
      |Messages(Frame(msg))| > 0 && Messages(Frame(msg))[0] == []
  {
    var msg: seq<byte> := seq(0x1_0000, _ => 1);
    assert Frame(msg)[..2] == Length16(0x1_0000);
    BigEndian(0x1_0000);
    TwoBytes(Frame(msg)[..2]);
  }

  // ----- truncation -----

  lemma FrontIsFrame(b: seq<byte>, n: nat)
    requires HasFrame(b) && n == 2 + Announced(b)
    ensures Frame(b[2..n]) == b[..n]
  {
    TwoBytes(b[..2]);
    ToFromBytes(b[..2]);
    assert b[..2] + b[2..n] == b[..n];
  }

  lemma Reslice(b: seq<byte>, n: nat, m: nat)
    requires n + m <= |b|
    ensures b[..n] + b[n..][..m] == b[..n + m] && b[n..][m..] == b[n + m..]
  {
  }

  /** The delivered run is maximal: re-framing it gives the bytes consumed, and what is left holds no complete frame. */
  lemma {:induction false} RunIsMaximal(b: seq<byte>)
    ensures Frames(Messages(b)) == b[..Consumed(b)]
    ensures !HasFrame(b[Consumed(b)..])
  {
    if HasFrame(b) {
      var n := 2 + Announced(b);
      var rest := b[n..];
      RunIsMaximal(rest);
      FrontIsFrame(b, n);
      assert Messages(b) == [b[2..n]] + Messages(rest);
      assert Frames(Messages(b)) == b[..n] + rest[..Consumed(rest)];
      Reslice(b, n, Consumed(rest));
    }
  }

  lemma CutFrame(cut: seq<byte>, b: seq<byte>, m: nat)
    requires cut <= b && HasFrame(cut) && m == 2 + Announced(cut)
    ensures HasFrame(b) && m == 2 + Announced(b)
    ensures cut[2..m] == b[2..m] && cut[m..] <= b[m..]
  {
    assert cut[..2] == b[..2];
  }

  /** Cutting the stream anywhere delivers a prefix of the messages. */
  lemma {:induction false} TruncationDeliversPrefix(cut: seq<byte>, b: seq<byte>)
    requires cut <= b
    ensures Messages(cut) <= Messages(b)
  {
    if HasFrame(cut) {
      var m := 2 + Announced(cut);
      CutFrame(cut, b, m);
      TruncationDeliversPrefix(cut[m..], b[m..]);
    }
  }

  // ----- the two ends -----

  /** `io.ReadFull` fails with `io.EOF` only if nothing at all could be read. */
  datatype ReadError = NoError | EOF | UnexpectedEOF

  /** A write may fail after some of its bytes. */
  datatype Fault = NoFault | CutShort(taken: nat, error: string)

  function Cut(b: seq<byte>, fault: Fault): (r: seq<byte>)
    ensures r <= b
  {
    if fault.CutShort? && fault.taken <= |b| then b[..fault.taken] else b
  }

  /** `binary.BigEndian.PutUint16(b, uint16(n))`. */
  method PutUint16(b: array<byte>, n: nat)
    requires b.Length == 2
    modifies b
    ensures b[..] == Length16(n)
  {
    b[0], b[1] := (n / 256) % 256, n % 256;
    BigEndian(n);
  }

  /** One end of a connection: what is still to be read before its end, and what has been written. */
  class Conn {
    var input: seq<byte>
    var output: seq<byte>

    constructor (input: seq<byte>)
      ensures this.input == input && output == []
    {
      this.input, output := input, [];
    }

    /** Fills `buf`, or takes what there is and reports the end of the input. */
    method ReadFull(buf: array<byte>) returns (err: ReadError)
      modifies this`input, buf
      ensures buf.Length <= |old(input)| ==>
        err == NoError && buf[..] == old(input)[..buf.Length] && input == old(input)[buf.Length..]
      ensures buf.Length > |old(input)| ==>
        input == [] && err == if old(input) == [] then EOF else UnexpectedEOF
    {
      var n := if buf.Length <= |input| then buf.Length else |input|;
      forall i | 0 <= i < n {
        buf[i] := input[i];
      }
      err := if n == buf.Length then NoError else if n == 0 then EOF else UnexpectedEOF;
      input := input[n..];
    }

    method Write(b: seq<byte>, fault: Fault) returns (n: nat, err: Option<string>)
      modifies this`output
      ensures output == old(output) + Cut(b, fault) && n == |Cut(b, fault)|
      ensures err == if fault.CutShort? then Some(fault.error) else None
    {
      output := output + Cut(b, fault);
      n := |Cut(b, fault)|;
      err := if fault.CutShort? then Some(fault.error) else None;
    }

    /** The write closure of the sender's `NewMediaStream`, and `WriteRTCP` with the report in place of the packet. */
    method WriteMessage(header: Result<seq<byte>, string>, payload: seq<byte>, fault: Fault)
      returns (n: nat, err: Option<string>)
      modifies this`output
      ensures header.Err? ==> n == 0 && err == Some(header.error) && output == old(output)
      ensures header.Ok? ==>
        var msg := header.value + payload;
        var written := Cut(Frame(msg), fault);
        && output == old(output) + written && n == |written|
        && (if fault.CutShort? then err == Some(fault.error) else err == None && written == Frame(msg))
        && (|msg| <= MAX_MESSAGE ==> Messages(written) == if |written| < 2 + |msg| then [] else [msg])
    {
      if header.Err? {
        return 0, Some(header.error);
      }
      var msg := header.value + payload;
      var buf := new byte[2];
      PutUint16(buf, |msg|);
      if |msg| <= MAX_MESSAGE {
        CutFrameParses(msg, Cut(Frame(msg), fault));
      }
      n, err := Write(buf[..] + msg, fault);
    }
  }

  lemma SplitFrame(b: seq<byte>, length: nat)
    requires HasFrame(b) && length == Announced(b)
    ensures Messages(b) == [b[2..][..length]] + Messages(b[2..][length..])
  {
    assert b[2..][..length] == b[2..2 + length];
    assert b[2..][length..] == b[2 + length..];
  }

  /** `binary.BigEndian.Uint16`. */
  method Uint16(b: array<byte>) returns (n: uint16)
    requires b.Length >= 2
    ensures n == FromBytes(b[..2])
  {
    TwoBytes(b[..2]);
    n := 256 * (b[0] as int) + b[1];
  }

  /**
   `Handler.receive` on a connection that ends: it returns, and it has delivered exactly the maximal run of
   complete frames. A truncated frame is skipped to the end of the input by the read that fails.
   */
  method Receive(conn: Conn) returns (pkts: seq<seq<byte>>)
    modifies conn`input
    ensures pkts == Messages(old(conn.input))
    ensures conn.input == []
    ensures conn.output == old(conn.output)
  {
    pkts := [];
    var prefix := new byte[2];
    ghost var all := conn.input;
    while true
      invariant fresh(prefix) && prefix.Length == 2
      invariant conn.output == old(conn.output)
      invariant pkts + Messages(conn.input) == Messages(all)
      decreases |conn.input|
    {
      ghost var b := conn.input;
      var err := conn.ReadFull(prefix);
      if err != NoError {
        assert Messages(b) == [];
        if err == EOF {
          return;
        }
        continue;
      }
      assert prefix[..2] == b[..2];
      var length := Uint16(prefix);
      assert length == Announced(b) && conn.input == b[2..];
      var buf := new byte[length];
      err := conn.ReadFull(buf);
      if err != NoError {
        assert !HasFrame(b);
        if err == EOF {
          return;
        }
        continue;
      }
      SplitFrame(b, length);
      pkts := pkts + [buf[..]];
    }
  }
}

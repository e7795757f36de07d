/**
 The packet layer (packet.go): a start byte, a short or long length header, the payload and a
 checksum.  Go slices keep a capacity beyond their length, and parsePacket reslices up to that
 capacity, so the reader is modelled with the `spare` bytes that lie behind its frame.
 */
module Packets {
  import opened Bytes
  import opened Checksums

  const PACKET_START_BYTE: byte := 0x55
  const LARGE_PACKET_MIN_LEN := 256

  datatype Error = EOF | UnexpectedEOF | InvalidChecksum | EmptyPacket

  datatype Header = Header(payOff: nat, payLen: nat)

  datatype Parsed =
    | Packet(pktLen: nat, payload: seq<byte>)
    | Malformed(error: Error)
    | OutOfRange  // the slice expression panics

  datatype Outcome = Payload(payload: seq<byte>) | Fault(error: Error) | Panic

  function ParseHeader(data: seq<byte>): (r: Result<Header, Error>)
    ensures r.Success? <==> |data| >= 3
    ensures r.Success? ==> r.value.payOff in {1, 3}
  {
    if |data| < 3 then Failure(UnexpectedEOF)
    else if data[0] == 0 then Success(Header(3, FromBigEndian(data[1..3])))
    else Success(Header(1, data[0]))
  }

  /** `data[:pktLen]` may reach into the spare capacity; beyond that it panics. */
  function ParsePacket(data: seq<byte>, spare: seq<byte>): (r: Parsed)
    ensures r.Packet? ==> 1 <= r.pktLen <= |data| + |spare|
    ensures r.Malformed? ==> r.error in {UnexpectedEOF, InvalidChecksum}
  {
    match ParseHeader(data)
    case Failure(e) => Malformed(e)
    case Success(Header(payOff, payLen)) =>
      var pktLen := payOff + payLen + 1;
      if pktLen > |data| + |spare| then OutOfRange
      else
        var pkt := (data + spare)[..pktLen];
        if |pkt| < pktLen then Malformed(UnexpectedEOF)
        else if ChecksumOf(pkt) != 0 then Malformed(InvalidChecksum)
        else Packet(pktLen, pkt[payOff..payOff + payLen])
  }

  /** One call of ReadPacket: what it returns and what it leaves of the frame. */
  function ReadStep(frame: seq<byte>, spare: seq<byte>): (r: (Outcome, seq<byte>))
    ensures r.0 == Fault(EOF) || |r.1| < |frame|
  {
    var next := IndexByte(frame, PACKET_START_BYTE);
    if next == |frame| then (Fault(EOF), frame)
    else
      var data := frame[next + 1..];
      match ParsePacket(data, spare)
      case Malformed(e) => (Fault(e), data)
      case OutOfRange => (Panic, data)
      case Packet(pktLen, payload) =>
        if pktLen > |data| then (Panic, data) else (Payload(payload), data[pktLen..])
  }

  class PacketReader {
    var frame: seq<byte>
    const spare: seq<byte>

    constructor (frame: seq<byte>, spare: seq<byte>)
      ensures this.frame == frame && this.spare == spare
    {
      this.frame, this.spare := frame, spare;
    }

    method ReadPacket() returns (outcome: Outcome)
      modifies this
      ensures (outcome, frame) == ReadStep(old(frame), spare)
    {
      var next := IndexByte(frame, PACKET_START_BYTE);
      if next == |frame| {
        return Fault(EOF);
      }
      frame := frame[next + 1..];
      match ParsePacket(frame, spare)
      case Malformed(e) =>
        outcome := Fault(e);
      case OutOfRange =>
        outcome := Panic;
      case Packet(pktLen, payload) =>
        if pktLen > |frame| {
          outcome := Panic;
        } else {
          frame := frame[pktLen..];
          outcome := Payload(payload);
        }
    }
  }

  // ---------------------------------------------------------------- writing

  /** The header that WritePacket chooses; the long form keeps 16 bits of the length. */
  function HeaderFor(len: nat): seq<byte> {
    if len > LARGE_PACKET_MIN_LEN then [0] + BigEndian(len % 0x1_0000, 2) else [len % 0x100]
  }

  function Encode(payload: seq<byte>): seq<byte> {
    var body := HeaderFor(|payload|) + payload;
    [PACKET_START_BYTE] + body + [ChecksumOf(body)]
  }

  function EncodeAll(payloads: seq<seq<byte>>): seq<byte> {
    if payloads == [] then [] else Encode(payloads[0]) + EncodeAll(payloads[1..])
  }

  /**
   A packet on the wire: the start byte, the length in one byte or as 0 and two bytes, high byte first,
   the payload, and a byte that makes the sum of all that follows the start byte zero modulo 256.
   */
  predicate IsPacket(s: seq<byte>, payload: seq<byte>) {
    var n := |payload|;
    if n <= 0x100
    then |s| == n + 3 && s[0] == 0x55 && s[1] == n % 0x100 && s[2..n + 2] == payload && Sum(s[1..]) % 0x100 == 0
    else
      |s| == n + 5 && s[0] == 0x55 && s[1] == 0 && s[2] == n / 0x100 % 0x100 && s[3] == n % 0x100 &&
      s[4..n + 4] == payload && Sum(s[1..]) % 0x100 == 0
  }

  lemma HeaderBytes(n: nat)
    ensures HeaderFor(n) == if n <= 0x100 then [n % 0x100] else [0, n / 0x100 % 0x100, n % 0x100]
  {
    BigEndianTwo(n % 0x1_0000);
    LowBytes(n);
  }

  lemma LowBytes(n: nat)
    ensures n % 0x1_0000 / 0x100 % 0x100 == n / 0x100 % 0x100 && n % 0x1_0000 % 0x100 == n % 0x100
  {
    var q, a, b := n / 0x1_0000, n % 0x1_0000 / 0x100, n % 0x100;
    assert n % 0x1_0000 % 0x100 == b;
    assert n == 0x100 * (0x100 * q + a) + b;
    assert n / 0x100 == 0x100 * q + a;
  }

  lemma EncodedIsPacket(payload: seq<byte>)
    ensures IsPacket(Encode(payload), payload)
  {
    hide HeaderFor, Sum, ChecksumOf;
    var body := HeaderFor(|payload|) + payload;
    HeaderBytes(|payload|);
    ChecksumZero(body, ChecksumOf(body));
    assert Encode(payload)[1..] == body + [ChecksumOf(body)];
  }

  lemma PacketBody(s: seq<byte>, payload: seq<byte>)
    requires IsPacket(s, payload)
    ensures s == [0x55] + ((HeaderFor(|payload|) + payload) + [s[|s| - 1]])
  {
    var n, c := |payload|, s[|s| - 1];
    HeaderBytes(n);
    hide HeaderFor, Sum;
    if n <= 0x100 {
      assert s == [0x55] + (([s[1]] + s[2..n + 2]) + [c]);
    } else {
      assert s == [0x55] + (([s[1], s[2], s[3]] + s[4..n + 4]) + [c]);
    }
  }

  /** There is exactly one such packet for a payload. */
  lemma PacketExactly(s: seq<byte>, payload: seq<byte>)
    ensures IsPacket(s, payload) <==> s == Encode(payload)
  {
    EncodedIsPacket(payload);
    if IsPacket(s, payload) {
      PacketBody(s, payload);
      var body, c := HeaderFor(|payload|) + payload, s[|s| - 1];
      assert s[1..] == body + [c];
      hide HeaderFor, Sum, ChecksumOf;
      ChecksumZero(body, c);
      AppendAssociative([0x55], body, [c]);
    }
  }

  lemma ChecksumZero(body: seq<byte>, c: byte)
    ensures Sum(body + [c]) % 0x100 == 0 <==> c == ChecksumOf(body)
  {
    ChecksumCloses(body, c);
  }

  class PacketWriter {
    var frame: seq<byte>

    constructor ()
      ensures frame == []
    {
      frame := [];
    }

    method WritePacket(payload: seq<byte>) returns (r: Result<(), Error>)
      modifies this
      ensures payload == [] ==> r == Failure(EmptyPacket) && frame == old(frame)
      ensures payload != [] ==> r == Success(()) && frame == old(frame) + Encode(payload)
      ensures payload != [] ==> old(frame) <= frame && IsPacket(frame[|old(frame)|..], payload)
    {
      if |payload| == 0 {
        return Failure(EmptyPacket);
      }
      ghost var before := frame;
      frame := frame + [PACKET_START_BYTE];
      var pktStart := |frame|;
      if |payload| > LARGE_PACKET_MIN_LEN {
        frame := frame + ([0] + BigEndian(|payload| % 0x1_0000, 2));
      } else {
        frame := frame + [|payload| % 0x100];
      }
      ghost var header := HeaderFor(|payload|);
      assert frame == before + [PACKET_START_BYTE] + header;
      frame := frame + payload;
      assert frame[pktStart..] == header + payload;
      var sum := Checksum(frame[pktStart..]);
      frame := frame + [sum];
      assert frame == before + ([PACKET_START_BYTE] + (header + payload) + [sum]);
      EncodedIsPacket(payload);
      r := Success(());
    }
  }

  // ---------------------------------------------------------------- the reading loop

  /** What the loop around ReadPacket delivers: payloads, calls before EOF, and whether it panicked. */
  datatype Scan = Scan(payloads: seq<seq<byte>>, calls: nat, panicked: bool)

  function ScanFrame(frame: seq<byte>, spare: seq<byte>): Scan
    decreases |frame|
  {
    var (outcome, rest) := ReadStep(frame, spare);
    if outcome == Fault(EOF) then Scan([], 0, false)
    else if outcome.Panic? then Scan([], 1, true)
    else
      var s := ScanFrame(rest, spare);
      Scan(Found(outcome, s.payloads), 1 + s.calls, s.panicked)
  }

  function Found(outcome: Outcome, later: seq<seq<byte>>): seq<seq<byte>> {
    if outcome.Payload? then [outcome.payload] + later else later
  }

  /** The scan of the whole frame, once `done` has been read and `frame` is left. */
  function Resume(done: Scan, frame: seq<byte>, spare: seq<byte>): Scan {
    var s := ScanFrame(frame, spare);
    Scan(done.payloads + s.payloads, done.calls + s.calls, s.panicked)
  }

  /** How one call of ReadPacket advances the loop. */
  function Advance(done: Scan, outcome: Outcome): Scan {
    Scan(if outcome.Payload? then done.payloads + [outcome.payload] else done.payloads, done.calls + 1, outcome.Panic?)
  }

  lemma ResumeAdvance(done: Scan, frame: seq<byte>, spare: seq<byte>)
    requires !done.panicked
    ensures var (outcome, rest) := ReadStep(frame, spare);
            if outcome == Fault(EOF) then Resume(done, frame, spare) == done
            else if outcome == Panic then Resume(done, frame, spare) == Advance(done, outcome)
            else Resume(done, frame, spare) == Resume(Advance(done, outcome), rest, spare)
  {
    var (outcome, rest) := ReadStep(frame, spare);
    if outcome.Payload? {
      var tail := ScanFrame(rest, spare).payloads;
      assert done.payloads + ([outcome.payload] + tail) == (done.payloads + [outcome.payload]) + tail;
    }
  }

  /** The inner loop of processFrames and dumpTrace. */
  method ReadPackets(reader: PacketReader) returns (scan: Scan)
    modifies reader
    ensures scan == ScanFrame(old(reader.frame), reader.spare)
  {
    scan := Scan([], 0, false);
    while true
      invariant !scan.panicked
      invariant Resume(scan, reader.frame, reader.spare) == ScanFrame(old(reader.frame), reader.spare)
      decreases |reader.frame|
    {
      ResumeAdvance(scan, reader.frame, reader.spare);
      var outcome := reader.ReadPacket();
      if outcome == Fault(EOF) {
        return;
      }
      scan := Advance(scan, outcome);
      if outcome == Panic {
        return;
      }
    }
  }
}

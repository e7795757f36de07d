/** What the packet layer promises: round trips, where they stop, and what a scan of any frame finds. */
module PacketLaws {
  import opened Bytes
  import opened Checksums
  import opened Packets

  /** The lengths for which header and length agree: everything up to 16 bits except 0 and 256. */
  predicate Framable(len: nat) {
    1 <= len <= 0xFF || 0x101 <= len <= 0xFFFF
  }

  // ---------------------------------------------------------------- one packet

  /** The first byte of `frame` is a start byte, so ReadPacket parses what follows it. */
  lemma ReadsFirst(data: seq<byte>, spare: seq<byte>)
    ensures ReadStep([PACKET_START_BYTE] + data, spare) ==
            match ParsePacket(data, spare)
            case Malformed(e) => (Fault(e), data)
            case OutOfRange => (Panic, data)
            case Packet(n, p) => if n > |data| then (Panic, data) else (Payload(p), data[n..])
  {
    var frame := [PACKET_START_BYTE] + data;
    assert IndexByte(frame, PACKET_START_BYTE) == 0;
    assert frame[1..] == data;
  }

  lemma HeaderRead(p: seq<byte>, tail: seq<byte>)
    requires Framable(|p|) && |tail| >= 1
    ensures ParseHeader(HeaderFor(|p|) + p + tail) == Success(Header(|HeaderFor(|p|)|, |p|))
  {
    var data := HeaderFor(|p|) + p + tail;
    if |p| > LARGE_PACKET_MIN_LEN {
      BigEndianTwo(|p|);
      assert data[1..3] == BigEndian(|p|, 2);
      FromBigEndianTwo(data[1..3]);
    }
  }

  /** A written packet reads back, whatever follows it and whatever the reader's spare capacity. */
  lemma ReadBack(p: seq<byte>, rest: seq<byte>, spare: seq<byte>)
    requires Framable(|p|)
    ensures ReadStep(Encode(p) + rest, spare) == (Payload(p), rest)
  {
    hide ReadStep, ParseHeader, HeaderFor, Sum;
    var header := HeaderFor(|p|);
    var body := header + p;
    var data := body + [ChecksumOf(body)] + rest;
    assert data == header + p + ([ChecksumOf(body)] + rest);
    HeaderRead(p, [ChecksumOf(body)] + rest);
    assert (data + spare)[..|body| + 1] == body + [ChecksumOf(body)];
    ChecksumCloses(body, ChecksumOf(body));
    assert (body + [ChecksumOf(body)])[|header|..|header| + |p|] == p;
    assert data[|body| + 1..] == rest;
    assert Encode(p) + rest == [PACKET_START_BYTE] + data;
    ReadsFirst(data, spare);
  }

  lemma {:induction false} AlternatingSum(p: seq<byte>)
    requires forall i :: 0 <= i < |p| ==> p[i] == 1 - i % 2
    ensures Sum(p) == (|p| + 1) / 2
  {
    if p != [] {
      AlternatingSum(p[..|p| - 1]);
    }
  }

  lemma SameParity(p: seq<byte>, i: nat)
    requires |p| >= 2 && forall k :: 0 <= k < |p| - 2 ==> p[k] == p[k + 2]
    requires i < |p|
    ensures p[i] == p[i % 2]
    decreases i
  {
    if i >= 2 {
      SameParity(p, i - 2);
      assert p[i - 2] == p[i - 2 + 2];
    }
  }

  /** A packet that starts with 1, 0 and repeats with period 2 cannot carry its own checksum. */
  lemma PeriodicChecksum(p: seq<byte>, pkt: seq<byte>)
    requires |p| == 0x100 && |pkt| == 0x104
    requires pkt[1..0x101] == p == pkt[3..0x103]
    requires p[0] == 1 && p[1] == 0
    ensures ChecksumOf([0] + p) != pkt[0x101]
  {
    forall k | 0 <= k < |p| - 2 ensures p[k] == p[k + 2] {
      assert p[k] == pkt[3..0x103][k] == pkt[1..0x101][k + 2];
    }
    forall i | 0 <= i < |p| ensures p[i] == 1 - i % 2 {
      SameParity(p, i);
    }
    AlternatingSum(p);
    SumConcat([0], p);
    assert p[254] == pkt[3..0x103][254];
  }

  /**
   A 256-byte payload is announced by the length byte 0, which the reader takes for the long form.
   To come back it would have to start with 1, 0 and equal itself two bytes later.
   */
  lemma NotAt256(p: seq<byte>, rest: seq<byte>, spare: seq<byte>)
    requires |p| == 0x100
    ensures ReadStep(Encode(p) + rest, spare).0 != Payload(p)
  {
    var body := [0] + p;
    var data := body + [ChecksumOf(body)] + rest;
    assert Encode(p) + rest == [PACKET_START_BYTE] + data;
    ReadsFirst(data, spare);
    assert data[1..3] == p[..2];
    FromBigEndianTwo(p[..2]);
    hide ReadStep, Sum, Encode;
    if ReadStep(Encode(p) + rest, spare).0 == Payload(p) && |data + spare| >= 0x104 {
      var pkt := (data + spare)[..0x104];
      assert data[0x101] == ChecksumOf(body) && (data + spare)[0x101] == data[0x101];
      assert data[1..0x101] == p && (data + spare)[1..0x101] == data[1..0x101];
      assert pkt[1..0x101] == p && pkt[0x101] == ChecksumOf(body);
      PeriodicChecksum(p, pkt);
    }
  }

  /** Beyond 16 bits the announced length is another one, so what comes back is never the payload. */
  lemma NotBeyond16Bits(p: seq<byte>, rest: seq<byte>, spare: seq<byte>)
    requires |p| > 0xFFFF
    ensures ReadStep(Encode(p) + rest, spare).0 != Payload(p)
  {
    var body := HeaderFor(|p|) + p;
    var data := body + [ChecksumOf(body)] + rest;
    assert Encode(p) + rest == [PACKET_START_BYTE] + data;
    ReadsFirst(data, spare);
    BigEndianTwo(|p| % 0x1_0000);
    assert data[1..3] == BigEndian(|p| % 0x1_0000, 2);
    FromBigEndianTwo(data[1..3]);
  }

  /** The exact reach of the round trip, for every payload the writer accepts. */
  lemma ReadBackExactly(p: seq<byte>, rest: seq<byte>, spare: seq<byte>)
    requires p != []
    ensures ReadStep(Encode(p) + rest, spare).0 == Payload(p) <==> Framable(|p|)
  {
    if Framable(|p|) {
      ReadBack(p, rest, spare);
    } else if |p| == 0x100 {
      NotAt256(p, rest, spare);
    } else {
      NotBeyond16Bits(p, rest, spare);
    }
  }

  // ---------------------------------------------------------------- short packets

  /** How many bytes behind the start byte a packet takes: header, payload and checksum. */
  function Announced(data: seq<byte>): nat
    requires |data| >= 3
  {
    if data[0] == 0 then 3 + (0x100 * data[1] as int + data[2] as int) + 1 else 1 + data[0] as int + 1
  }

  lemma HeaderMeans(data: seq<byte>)
    requires |data| >= 3
    ensures ParseHeader(data).Success?
    ensures var h := ParseHeader(data).value;
            h.payOff == (if data[0] == 0 then 3 else 1) && h.payOff + h.payLen + 1 == Announced(data)
  {
    FromBigEndianTwo(data[1..3]);
  }

  /** The header announces more bytes than are left. */
  predicate Short(data: seq<byte>) {
    |data| >= 3 && Announced(data) > |data|
  }

  /**
   A short packet is meant to give UnexpectedEOF.  It never does: the reslice either fails, or
   borrows bytes from the capacity and judges those.
   */
  lemma ShortPacketOutcome(data: seq<byte>, spare: seq<byte>)
    ensures ParsePacket(data, spare) == Malformed(UnexpectedEOF) <==> |data| < 3
    ensures Short(data) ==>
      var n := Announced(data);
      ReadStep([PACKET_START_BYTE] + data, spare).0
      == if n > |data + spare| || Sum((data + spare)[..n]) % 0x100 == 0 then Panic else Fault(InvalidChecksum)
  {
    ReadsFirst(data, spare);
    if |data| >= 3 {
      HeaderMeans(data);
    }
  }

  /** ReadPacket panics only on a short packet. */
  lemma PanicsOnlyWhenShort(data: seq<byte>, spare: seq<byte>)
    requires ReadStep([PACKET_START_BYTE] + data, spare).0 == Panic
    ensures Short(data)
  {
    ReadsFirst(data, spare);
    if |data| >= 3 {
      HeaderMeans(data);
    }
  }

  // ---------------------------------------------------------------- many packets

  lemma {:induction false} NoStartByte(frame: seq<byte>, spare: seq<byte>)
    ensures IndexByte(frame, PACKET_START_BYTE) < |frame| <==> PACKET_START_BYTE in frame
    ensures PACKET_START_BYTE !in frame <==> ScanFrame(frame, spare) == Scan([], 0, false)
  {
    if frame != [] && frame[0] != PACKET_START_BYTE {
      NoStartByte(frame[1..], spare);
    }
  }

  lemma ScanFirst(p: seq<byte>, rest: seq<byte>, spare: seq<byte>)
    requires Framable(|p|)
    ensures var later := ScanFrame(rest, spare);
            ScanFrame(Encode(p) + rest, spare) == Scan([p] + later.payloads, 1 + later.calls, later.panicked)
  {
    hide ReadStep, Encode;
    ReadBack(p, rest, spare);
  }

  /** Packets written one behind the other into a frame come back in order, zero padding and all. */
  lemma {:induction false} ScanRoundTrip(payloads: seq<seq<byte>>, padding: nat, spare: seq<byte>)
    requires forall p :: p in payloads ==> Framable(|p|)
    ensures ScanFrame(EncodeAll(payloads) + Zeros(padding), spare) == Scan(payloads, |payloads|, false)
  {
    hide ScanFrame, Encode, Zeros;
    if payloads == [] {
      assert EncodeAll(payloads) + Zeros(padding) == Zeros(padding);
      NoZeroStarts(padding, spare);
    } else {
      var p, others := payloads[0], payloads[1..];
      AppendAssociative(Encode(p), EncodeAll(others), Zeros(padding));
      ScanFirst(p, EncodeAll(others) + Zeros(padding), spare);
      ScanRoundTrip(others, padding, spare);
      assert payloads == [p] + others;
    }
  }

  lemma NoZeroStarts(padding: nat, spare: seq<byte>)
    ensures ScanFrame(Zeros(padding), spare) == Scan([], 0, false)
  {
    NoStartByte(Zeros(padding), spare);
  }

  function Count(b: byte, s: seq<byte>): nat {
    multiset(s)[b]
  }

  /** The loop makes at most one non-EOF call per start byte in the frame. */
  lemma {:induction false} CallsBounded(frame: seq<byte>, spare: seq<byte>)
    ensures ScanFrame(frame, spare).calls <= Count(PACKET_START_BYTE, frame)
    decreases |frame|
  {
    var next := IndexByte(frame, PACKET_START_BYTE);
    if next < |frame| {
      var (outcome, rest) := ReadStep(frame, spare);
      var skipped := frame[..|frame| - |rest|];
      Suffix(frame, spare);
      assert frame == skipped + rest;
      assert frame[next] == PACKET_START_BYTE && skipped[next] == frame[next];
      if outcome != Panic {
        CallsBounded(rest, spare);
      }
    }
  }

  lemma {:induction false} FoundAt(s: seq<byte>, b: byte)
    ensures var i := IndexByte(s, b); b !in s[..i] && (i < |s| ==> s[i] == b)
  {
    if s != [] && s[0] != b {
      FoundAt(s[1..], b);
      var i := IndexByte(s, b);
      assert s[..i] == [s[0]] + s[1..][..i - 1];
    }
  }

  lemma Suffix(frame: seq<byte>, spare: seq<byte>)
    ensures var rest := ReadStep(frame, spare).1;
            var next := IndexByte(frame, PACKET_START_BYTE);
            |rest| <= |frame| && rest == frame[|frame| - |rest|..] &&
            (next < |frame| ==> frame[next] == PACKET_START_BYTE && |rest| <= |frame| - next - 1)
  {
    FoundAt(frame, PACKET_START_BYTE);
    var next := IndexByte(frame, PACKET_START_BYTE);
    if next < |frame| {
      var data := frame[next + 1..];
      var parsed := ParsePacket(data, spare);
      if parsed.Packet? && parsed.pktLen <= |data| {
        assert data[parsed.pktLen..] == frame[next + 1 + parsed.pktLen..];
      }
    }
  }

  // ---------------------------------------------------------------- what a scan finds

  /** A complete packet with payload `p` has its start byte at `s`. */
  predicate PacketAt(frame: seq<byte>, s: nat, p: seq<byte>) {
    s < |frame| && frame[s] == PACKET_START_BYTE && Framed(frame[s + 1..], p)
  }

  ghost predicate NoPacketAt(frame: seq<byte>, s: nat) {
    forall p :: !PacketAt(frame, s, p)
  }

  /** `data` begins with the length of `p`, in one byte or as 0 and two, then `p`, then what makes the sum zero. */
  predicate Framed(data: seq<byte>, p: seq<byte>) {
    |data| >= 3 && Announced(data) <= |data| && Sum(data[..Announced(data)]) % 0x100 == 0 &&
    p == data[if data[0] == 0 then 3 else 1..Announced(data) - 1]
  }

  /** Where the packet with its start byte at `s` ends. */
  function PacketEnd(frame: seq<byte>, s: nat): nat
    requires s < |frame| && |frame| - s > 3
  {
    s + 1 + Announced(frame[s + 1..])
  }

  lemma ParsedIffFramed(data: seq<byte>, spare: seq<byte>, p: seq<byte>)
    ensures Framed(data, p) <==>
      var parsed := ParsePacket(data, spare);
      parsed.Packet? && parsed.payload == p && parsed.pktLen <= |data|
    ensures Framed(data, p) ==> ParsePacket(data, spare).pktLen == Announced(data)
  {
    if |data| >= 3 {
      HeaderMeans(data);
      var h, n := ParseHeader(data).value, Announced(data);
      if n <= |data| {
        assert (data + spare)[..n] == data[..n];
        assert data[..n][h.payOff..h.payOff + h.payLen] == data[h.payOff..h.payOff + h.payLen];
      }
    }
  }

  /** The start bytes, from `pos` on, of the packets that the scan delivers. */
  function Places(frame: seq<byte>, pos: nat, spare: seq<byte>): seq<nat>
    requires pos <= |frame|
    decreases |frame| - pos
  {
    var s := pos + IndexByte(frame[pos..], PACKET_START_BYTE);
    var (outcome, rest) := ReadStep(frame[pos..], spare);
    if outcome == Fault(EOF) || outcome == Panic then []
    else
      var later := Places(frame, |frame| - |rest|, spare);
      if outcome.Payload? then [s] + later else later
  }

  lemma StepEOF(frame: seq<byte>, spare: seq<byte>)
    ensures ReadStep(frame, spare).0 == Fault(EOF) <==> IndexByte(frame, PACKET_START_BYTE) == |frame|
  {
  }

  /** One call passes no start byte before the one it stops at, and leaves a suffix of the frame. */
  lemma StepSkips(frame: seq<byte>, pos: nat, spare: seq<byte>)
    requires pos <= |frame|
    ensures var (outcome, rest) := ReadStep(frame[pos..], spare);
            var s := pos + IndexByte(frame[pos..], PACKET_START_BYTE);
            (forall t :: pos <= t < s ==> frame[t] != PACKET_START_BYTE) &&
            |rest| <= |frame| - pos && rest == frame[|frame| - |rest|..] &&
            if outcome == Fault(EOF) then s == |frame| else s < |frame| - |rest|
  {
    hide ReadStep, IndexByte;
    var tail := frame[pos..];
    var next := IndexByte(tail, PACKET_START_BYTE);
    var rest := ReadStep(tail, spare).1;
    StepEOF(tail, spare);
    Suffix(tail, spare);
    FoundAt(tail, PACKET_START_BYTE);
    assert tail[|tail| - |rest|..] == frame[|frame| - |rest|..];
    forall t | pos <= t < pos + next ensures frame[t] != PACKET_START_BYTE {
      assert frame[t] == tail[..next][t - pos];
    }
  }

  /** And there it finds the packet, exactly when there is one. */
  lemma StepFinds(frame: seq<byte>, pos: nat, spare: seq<byte>)
    requires pos <= |frame|
    ensures var (outcome, rest) := ReadStep(frame[pos..], spare);
            var s := pos + IndexByte(frame[pos..], PACKET_START_BYTE);
            (outcome.Payload? ==>
               s + 3 < |frame| && PacketAt(frame, s, outcome.payload) && |frame| - |rest| == PacketEnd(frame, s)) &&
            (outcome.Fault? && s < |frame| ==> |rest| == |frame| - s - 1 && NoPacketAt(frame, s))
  {
    var tail := frame[pos..];
    var next := IndexByte(tail, PACKET_START_BYTE);
    FoundAt(tail, PACKET_START_BYTE);
    if next < |tail| {
      var data := tail[next + 1..];
      assert data == frame[pos + next + 1..];
      var parsed := ParsePacket(data, spare);
      forall p {:trigger Framed(data, p)}
        ensures Framed(data, p) <==> parsed.Packet? && parsed.payload == p && parsed.pktLen <= |data|
      {
        ParsedIffFramed(data, spare, p);
      }
    }
    hide IndexByte;
  }

  /** `payloads` are those of complete packets at `places`, from `pos` on, in order and without overlap. */
  predicate Sound(frame: seq<byte>, pos: nat, places: seq<nat>, payloads: seq<seq<byte>>) {
    |places| == |payloads| &&
    (forall i :: 0 <= i < |places| ==> pos <= places[i] && PacketAt(frame, places[i], payloads[i])) &&
    (forall i, j :: 0 <= i < j < |places| ==> PacketEnd(frame, places[i]) <= places[j])
  }

  /** Every complete packet from `pos` on has its start byte inside one of the packets at `places`. */
  ghost predicate Covering(frame: seq<byte>, pos: nat, places: seq<nat>) {
    forall s, p :: pos <= s && PacketAt(frame, s, p) ==> Inside(frame, places, s)
  }

  predicate Inside(frame: seq<byte>, places: seq<nat>, s: nat) {
    exists i :: 0 <= i < |places| && places[i] + 3 < |frame| && places[i] <= s < PacketEnd(frame, places[i])
  }

  lemma InsideLater(frame: seq<byte>, earlier: seq<nat>, later: seq<nat>, s: nat)
    requires Inside(frame, later, s)
    ensures Inside(frame, earlier + later, s)
  {
    var i :| 0 <= i < |later| && later[i] + 3 < |frame| && later[i] <= s < PacketEnd(frame, later[i]);
    assert (earlier + later)[|earlier| + i] == later[i];
  }

  lemma SoundCons(frame: seq<byte>, pos: nat, s: nat, p: seq<byte>, next: nat, places: seq<nat>, ps: seq<seq<byte>>)
    requires pos <= s && PacketAt(frame, s, p) && PacketEnd(frame, s) == next
    requires Sound(frame, next, places, ps)
    ensures Sound(frame, pos, [s] + places, [p] + ps)
  {
    hide Announced, Sum;
    var places', ps' := [s] + places, [p] + ps;
    assert forall i :: 1 <= i < |places'| ==> places'[i] == places[i - 1] && ps'[i] == ps[i - 1];
  }

  lemma CoveringFound(frame: seq<byte>, pos: nat, s: nat, next: nat, places: seq<nat>)
    requires pos <= s < next && s + 3 < |frame| && PacketEnd(frame, s) == next
    requires forall t :: pos <= t < s ==> frame[t] != PACKET_START_BYTE
    requires Covering(frame, next, places)
    ensures Covering(frame, pos, [s] + places)
  {
    forall t, p | pos <= t && PacketAt(frame, t, p) ensures Inside(frame, [s] + places, t) {
      if t >= next {
        InsideLater(frame, [s], places, t);
      } else {
        assert t >= s && ([s] + places)[0] == s;
      }
    }
  }

  lemma CoveringNone(frame: seq<byte>, pos: nat)
    requires forall t :: pos <= t < |frame| ==> frame[t] != PACKET_START_BYTE
    ensures Covering(frame, pos, [])
  {
  }

  lemma CoveringTried(frame: seq<byte>, pos: nat, s: nat, places: seq<nat>)
    requires pos <= s <= |frame| && NoPacketAt(frame, s)
    requires forall t :: pos <= t < s ==> frame[t] != PACKET_START_BYTE
    requires Covering(frame, s + 1, places)
    ensures Covering(frame, pos, places)
  {
    forall t, p | pos <= t && PacketAt(frame, t, p) ensures Inside(frame, places, t) {
      assert t >= s;
    }
  }

  lemma ScanUnfold(frame: seq<byte>, spare: seq<byte>)
    ensures var (outcome, rest) := ReadStep(frame, spare);
            var payloads := ScanFrame(frame, spare).payloads;
            if outcome == Fault(EOF) || outcome == Panic then payloads == []
            else payloads == Found(outcome, ScanFrame(rest, spare).payloads)
  {
  }

  lemma PlacesUnfold(frame: seq<byte>, pos: nat, spare: seq<byte>)
    requires pos <= |frame|
    ensures var (outcome, rest) := ReadStep(frame[pos..], spare);
            var s := pos + IndexByte(frame[pos..], PACKET_START_BYTE);
            var next := |frame| - |rest|;
            if outcome == Fault(EOF) || outcome == Panic then Places(frame, pos, spare) == []
            else
              pos < next <= |frame| &&
              Places(frame, pos, spare)
              == if outcome.Payload? then [s] + Places(frame, next, spare) else Places(frame, next, spare)
  {
    hide ParsePacket, IndexByte;
  }

  /** The scan delivers, in order, payloads of complete packets that do not overlap. */
  lemma {:induction false} ScanSound(frame: seq<byte>, pos: nat, spare: seq<byte>)
    requires pos <= |frame|
    ensures Sound(frame, pos, Places(frame, pos, spare), ScanFrame(frame[pos..], spare).payloads)
    decreases |frame| - pos
  {
    hide ScanFrame, Places, ReadStep, IndexByte;
    var (outcome, rest) := ReadStep(frame[pos..], spare);
    ScanUnfold(frame[pos..], spare);
    PlacesUnfold(frame, pos, spare);
    if outcome != Fault(EOF) && outcome != Panic {
      var next := |frame| - |rest|;
      StepSkips(frame, pos, spare);
      StepFinds(frame, pos, spare);
      assert frame[next..] == rest;
      ScanSound(frame, next, spare);
      if outcome.Payload? {
        var s := pos + IndexByte(frame[pos..], PACKET_START_BYTE);
        SoundCons(frame, pos, s, outcome.payload, next, Places(frame, next, spare), ScanFrame(rest, spare).payloads);
      }
    }
  }

  lemma PanicsLater(frame: seq<byte>, spare: seq<byte>)
    ensures var (outcome, rest) := ReadStep(frame, spare);
            ScanFrame(frame, spare).panicked
            <==> outcome == Panic || (outcome != Fault(EOF) && ScanFrame(rest, spare).panicked)
  {
  }

  /** And unless it panics it misses nothing: every other start byte begins no complete packet. */
  lemma {:induction false} ScanComplete(frame: seq<byte>, pos: nat, spare: seq<byte>)
    requires pos <= |frame| && !ScanFrame(frame[pos..], spare).panicked
    ensures Covering(frame, pos, Places(frame, pos, spare))
    decreases |frame| - pos
  {
    hide ScanFrame, Places, ReadStep, IndexByte, PacketAt, NoPacketAt, PacketEnd, Inside, Covering;
    var (outcome, rest) := ReadStep(frame[pos..], spare);
    var s := pos + IndexByte(frame[pos..], PACKET_START_BYTE);
    var next := |frame| - |rest|;
    PanicsLater(frame[pos..], spare);
    PlacesUnfold(frame, pos, spare);
    StepSkips(frame, pos, spare);
    StepFinds(frame, pos, spare);
    if outcome == Fault(EOF) {
      CoveringNone(frame, pos);
    } else {
      assert frame[next..] == rest;
      ScanComplete(frame, next, spare);
      if outcome.Payload? {
        CoveringFound(frame, pos, s, next, Places(frame, next, spare));
      } else {
        CoveringTried(frame, pos, s, Places(frame, next, spare));
      }
    }
  }
}

/** Commands on the wire (cmd.go): ids, optional transactions and payloads, with transaction mode as state. */
module Commands {
  import opened Bytes
  import opened Sequences
  import opened Lingos

  /**
   A payload as far as the codec is concerned: a value of a registered type with its binary form, raw
   bytes of an unknown command, or a value whose marshalling fails.
   */
  datatype Payload = Typed(t: PayloadType, bytes: seq<byte>) | Unknown(bytes: seq<byte>) | NotMarshalable

  /** `payload` is None for Go's nil payload. */
  datatype Command = Command(id: uint32, transaction: Option<uint16>, payload: Option<Payload>)

  const REQUEST_IDENTIFY: uint32 := NewLingoCmdID(LINGO_GENERAL_ID, 0x00)
  const IDENTIFY_DEVICE_LINGOES: uint32 := NewLingoCmdID(LINGO_GENERAL_ID, 0x13)
  const START_IDPS: uint32 := NewLingoCmdID(LINGO_GENERAL_ID, 0x38)

  /** Whether transactions are on after a command with this id. */
  function ModeAfter(enabled: bool, id: uint32): bool {
    if id == REQUEST_IDENTIFY || id == IDENTIFY_DEVICE_LINGOES then false
    else if id == START_IDPS then true
    else enabled
  }

  function TrxBytes(transaction: Option<uint16>): seq<byte> {
    if transaction.Some? then BigEndian(transaction.value, 2) else []
  }

  /** The packet for a command when transactions are on or off by then. */
  function Encode(enabled: bool, cmd: Command): Result<seq<byte>, Error> {
    match cmd.payload
    case None => Failure(NilPayload)
    case Some(NotMarshalable) => Failure(Unencodable)
    case Some(p) => Success(MarshalID(cmd.id) + (if enabled then TrxBytes(cmd.transaction) else []) + p.bytes)
  }

  /** What follows the id, read as the type that Lookup chose; a variable-size payload is taken as it is. */
  function DecodeBody(id: uint32, body: seq<byte>, found: LookupResult): (Command, Option<Error>) {
    if found.transaction && |body| < 2 then (Command(id, None, None), Some(ShortPacket))
    else
      TwoByteRange(body);
      var transaction := if found.transaction then Some(FromBigEndian(body[..2])) else None;
      var rest := if found.transaction then body[2..] else body;
      var size := found.payload.size;
      if size.Some? && |rest| < size.value then (Command(id, transaction, None), Some(ShortPacket))
      else
        var bytes := if size.Some? then rest[..size.value] else rest;
        (Command(id, transaction, Some(Typed(found.payload, bytes))), None)
  }

  lemma TwoByteRange(body: seq<byte>)
    ensures |body| >= 2 ==> FromBigEndian(body[..2]) < 0x1_0000
  {
    if |body| >= 2 {
      FromBigEndianRoundTrip(body[..2]);
      assert Range(1) == 0x100 * Range(0) && Range(2) == 0x100 * Range(1);
    }
  }

  function Decode(types: Types, enabled: bool, id: uint32, body: seq<byte>): (Command, Option<Error>) {
    var found := if id in types then LookupIn(types[id], |body|, enabled) else None;
    if found == None then (Command(id, None, Some(Unknown(body))), Some(UnknownCommand))
    else DecodeBody(id, body, found.value)
  }

  /** What the receiver makes of a packet: the command, an error, and its mode afterwards. */
  function Receive(types: Types, enabled: bool, pkt: seq<byte>): ((Command, Option<Error>), bool) {
    match UnmarshalID(pkt)
    case Failure(e) => ((Command(0, None, None), Some(e)), enabled)
    case Success((id, body)) => (Decode(types, ModeAfter(enabled, id), id, body), ModeAfter(enabled, id))
  }

  // ---------------------------------------------------------------- the bytes

  /** The mode that a command leaves behind, whether it is sent or received. */
  predicate IsModeAfter(before: bool, id: uint32, after: bool) {
    after == if id == 0x00 || id == 0x13 then false else if id == 0x38 then true else before
  }

  /**
   A command on the wire: the lingo; the command in one byte, or in two for the extended interface, high
   byte first; with transactions on and a transaction given, its two bytes, high byte first; the payload.
   */
  predicate IsPacket(pkt: seq<byte>, enabled: bool, cmd: Command)
    requires cmd.payload.Some? && !cmd.payload.value.NotMarshalable?
  {
    var lingo, command := cmd.id / 0x1_0000 % 0x100, cmd.id % 0x1_0000;
    var w := if lingo == 0x04 then 3 else 2;
    var t := if enabled && cmd.transaction.Some? then 2 else 0;
    |pkt| == w + t + |cmd.payload.value.bytes| && pkt[0] == lingo && pkt[w - 1] == command % 0x100 &&
    (lingo == 0x04 ==> pkt[1] == command / 0x100) &&
    (t == 2 ==> pkt[w] == cmd.transaction.value / 0x100 && pkt[w + 1] == cmd.transaction.value % 0x100) &&
    pkt[w + t..] == cmd.payload.value.bytes
  }

  lemma {:induction false} EncodedIsPacket(enabled: bool, cmd: Command)
    ensures Encode(enabled, cmd).Success? <==> cmd.payload.Some? && !cmd.payload.value.NotMarshalable?
    ensures Encode(enabled, cmd).Success? ==> IsPacket(Encode(enabled, cmd).value, enabled, cmd)
  {
    BigEndianTwo(CmdID(cmd.id));
    if cmd.transaction.Some? {
      BigEndianTwo(cmd.transaction.value);
    }
    hide BigEndian;
  }

  /** The packet is fully described. */
  lemma {:induction false} PacketUnique(pkt: seq<byte>, other: seq<byte>, enabled: bool, cmd: Command)
    requires cmd.payload.Some? && !cmd.payload.value.NotMarshalable?
    requires IsPacket(pkt, enabled, cmd) && IsPacket(other, enabled, cmd)
    ensures pkt == other
  {
    var k := |pkt| - |cmd.payload.value.bytes|;
    assert pkt == pkt[..k] + pkt[k..] && other == other[..k] + other[k..];
    assert pkt[..k] == other[..k];
  }

  /** How many bytes of a packet are its id, and the id they stand for. */
  function HeadLen(pkt: seq<byte>): nat {
    if pkt != [] && pkt[0] == 0x04 then 3 else 2
  }

  function HeadID(pkt: seq<byte>): uint32
    requires |pkt| >= HeadLen(pkt)
  {
    0x1_0000 * pkt[0] as int + if pkt[0] == 0x04 then 0x100 * pkt[1] as int + pkt[2] as int else pkt[1] as int
  }

  /** What is made of the bytes behind the id, when the lookup gave `found`. */
  predicate IsCommand(id: uint32, body: seq<byte>, found: Option<LookupResult>, cmd: Command, err: Option<Error>) {
    match found
    case None => cmd == Command(id, None, Some(Unknown(body))) && err == Some(UnknownCommand)
    case Some(f) =>
      var t := if f.transaction then 2 else 0;
      if |body| < t then cmd == Command(id, None, None) && err == Some(ShortPacket)
      else
        var trx := if f.transaction then Some(0x100 * body[0] as int + body[1] as int) else None;
        var n := if f.payload.size.Some? then f.payload.size.value else |body| - t;
        if |body| < t + n then cmd == Command(id, trx, None) && err == Some(ShortPacket)
        else cmd == Command(id, trx, Some(Typed(f.payload, body[t..t + n]))) && err == None
  }

  lemma {:induction false} BodyMeans(id: uint32, body: seq<byte>, found: LookupResult)
    ensures var (cmd, err) := DecodeBody(id, body, found);
            IsCommand(id, body, Some(found), cmd, err)
  {
    if found.transaction && |body| >= 2 {
      FromBigEndianTwo(body[..2]);
      TwoByteRange(body);
    }
    hide FromBigEndian;
    var t := if found.transaction then 2 else 0;
    var n := if found.payload.size.Some? then found.payload.size.value else |body| - t;
    if |body| >= t {
      assert body[0..] == body && body[t..|body|] == body[t..];
      if |body| >= t + n {
        assert body[t..][..n] == body[t..t + n];
      }
    }
  }

  /** What is received of any packet, byte by byte. */
  lemma {:induction false} ReceivedMeans(types: Types, enabled: bool, pkt: seq<byte>)
    returns (found: Option<LookupResult>)
    ensures var ((cmd, err), after) := Receive(types, enabled, pkt);
            if |pkt| < HeadLen(pkt) then cmd == Command(0, None, None) && err == Some(ShortPacket) && after == enabled
            else
              var id, body := HeadID(pkt), pkt[HeadLen(pkt)..];
              IsModeAfter(enabled, id, after) && IsCommand(id, body, found, cmd, err) &&
              if id in types then IsLookup(types[id], |body|, after, found) else found == None
  {
    found := None;
    if |pkt| >= HeadLen(pkt) {
      HeadMeans(pkt);
      var id, body := HeadID(pkt), pkt[HeadLen(pkt)..];
      var after := ModeAfter(enabled, id);
      if id in types {
        found := LookupIn(types[id], |body|, after);
        LookupMeans(types[id], |body|, after);
        if found.Some? {
          BodyMeans(id, body, found.value);
        }
      }
      hide DecodeBody, IsLookup, LookupIn, HeadID;
    }
  }

  lemma {:induction false} HeadMeans(pkt: seq<byte>)
    requires |pkt| >= HeadLen(pkt)
    ensures UnmarshalID(pkt) == Success((HeadID(pkt), pkt[HeadLen(pkt)..]))
  {
    if pkt[0] == 0x04 {
      FromBigEndianTwo(pkt[1..3]);
    } else {
      OneByte(pkt[1]);
      assert pkt[1..2] == [pkt[1]];
    }
  }

  class CommandSerde {
    var TrxEnabled: bool

    constructor (enabled: bool)
      ensures TrxEnabled == enabled
    {
      TrxEnabled := enabled;
    }

    method HandleCmdID(id: uint32)
      modifies this
      ensures TrxEnabled == ModeAfter(old(TrxEnabled), id) && IsModeAfter(old(TrxEnabled), id, TrxEnabled)
    {
      if id == REQUEST_IDENTIFY {
        TrxEnabled := false;
      } else if id == IDENTIFY_DEVICE_LINGOES {
        TrxEnabled := false;
      } else if id == START_IDPS {
        TrxEnabled := true;
      }
    }

    /** The mode changes even when the payload then turns out not to marshal. */
    method MarshalCmd(cmd: Command) returns (r: Result<seq<byte>, Error>)
      modifies this
      ensures TrxEnabled == ModeAfter(old(TrxEnabled), cmd.id)
      ensures r == Encode(TrxEnabled, cmd)
      ensures r.Success? <==> cmd.payload.Some? && !cmd.payload.value.NotMarshalable?
      ensures r.Success? ==> IsPacket(r.value, TrxEnabled, cmd)
    {
      EncodedIsPacket(ModeAfter(TrxEnabled, cmd.id), cmd);
      hide IsPacket;
      var pktBuf := MarshalID(cmd.id);
      HandleCmdID(cmd.id);
      if TrxEnabled && cmd.transaction.Some? {
        pktBuf := pktBuf + BigEndian(cmd.transaction.value, 2);
      }
      if cmd.payload == None {
        return Failure(NilPayload);
      }
      if cmd.payload.value.NotMarshalable? {
        return Failure(Unencodable);
      }
      assert MarshalID(cmd.id) + [] == MarshalID(cmd.id);
      r := Success(pktBuf + cmd.payload.value.bytes);
    }

    method UnmarshalCmd(types: Types, pkt: seq<byte>) returns (cmd: Command, err: Option<Error>)
      modifies this
      ensures ((cmd, err), TrxEnabled) == Receive(types, old(TrxEnabled), pkt)
    {
      var head := UnmarshalID(pkt);
      if head.Failure? {
        return Command(0, None, None), Some(head.error);
      }
      var (id, pktBuf) := head.value;
      HandleCmdID(id);
      var lookup := Lookup(types, id, |pktBuf|, TrxEnabled);
      if lookup == None {
        return Command(id, None, Some(Unknown(pktBuf))), Some(UnknownCommand);
      }
      var transaction: Option<uint16> := None;
      if lookup.value.transaction {
        if |pktBuf| < 2 {
          return Command(id, None, None), Some(ShortPacket);
        }
        TwoByteRange(pktBuf);
        transaction := Some(FromBigEndian(pktBuf[..2]));
        pktBuf := pktBuf[2..];
      }
      var size := lookup.value.payload.size;
      if size.Some? {
        if |pktBuf| < size.value {
          return Command(id, transaction, None), Some(ShortPacket);
        }
        pktBuf := pktBuf[..size.value];
      }
      cmd := Command(id, transaction, Some(Typed(lookup.value.payload, pktBuf)));
      err := None;
    }
  }

  // ---------------------------------------------------------------- one command

  /** A command that Go code builds: a registered type, and as many bytes as a fixed-size type has. */
  predicate Sendable(types: Types, cmd: Command, j: nat) {
    FitsWidth(cmd.id) && cmd.id in types && j < |types[cmd.id]| && DistinctTypes(types[cmd.id]) &&
    match cmd.payload
    case Some(Typed(t, bytes)) => t == types[cmd.id][j] && (t.size.Some? ==> |bytes| == t.size.value)
    case _ => false
  }

  /** The command as the receiver can see it: transactions exist only while they are on. */
  function AsReceived(enabled: bool, cmd: Command): Command {
    cmd.(transaction := if enabled then cmd.transaction else None)
  }

  /** No earlier type matches the length; a variable size has no rival and a transaction whenever they are on. */
  predicate Recoverable(types: seq<PayloadType>, j: nat, enabled: bool, hasTransaction: bool)
    requires j < |types|
  {
    match types[j].size
    case Some(size) => forall i :: 0 <= i < j ==> !Matches(types[i], WireSize(size, enabled && hasTransaction))
    case None => |types| == 1 && (enabled ==> hasTransaction)
  }

  /** What follows the id in the packet. */
  function Body(enabled: bool, cmd: Command): seq<byte>
    requires cmd.payload.Some? && cmd.payload.value.Typed?
  {
    (if enabled then TrxBytes(cmd.transaction) else []) + cmd.payload.value.bytes
  }

  lemma TransactionRead(transaction: uint16, bytes: seq<byte>)
    ensures var body := BigEndian(transaction, 2) + bytes;
            FromBigEndian(body[..2]) == transaction && body[2..] == bytes
  {
    var body := BigEndian(transaction, 2) + bytes;
    assert body[..2] == BigEndian(transaction, 2);
    assert Range(1) == 0x100 * Range(0) && Range(2) == 0x100 * Range(1);
    BigEndianRoundTrip(transaction, 2);
  }

  /** A command decodes to itself exactly when its type is recoverable from the length of the packet. */
  lemma BodyDecodesExactly(types: Types, enabled: bool, cmd: Command, j: nat)
    requires Sendable(types, cmd, j)
    ensures Decode(types, enabled, cmd.id, Body(enabled, cmd)) == (AsReceived(enabled, cmd), None)
       <==> Recoverable(types[cmd.id], j, enabled, cmd.transaction.Some?)
  {
    var ts, body, t := types[cmd.id], Body(enabled, cmd), cmd.payload.value.t;
    var bytes := cmd.payload.value.bytes;
    var trx := enabled && cmd.transaction.Some?;
    if trx {
      TransactionRead(cmd.transaction.value, bytes);
    } else {
      assert body == bytes;
    }
    var found := LookupIn(ts, |body|, enabled);
    if t.size.Some? {
      FixedRecoveredExactly(ts, j, trx, enabled);
      assert bytes[..t.size.value] == bytes;
    } else {
      VariableRecoveredExactly(ts, j, |body|, trx, enabled);
    }
    if found == Some(LookupResult(t, trx)) {
      assert DecodeBody(cmd.id, body, found.value) == (AsReceived(enabled, cmd), None);
    } else if found.Some? {
      FoundDecides(cmd.id, body, found.value);
    }
  }

  /** The type and the presence of a transaction in what was decoded are those that Lookup chose. */
  lemma FoundDecides(id: uint32, body: seq<byte>, found: LookupResult)
    ensures var (cmd, err) := DecodeBody(id, body, found);
            err == None ==> cmd.payload.Some? && cmd.payload.value.Typed? && cmd.payload.value.t == found.payload &&
                            (cmd.transaction.Some? <==> found.transaction)
  {
  }

  /** The same for whole packets: the receiver, in the sender's mode, ends in the sender's mode. */
  lemma PacketDecodesExactly(types: Types, enabled: bool, cmd: Command, j: nat)
    requires Sendable(types, cmd, j)
    ensures var mode := ModeAfter(enabled, cmd.id);
            var pkt := Encode(mode, cmd);
            pkt.Success? &&
            Receive(types, enabled, pkt.value).1 == mode &&
            (Receive(types, enabled, pkt.value).0 == (AsReceived(mode, cmd), None)
             <==> Recoverable(types[cmd.id], j, mode, cmd.transaction.Some?))
  {
    var mode := ModeAfter(enabled, cmd.id);
    var pkt := Encode(mode, cmd);
    assert pkt.value == MarshalID(cmd.id) + Body(mode, cmd);
    IDRoundTripExactly(cmd.id, Body(mode, cmd));
    BodyDecodesExactly(types, mode, cmd, j);
  }

  // ---------------------------------------------------------------- sessions

  /** The packets that sendCmds emits for a list of commands; a command that fails to marshal is skipped. */
  function PacketsFor(enabled: bool, cmds: seq<Command>): seq<seq<byte>>
    decreases cmds
  {
    if cmds == [] then []
    else
      var mode := ModeAfter(enabled, cmds[0].id);
      var later := PacketsFor(mode, cmds[1..]);
      var pkt := Encode(mode, cmds[0]);
      if pkt.Success? then [pkt.value] + later else later
  }

  function SenderMode(enabled: bool, cmds: seq<Command>): bool
    decreases cmds
  {
    if cmds == [] then enabled else SenderMode(ModeAfter(enabled, cmds[0].id), cmds[1..])
  }

  function Received(types: Types, enabled: bool, pkts: seq<seq<byte>>): seq<(Command, Option<Error>)>
    decreases pkts
  {
    if pkts == [] then []
    else
      var (r, mode) := Receive(types, enabled, pkts[0]);
      [r] + Received(types, mode, pkts[1..])
  }

  function ReceiverMode(types: Types, enabled: bool, pkts: seq<seq<byte>>): bool
    decreases pkts
  {
    if pkts == [] then enabled else ReceiverMode(types, Receive(types, enabled, pkts[0]).1, pkts[1..])
  }

  predicate AllSendable(types: Types, cmds: seq<Command>, js: seq<nat>) {
    |js| == |cmds| && forall i :: 0 <= i < |cmds| ==> Sendable(types, cmds[i], js[i])
  }

  predicate AllRecoverable(types: Types, enabled: bool, cmds: seq<Command>, js: seq<nat>)
    requires AllSendable(types, cmds, js)
    decreases cmds
  {
    cmds == [] ||
    var mode := ModeAfter(enabled, cmds[0].id);
    Recoverable(types[cmds[0].id], js[0], mode, cmds[0].transaction.Some?) &&
    AllRecoverable(types, mode, cmds[1..], js[1..])
  }

  function Expected(enabled: bool, cmds: seq<Command>): seq<(Command, Option<Error>)>
    decreases cmds
  {
    if cmds == [] then []
    else
      var mode := ModeAfter(enabled, cmds[0].id);
      [(AsReceived(mode, cmds[0]), None)] + Expected(mode, cmds[1..])
  }

  /**
   A session between two serdes that start in the same mode: they stay in the same mode, and every
   command arrives as itself exactly when every one is recoverable in the mode it is sent in.
   */
  lemma {:induction false} SessionExactly(types: Types, enabled: bool, cmds: seq<Command>, js: seq<nat>)
    requires AllSendable(types, cmds, js)
    ensures var pkts := PacketsFor(enabled, cmds);
            ReceiverMode(types, enabled, pkts) == SenderMode(enabled, cmds) &&
            |Received(types, enabled, pkts)| == |cmds| &&
            (Received(types, enabled, pkts) == Expected(enabled, cmds) <==> AllRecoverable(types, enabled, cmds, js))
    decreases cmds
  {
    if cmds != [] {
      var mode := ModeAfter(enabled, cmds[0].id);
      PacketDecodesExactly(types, enabled, cmds[0], js[0]);
      SessionExactly(types, mode, cmds[1..], js[1..]);
      var pkts, later := PacketsFor(enabled, cmds), PacketsFor(mode, cmds[1..]);
      assert pkts[1..] == later;
      var r := Receive(types, enabled, pkts[0]).0;
      var received, expected := Received(types, mode, later), Expected(mode, cmds[1..]);
      assert Received(types, enabled, pkts) == [r] + received;
      ConsEqual(r, received, (AsReceived(mode, cmds[0]), None), expected);
    }
  }

  // ---------------------------------------------------------------- both directions

  /** A command on its way, to or from the accessory. */
  datatype Exchange = Exchange(outgoing: bool, cmd: Command)

  function CommandsOf(xs: seq<Exchange>): (cmds: seq<Command>)
    ensures |cmds| == |xs|
  {
    seq(|xs|, i requires 0 <= i < |xs| => xs[i].cmd)
  }

  /**
   Each side has one serde for both directions.  What arrives, on whichever side, when every command
   arrives before the next is sent; and the two modes at the end.
   */
  function Converse(types: Types, here: bool, there: bool, xs: seq<Exchange>)
    : (seq<(Command, Option<Error>)>, bool, bool)
    decreases xs
  {
    if xs == [] then ([], here, there)
    else
      var Exchange(outgoing, cmd) := xs[0];
      var sender := ModeAfter(if outgoing then here else there, cmd.id);
      match Encode(sender, cmd)
      case Failure(_) =>
        if outgoing then Converse(types, sender, there, xs[1..]) else Converse(types, here, sender, xs[1..])
      case Success(pkt) =>
        var (r, receiver) := Receive(types, if outgoing then there else here, pkt);
        var (rs, here', there') :=
          if outgoing then Converse(types, sender, receiver, xs[1..]) else Converse(types, receiver, sender, xs[1..]);
        ([r] + rs, here', there')
  }

  lemma ConverseStep(types: Types, enabled: bool, xs: seq<Exchange>, j: nat)
    requires xs != [] && Sendable(types, xs[0].cmd, j)
    ensures var mode := ModeAfter(enabled, xs[0].cmd.id);
            var r := Receive(types, enabled, Encode(mode, xs[0].cmd).value).0;
            var (rs, here, there) := Converse(types, mode, mode, xs[1..]);
            Converse(types, enabled, enabled, xs) == ([r] + rs, here, there)
  {
    PacketDecodesExactly(types, enabled, xs[0].cmd, j);
    hide Sendable, Recoverable, Encode, Receive;
  }

  /**
   As long as every command arrives before the next is sent, and however the directions alternate,
   both sides keep the same mode, and the same condition decides what arrives.
   */
  lemma {:induction false} ConversationExactly(types: Types, enabled: bool, xs: seq<Exchange>, js: seq<nat>)
    requires AllSendable(types, CommandsOf(xs), js)
    ensures var (received, here, there) := Converse(types, enabled, enabled, xs);
            here == there == SenderMode(enabled, CommandsOf(xs)) &&
            (received == Expected(enabled, CommandsOf(xs)) <==> AllRecoverable(types, enabled, CommandsOf(xs), js))
    decreases xs
  {
    if xs != [] {
      var cmd, mode := xs[0].cmd, ModeAfter(enabled, xs[0].cmd.id);
      assert CommandsOf(xs)[1..] == CommandsOf(xs[1..]);
      PacketDecodesExactly(types, enabled, cmd, js[0]);
      ConverseStep(types, enabled, xs, js[0]);
      hide Converse, Encode, Receive, Sendable, Recoverable;
      ConversationExactly(types, mode, xs[1..], js[1..]);
      var r := Receive(types, enabled, Encode(mode, cmd).value).0;
      ConsEqual(r, Converse(types, mode, mode, xs[1..]).0,
                (AsReceived(mode, cmd), None), Expected(mode, CommandsOf(xs[1..])));
    }
  }
}

/**
 Authentication: the accessory's certificate, which arrives in sections
 (lingo-general/general.go, lingo-general/handler.go, the replying half of cmd.go).
 */
module Authentication {
  import opened Bytes
  import opened Sequences
  import opened Hid
  import opened Lingos
  import opened Commands
  import DumpTraces
  import HidDecoderLaws
  import Sessions
  import Stack

  const RET_DEV_AUTHENTICATION_INFO: uint32 := NewLingoCmdID(LINGO_GENERAL_ID, 0x15)
  const INFO_TYPE := PayloadType("RetDevAuthenticationInfo", None)
  const STATUS_SUCCESS: byte := 0x00
  const STATUS_SUPPORTED: byte := 0x00

  // ---------------------------------------------------------------- the message

  datatype Info = Info(major: byte, minor: byte, currentSection: byte, maxSection: byte, certData: seq<byte>)

  function MarshalInfo(info: Info): seq<byte> {
    [info.major, info.minor]
    + (if info.major >= 2 then [info.currentSection, info.maxSection] else [])
    + info.certData
  }

  function UnmarshalInfo(s: seq<byte>): Result<Info, Lingos.Error> {
    if |s| < 2 then Failure(ShortPacket)
    else if s[0] < 2 then Success(Info(s[0], s[1], 0, 0, []))
    else if |s| < 4 then Failure(ShortPacket)
    else Success(Info(s[0], s[1], s[2], s[3], s[4..]))
  }

  /** Version 1 has no certificate, so whatever a version 1 message holds besides its version is lost. */
  lemma InfoRoundTripExactly(info: Info)
    ensures UnmarshalInfo(MarshalInfo(info)).Success?
    ensures UnmarshalInfo(MarshalInfo(info)) == Success(info)
       <==> info.major >= 2 || (info.currentSection == 0 && info.maxSection == 0 && info.certData == [])
  {
    if info.major >= 2 {
      assert MarshalInfo(info)[4..] == info.certData;
    }
  }

  /** The message byte by byte: two version bytes, from version 2 on the two section numbers, then the data. */
  predicate IsInfo(s: seq<byte>, info: Info) {
    && |s| >= 2 && s[0] == info.major && s[1] == info.minor
    && (info.major < 2 ==> s[2..] == info.certData)
    && (info.major >= 2 ==>
          |s| >= 4 && s[2] == info.currentSection && s[3] == info.maxSection && s[4..] == info.certData)
  }

  lemma InfoOnTheWire(info: Info)
    ensures IsInfo(MarshalInfo(info), info)
  {
    var s := MarshalInfo(info);
    if info.major >= 2 {
      assert s[4..] == info.certData;
    } else {
      assert s[2..] == info.certData;
    }
  }

  /** Any bytes: which ones cannot be read, and what the others say; version 1 says nothing beyond its version. */
  lemma InfoReads(s: seq<byte>)
    ensures UnmarshalInfo(s) == Failure(ShortPacket) <==> |s| < 2 || (s[0] >= 2 && |s| < 4)
    ensures |s| >= 2 && s[0] < 2 ==> UnmarshalInfo(s) == Success(Info(s[0], s[1], 0, 0, []))
    ensures forall info :: |s| >= 2 && s[0] >= 2 ==> (UnmarshalInfo(s) == Success(info) <==> IsInfo(s, info))
  {
  }

  // ---------------------------------------------------------------- the handler

  datatype Request = Request(transaction: Option<uint16>, info: Info)

  datatype Reply =
    | ACK(status: byte, cmdID: byte)
    | AckDevAuthenticationInfo(status: byte)
    | GetDevAuthenticationSignatureV2(challenge: seq<byte>, counter: byte)

  datatype Sent = Sent(transaction: Option<uint16>, reply: Reply)

  datatype State = State(cert: seq<byte>, counter: uint32, sent: seq<Sent>)

  function Increment(counter: uint32): uint32 {
    (counter + 1) % 0x1_0000_0000
  }

  predicate Accepted(r: Request) {
    r.info.major >= 2
  }

  predicate Final(r: Request) {
    Accepted(r) && r.info.currentSection >= r.info.maxSection
  }

  /** What one request adds to the output, given the transaction counter and a challenge. */
  function Replies(counter: uint32, r: Request, challenge: seq<byte>): seq<Sent> {
    if Accepted(r) && !Final(r) then [Sent(r.transaction, ACK(STATUS_SUCCESS, 0x15))]
    else
      [Sent(r.transaction, AckDevAuthenticationInfo(STATUS_SUPPORTED))]
      + if !Final(r) then []
        else [Sent(Some(Increment(counter) % 0x1_0000), GetDevAuthenticationSignatureV2(challenge, 1))]
  }

  function After(s: State, r: Request, challenge: seq<byte>): State {
    State(if !Accepted(r) then s.cert
          else if r.info.currentSection == 0 then r.info.certData
          else s.cert + r.info.certData,
          if Final(r) then Increment(s.counter) else s.counter,
          s.sent + Replies(s.counter, r, challenge))
  }

  /** The buffer: cleared before section 0, appended to by any section. */
  predicate Buffered(was: seq<byte>, info: Info, cert: seq<byte>) {
    if info.currentSection == 0 then cert == info.certData
    else |cert| == |was| + |info.certData| && cert[..|was|] == was && cert[|was|..] == info.certData
  }

  /** The 32-bit counter, which starts again at zero. */
  predicate Counted(was: uint32, now: uint32) {
    if was == 0xFFFF_FFFF then now == 0 else now == was + 1
  }

  /**
   One request, field by field. Version 1 is accepted and nothing else happens; a section before the last
   is acknowledged; the last one is accepted and then challenged, under the next transaction.
   */
  predicate IsHandled(was: State, r: Request, challenge: seq<byte>, now: State) {
    if r.info.major < 2 then
      now == was.(sent := was.sent + [Sent(r.transaction, AckDevAuthenticationInfo(0x00))])
    else
      Buffered(was.cert, r.info, now.cert) &&
      if r.info.currentSection < r.info.maxSection then
        now.counter == was.counter && now.sent == was.sent + [Sent(r.transaction, ACK(0x00, 0x15))]
      else
        Counted(was.counter, now.counter) &&
        now.sent == was.sent + [Sent(r.transaction, AckDevAuthenticationInfo(0x00)),
                                Sent(Some(now.counter % 0x1_0000), GetDevAuthenticationSignatureV2(challenge, 1))]
  }

  lemma {:induction false} HandledMeans(s: State, r: Request, challenge: seq<byte>)
    ensures IsHandled(s, r, challenge, After(s, r, challenge))
  {
  }

  /** It leaves nothing open. */
  lemma {:induction false} HandledOnce(was: State, r: Request, challenge: seq<byte>, a: State, b: State)
    requires IsHandled(was, r, challenge, a) && IsHandled(was, r, challenge, b)
    ensures a == b
  {
    if r.info.major >= 2 && r.info.currentSection != 0 {
      var n := |was.cert|;
      assert a.cert == a.cert[..n] + a.cert[n..] && b.cert == b.cert[..n] + b.cert[n..];
    }
  }

  /** The process-wide certificate buffer and transaction counter, and the buffer of outgoing commands. */
  class Handler {
    var devCertBuf: seq<byte>
    var trxCounter: uint32
    var commands: seq<Sent>

    function Now(): State
      reads this
    {
      State(devCertBuf, trxCounter, commands)
    }

    method Respond(req: Request, reply: Reply)
      modifies this`commands
      ensures commands == old(commands) + [Sent(req.transaction, reply)]
    {
      commands := commands + [Sent(req.transaction, reply)];
    }

    method TrxReset()
      modifies this`trxCounter
      ensures trxCounter == 0
    {
      trxCounter := 0;
    }

    method TrxNext() returns (trx: uint16)
      modifies this`trxCounter
      ensures Counted(old(trxCounter), trxCounter) && trx == trxCounter % 0x1_0000
    {
      trxCounter := (trxCounter + 1) % 0x1_0000_0000;
      trx := trxCounter % 0x1_0000;
    }

    method Send(reply: Reply)
      modifies this`trxCounter, this`commands
      ensures Counted(old(trxCounter), trxCounter)
      ensures commands == old(commands) + [Sent(Some(trxCounter % 0x1_0000), reply)]
    {
      var trx := TrxNext();
      commands := commands + [Sent(Some(trx), reply)];
    }

    method HandleInfo(req: Request, challenge: seq<byte>)
      modifies this
      ensures Now() == After(old(Now()), req, challenge)
      ensures IsHandled(old(Now()), req, challenge, Now())
    {
      HandledMeans(Now(), req, challenge);
      var msg := req.info;
      if msg.major >= 2 {
        if msg.currentSection == 0 {
          devCertBuf := [];
        }
        devCertBuf := devCertBuf + msg.certData;
        if msg.currentSection < msg.maxSection {
          Respond(req, ACK(STATUS_SUCCESS, 0x15));
        } else {
          Respond(req, AckDevAuthenticationInfo(STATUS_SUPPORTED));
          Send(GetDevAuthenticationSignatureV2(challenge, 1));
        }
      } else {
        Respond(req, AckDevAuthenticationInfo(STATUS_SUPPORTED));
      }
    }

    /** The loop over the commands of a frame; challenge `i` is the one that request `i` would draw. */
    method HandleAll(reqs: seq<Request>, challenges: seq<seq<byte>>)
      requires |challenges| == |reqs|
      modifies this
      ensures Now() == Run(old(Now()), reqs, challenges)
    {
      for i := 0 to |reqs|
        invariant Now() == Run(old(Now()), reqs[..i], challenges[..i])
      {
        assert reqs[..i + 1][..i] == reqs[..i] && challenges[..i + 1][..i] == challenges[..i];
        HandleInfo(reqs[i], challenges[i]);
      }
      assert reqs[..|reqs|] == reqs && challenges[..|reqs|] == challenges;
    }
  }

  function Run(s: State, reqs: seq<Request>, challenges: seq<seq<byte>>): State
    requires |challenges| == |reqs|
    decreases reqs
  {
    var n := |reqs|;
    if n == 0 then s else After(Run(s, reqs[..n - 1], challenges[..n - 1]), reqs[n - 1], challenges[n - 1])
  }

  // ---------------------------------------------------------------- what the buffer holds

  /** The certificate data of the accepted requests, one after the other. */
  function Data(reqs: seq<Request>): seq<byte> {
    var n := |reqs|;
    if n == 0 then [] else Data(reqs[..n - 1]) + if Accepted(reqs[n - 1]) then reqs[n - 1].info.certData else []
  }

  predicate Restarts(r: Request) {
    Accepted(r) && r.info.currentSection == 0
  }

  /** The last request of a run decides what becomes of the buffer that the others left. */
  lemma BufferStep(s: State, reqs: seq<Request>, challenges: seq<seq<byte>>)
    requires |challenges| == |reqs| && reqs != []
    ensures var n := |reqs|;
            var added := if Accepted(reqs[n - 1]) then reqs[n - 1].info.certData else [];
            Data(reqs) == Data(reqs[..n - 1]) + added &&
            Run(s, reqs, challenges).cert
            == if Restarts(reqs[n - 1]) then added else Run(s, reqs[..n - 1], challenges[..n - 1]).cert + added
  {
    hide Replies;
    var n := |reqs|;
    var before := Run(s, reqs[..n - 1], challenges[..n - 1]);
    assert before.cert + [] == before.cert;
  }

  /** Without a section 0 the data is appended to what the buffer held before. */
  lemma {:induction false} BufferGrows(s: State, reqs: seq<Request>, challenges: seq<seq<byte>>)
    requires |challenges| == |reqs| && forall i :: 0 <= i < |reqs| ==> !Restarts(reqs[i])
    ensures Run(s, reqs, challenges).cert == s.cert + Data(reqs)
    decreases reqs
  {
    var n := |reqs|;
    if n > 0 {
      BufferGrows(s, reqs[..n - 1], challenges[..n - 1]);
      BufferStep(s, reqs, challenges);
      hide Run, Data, Restarts, Accepted;
    }
  }

  /** In any run, the buffer holds exactly the data that was accepted since the last section 0. */
  lemma {:induction false} BufferSince(s: State, reqs: seq<Request>, challenges: seq<seq<byte>>, k: nat)
    requires |challenges| == |reqs| && k < |reqs|
    requires Restarts(reqs[k]) && forall i :: k < i < |reqs| ==> !Restarts(reqs[i])
    ensures Run(s, reqs, challenges).cert == Data(reqs[k..])
    decreases reqs
  {
    hide Run, Restarts, Accepted;
    var n := |reqs|;
    BufferStep(s, reqs, challenges);
    BufferStep(s, reqs[k..], challenges[k..]);
    if k == n - 1 {
      assert reqs[k..] == [reqs[k]] && reqs[k..][..0] == [];
    } else {
      hide Data;
      BufferSince(s, reqs[..n - 1], challenges[..n - 1], k);
      assert reqs[k..][..n - 1 - k] == reqs[..n - 1][k..];
    }
  }

  // ---------------------------------------------------------------- what is replied

  predicate IsChallenge(m: Sent) {
    m.reply.GetDevAuthenticationSignatureV2?
  }

  predicate IsResponse(m: Sent) {
    !IsChallenge(m)
  }

  function Finals(reqs: seq<Request>): nat {
    var n := |reqs|;
    if n == 0 then 0 else Finals(reqs[..n - 1]) + if Final(reqs[n - 1]) then 1 else 0
  }

  lemma RepliesOne(counter: uint32, r: Request, challenge: seq<byte>)
    ensures var replies := Replies(counter, r, challenge);
            |Select(replies, IsResponse)| == 1 && Select(replies, IsResponse)[0].transaction == r.transaction &&
            |Select(replies, IsChallenge)| == if Final(r) then 1 else 0
  {
    var replies := Replies(counter, r, challenge);
    if Final(r) {
      assert replies[1..][1..] == [];
      assert Select(replies[1..], IsChallenge) == replies[1..] && Select(replies[1..], IsResponse) == [];
    } else {
      assert replies[1..] == [];
    }
  }

  /**
   In any run every request gets one response, in order and under its own transaction, and there is
   one challenge for every final section.
   */
  lemma {:induction false} EveryRequestAnswered(s: State, reqs: seq<Request>, challenges: seq<seq<byte>>)
    requires |challenges| == |reqs| && s.sent == []
    ensures var sent := Run(s, reqs, challenges).sent;
            |Select(sent, IsResponse)| == |reqs| &&
            (forall i :: 0 <= i < |reqs| ==> Select(sent, IsResponse)[i].transaction == reqs[i].transaction) &&
            |Select(sent, IsChallenge)| == Finals(reqs)
    decreases reqs
  {
    var n := |reqs|;
    if n > 0 {
      hide Replies, Select;
      var before := Run(s, reqs[..n - 1], challenges[..n - 1]);
      var replies := Replies(before.counter, reqs[n - 1], challenges[n - 1]);
      EveryRequestAnswered(s, reqs[..n - 1], challenges[..n - 1]);
      RepliesOne(before.counter, reqs[n - 1], challenges[n - 1]);
      SelectConcat(before.sent, replies, IsResponse);
      SelectConcat(before.sent, replies, IsChallenge);
    }
  }

  // ---------------------------------------------------------------- a whole certificate

  /** Sections 0 to n in order, all of them version 2 or later. */
  predicate InOrder(reqs: seq<Request>) {
    1 <= |reqs| <= 0x100 &&
    forall i :: 0 <= i < |reqs| ==>
      Accepted(reqs[i]) && reqs[i].info.currentSection == i && reqs[i].info.maxSection == |reqs| - 1
  }

  function Acks(reqs: seq<Request>): (sent: seq<Sent>)
    ensures |sent| == |reqs|
  {
    seq(|reqs|, i requires 0 <= i < |reqs| => Sent(reqs[i].transaction, ACK(STATUS_SUCCESS, 0x15)))
  }

  lemma {:induction false} Assembling(s: State, reqs: seq<Request>, challenges: seq<seq<byte>>, k: nat)
    requires InOrder(reqs) && |challenges| == |reqs| && k < |reqs|
    ensures var s' := Run(s, reqs[..k], challenges[..k]);
            s'.counter == s.counter && s'.sent == s.sent + Acks(reqs[..k]) && (k > 0 ==> s'.cert == Data(reqs[..k]))
  {
    if k > 0 {
      Assembling(s, reqs, challenges, k - 1);
      assert reqs[..k][..k - 1] == reqs[..k - 1] && challenges[..k][..k - 1] == challenges[..k - 1];
      assert Acks(reqs[..k]) == Acks(reqs[..k - 1]) + [Sent(reqs[k - 1].transaction, ACK(STATUS_SUCCESS, 0x15))];
    }
  }

  /** From any buffer: the certificate, an ACK for every section but the last, then one acceptance and one challenge. */
  lemma Assembles(s: State, reqs: seq<Request>, challenges: seq<seq<byte>>)
    requires InOrder(reqs) && |challenges| == |reqs|
    ensures var n := |reqs| - 1;
            Run(s, reqs, challenges) == State(
              Data(reqs), Increment(s.counter),
              s.sent + (Acks(reqs[..n]) + [
                Sent(reqs[n].transaction, AckDevAuthenticationInfo(STATUS_SUPPORTED)),
                Sent(Some(Increment(s.counter) % 0x1_0000), GetDevAuthenticationSignatureV2(challenges[n], 1))]))
  {
    hide Acks;
    var n := |reqs| - 1;
    Assembling(s, reqs, challenges, n);
    var before, replies := Run(s, reqs[..n], challenges[..n]), Replies(s.counter, reqs[n], challenges[n]);
    assert Run(s, reqs, challenges) == After(before, reqs[n], challenges[n]);
    AppendAssociative(s.sent, Acks(reqs[..n]), replies);
    assert n == 0 ==> reqs[..n] == [] && Data(reqs[..n]) == [];
  }

  // ---------------------------------------------------------------- over the wire

  function CommandFor(r: Request): Command {
    Command(RET_DEV_AUTHENTICATION_INFO, r.transaction, Some(Typed(INFO_TYPE, MarshalInfo(r.info))))
  }

  /** On the wire: lingo 0x00, command 0x15, the transaction when there is one, and the message. */
  lemma {:induction false} RequestOnTheWire(enabled: bool, r: Request)
    ensures Encode(enabled, CommandFor(r)).Success?
    ensures var pkt := Encode(enabled, CommandFor(r)).value;
            var n := if enabled && r.transaction.Some? then 4 else 2;
            |pkt| >= n && pkt[0] == 0x00 && pkt[1] == 0x15 && IsInfo(pkt[n..], r.info) &&
            (n == 4 ==> 0x100 * pkt[2] as int + pkt[3] as int == r.transaction.value)
  {
    InfoOnTheWire(r.info);
    EncodedIsPacket(enabled, CommandFor(r));
    hide Encode, MarshalInfo, IsInfo;
  }

  function CommandsFor(reqs: seq<Request>): (cmds: seq<Command>)
    ensures |cmds| == |reqs|
  {
    seq(|reqs|, i requires 0 <= i < |reqs| => CommandFor(reqs[i]))
  }

  /** The requests among what a receiver made of its packets. */
  function RequestsIn(received: seq<(Command, Option<Lingos.Error>)>): seq<Request> {
    if received == [] then []
    else
      var cmd, later := received[0].0, RequestsIn(received[1..]);
      match cmd.payload
      case Some(Typed(t, bytes)) =>
        if t != INFO_TYPE then later
        else
          (match UnmarshalInfo(bytes)
           case Failure(_) => later
           case Success(info) => [Request(cmd.transaction, info)] + later)
      case _ => later
  }

  /** The request as it can arrive: without its transaction when those are off. */
  function Visible(enabled: bool, reqs: seq<Request>): (visible: seq<Request>)
    ensures |visible| == |reqs|
  {
    seq(|reqs|, i requires 0 <= i < |reqs| => reqs[i].(transaction := if enabled then reqs[i].transaction else None))
  }

  lemma {:induction false} RequestsExpected(enabled: bool, reqs: seq<Request>)
    requires forall i :: 0 <= i < |reqs| ==> Accepted(reqs[i])
    ensures RequestsIn(Expected(enabled, CommandsFor(reqs))) == Visible(enabled, reqs)
    decreases reqs
  {
    if reqs != [] {
      RequestsExpected(enabled, reqs[1..]);
      InfoRoundTripExactly(reqs[0].info);
      assert CommandsFor(reqs)[1..] == CommandsFor(reqs[1..]);
      assert Visible(enabled, reqs)[1..] == Visible(enabled, reqs[1..]);
      var expected := Expected(enabled, CommandsFor(reqs));
      assert expected[0] == (AsReceived(enabled, CommandFor(reqs[0])), None);
      assert expected[1..] == Expected(enabled, CommandsFor(reqs[1..]));
    }
  }

  lemma {:induction false} RequestsRecoverable(types: Types, enabled: bool, reqs: seq<Request>, js: seq<nat>)
    requires RET_DEV_AUTHENTICATION_INFO in types && types[RET_DEV_AUTHENTICATION_INFO] == [INFO_TYPE]
    requires enabled ==> forall i :: 0 <= i < |reqs| ==> reqs[i].transaction.Some?
    requires |js| == |reqs| && forall i :: 0 <= i < |js| ==> js[i] == 0
    ensures AllSendable(types, CommandsFor(reqs), js) && AllRecoverable(types, enabled, CommandsFor(reqs), js)
    decreases reqs
  {
    if reqs != [] {
      RequestsRecoverable(types, enabled, reqs[1..], js[1..]);
      assert CommandsFor(reqs)[1..] == CommandsFor(reqs[1..]);
      assert Sendable(types, CommandFor(reqs[0]), 0);
    }
  }

  /** What the receiver finds in the frames that the sender's reports decode to. */
  function RequestsAcross(defs: seq<ReportDef>, side: ReportDir, types: Types, enabled: bool, pkts: seq<seq<byte>>,
                          spare: seq<byte>): seq<Request>
    requires Stack.Link(defs, side)
  {
    var reports := Stack.Session(defs, side, Sessions.FramesOf(pkts));
    var frames := DumpTraces.DecodeAll(defs, HidDecoderLaws.Offered(reports)).frames;
    RequestsIn(Received(types, enabled, Sessions.PacketsIn(frames, spare)))
  }

  /** The sections of a certificate, sent as commands through packets, frames and reports, arrive. */
  lemma SectionsArrive(defs: seq<ReportDef>, side: ReportDir, types: Types, enabled: bool, reqs: seq<Request>,
                       spare: seq<byte>)
    requires Stack.Link(defs, side) && Sessions.AllFramable(PacketsFor(enabled, CommandsFor(reqs)))
    requires RET_DEV_AUTHENTICATION_INFO in types && types[RET_DEV_AUTHENTICATION_INFO] == [INFO_TYPE]
    requires forall i :: 0 <= i < |reqs| ==> Accepted(reqs[i])
    requires enabled ==> forall i :: 0 <= i < |reqs| ==> reqs[i].transaction.Some?
    ensures RequestsAcross(defs, side, types, enabled, PacketsFor(enabled, CommandsFor(reqs)), spare)
         == Visible(enabled, reqs)
  {
    hide CommandsFor, Visible, RequestsIn, PacketsFor, Expected, Received;
    var js: seq<nat> := seq(|reqs|, _ => 0);
    RequestsRecoverable(types, enabled, reqs, js);
    Sessions.CommandsArrive(defs, side, types, enabled, CommandsFor(reqs), js, spare);
    RequestsExpected(enabled, reqs);
  }

  /** So a certificate sent in sections ends up whole in the receiver's buffer, whatever that held before. */
  lemma CertificateArrives(defs: seq<ReportDef>, side: ReportDir, types: Types, enabled: bool, reqs: seq<Request>,
                           spare: seq<byte>, s: State, challenges: seq<seq<byte>>)
    requires Stack.Link(defs, side) && Sessions.AllFramable(PacketsFor(enabled, CommandsFor(reqs)))
    requires RET_DEV_AUTHENTICATION_INFO in types && types[RET_DEV_AUTHENTICATION_INFO] == [INFO_TYPE]
    requires InOrder(reqs) && (enabled ==> forall i :: 0 <= i < |reqs| ==> reqs[i].transaction.Some?)
    requires |challenges| == |reqs|
    ensures var arrived := RequestsAcross(defs, side, types, enabled, PacketsFor(enabled, CommandsFor(reqs)), spare);
            arrived == Visible(enabled, reqs) && Run(s, arrived, challenges).cert == Data(reqs)
  {
    hide RequestsAcross, PacketsFor, CommandsFor;
    SectionsArrive(defs, side, types, enabled, reqs, spare);
    Assembles(s, Visible(enabled, reqs), challenges);
    SameData(Visible(enabled, reqs), reqs);
  }

  lemma {:induction false} SameData(a: seq<Request>, b: seq<Request>)
    requires |a| == |b| && forall i :: 0 <= i < |a| ==> a[i].info == b[i].info
    ensures Data(a) == Data(b)
    decreases a
  {
    var n := |a|;
    if n > 0 {
      SameData(a[..n - 1], b[..n - 1]);
    }
  }
}

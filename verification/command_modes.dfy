/** When the two ends of a session agree on the transaction mode: failures, losses and crossing commands. */
module CommandModes {
  import opened Bytes
  import opened Lingos
  import opened Commands

  /** What a command with this id sets the mode to, if anything. */
  function Setting(id: uint32): Option<bool> {
    if id == REQUEST_IDENTIFY || id == IDENTIFY_DEVICE_LINGOES then Some(false)
    else if id == START_IDPS then Some(true)
    else None
  }

  function LastSome(settings: seq<Option<bool>>): Option<bool> {
    var n := |settings|;
    if n == 0 then None else if settings[n - 1].Some? then settings[n - 1] else LastSome(settings[..n - 1])
  }

  function Settings(cmds: seq<Command>): (settings: seq<Option<bool>>)
    ensures |settings| == |cmds|
  {
    seq(|cmds|, i requires 0 <= i < |cmds| => Setting(cmds[i].id))
  }

  /** The mode that the last mode-setting command of a list sets. */
  function LastSetting(cmds: seq<Command>): Option<bool> {
    LastSome(Settings(cmds))
  }

  lemma {:induction false} LastSomeCons(first: Option<bool>, later: seq<Option<bool>>)
    ensures LastSome([first] + later) == if LastSome(later).Some? then LastSome(later) else first
  {
    var n := |later|;
    if n > 0 {
      assert ([first] + later)[..n] == [first] + later[..n - 1];
      LastSomeCons(first, later[..n - 1]);
    } else {
      assert ([first] + later)[..0] == [];
    }
  }

  lemma {:induction false} LastSettingCons(cmds: seq<Command>)
    requires cmds != []
    ensures LastSetting(cmds) == if LastSetting(cmds[1..]).Some? then LastSetting(cmds[1..]) else Setting(cmds[0].id)
  {
    LastSomeCons(Setting(cmds[0].id), Settings(cmds[1..]));
    assert Settings(cmds) == [Setting(cmds[0].id)] + Settings(cmds[1..]);
  }

  /** The mode at the end is decided by the last command that sets it. */
  lemma {:induction false} ModeIsLastSet(enabled: bool, cmds: seq<Command>)
    ensures SenderMode(enabled, cmds) == Or(LastSetting(cmds), enabled)
    decreases cmds
  {
    if cmds != [] {
      LastSettingCons(cmds);
      ModeIsLastSet(ModeAfter(enabled, cmds[0].id), cmds[1..]);
    }
  }

  // ---------------------------------------------------------------- commands that do not arrive

  predicate Marshals(cmd: Command) {
    cmd.payload.Some? && !cmd.payload.value.NotMarshalable?
  }

  predicate AllFit(cmds: seq<Command>) {
    forall i :: 0 <= i < |cmds| ==> FitsWidth(cmds[i].id)
  }

  /** The commands that arrive, when some fail to marshal and the device loses the frames of others. */
  function Arriving(cmds: seq<Command>, lost: seq<bool>): seq<Command>
    requires |lost| == |cmds|
    decreases cmds
  {
    if cmds == [] then []
    else
      var later := Arriving(cmds[1..], lost[1..]);
      if Marshals(cmds[0]) && !lost[0] then [cmds[0]] + later else later
  }

  function PacketOf(mode: bool, cmd: Command): seq<seq<byte>> {
    match Encode(mode, cmd)
    case Failure(_) => []
    case Success(pkt) => [pkt]
  }

  /** Their packets. */
  function ArrivingPackets(enabled: bool, cmds: seq<Command>, lost: seq<bool>): seq<seq<byte>>
    requires |lost| == |cmds|
    decreases cmds
  {
    if cmds == [] then []
    else
      var mode := ModeAfter(enabled, cmds[0].id);
      var later := ArrivingPackets(mode, cmds[1..], lost[1..]);
      (if lost[0] then [] else PacketOf(mode, cmds[0])) + later
  }

  /** Whatever its mode and whatever the sender's, a receiver handles the id that was sent. */
  lemma {:induction false} IdArrives(types: Types, receiver: bool, sender: bool, cmd: Command)
    requires Marshals(cmd) && FitsWidth(cmd.id)
    ensures Encode(sender, cmd).Success?
    ensures UnmarshalID(Encode(sender, cmd).value).Success? && UnmarshalID(Encode(sender, cmd).value).value.0 == cmd.id
    ensures Receive(types, receiver, Encode(sender, cmd).value).1 == ModeAfter(receiver, cmd.id)
  {
    var rest := (if sender then TrxBytes(cmd.transaction) else []) + cmd.payload.value.bytes;
    assert Encode(sender, cmd).value == MarshalID(cmd.id) + rest;
    IDRoundTripExactly(cmd.id, rest);
  }

  lemma {:induction false} ReceiverModeConcat(types: Types, mode: bool, a: seq<seq<byte>>, b: seq<seq<byte>>)
    ensures ReceiverMode(types, mode, a + b) == ReceiverMode(types, ReceiverMode(types, mode, a), b)
    decreases a
  {
    if a == [] {
      assert a + b == b;
    } else {
      assert (a + b)[1..] == a[1..] + b;
      ReceiverModeConcat(types, Receive(types, mode, a[0]).1, a[1..], b);
    }
  }

  /** What a command that is being sent will do to the mode of its receiver. */
  lemma {:induction false} PacketSets(types: Types, receiver: bool, sender: bool, cmd: Command)
    requires FitsWidth(cmd.id)
    ensures ReceiverMode(types, receiver, PacketOf(sender, cmd))
         == if Marshals(cmd) then ModeAfter(receiver, cmd.id) else receiver
  {
    if Marshals(cmd) {
      IdArrives(types, receiver, sender, cmd);
      assert PacketOf(sender, cmd)[1..] == [];
    }
  }

  lemma {:induction false} ModeOfArriving(types: Types, receiver: bool, enabled: bool, cmds: seq<Command>,
                                          lost: seq<bool>)
    requires |lost| == |cmds| && AllFit(cmds)
    ensures ReceiverMode(types, receiver, ArrivingPackets(enabled, cmds, lost))
         == SenderMode(receiver, Arriving(cmds, lost))
    decreases cmds
  {
    if cmds != [] {
      var mode, arrives := ModeAfter(enabled, cmds[0].id), Marshals(cmds[0]) && !lost[0];
      var first := if lost[0] then [] else PacketOf(mode, cmds[0]);
      var next := if arrives then ModeAfter(receiver, cmds[0].id) else receiver;
      PacketSets(types, receiver, mode, cmds[0]);
      ReceiverModeConcat(types, receiver, first, ArrivingPackets(mode, cmds[1..], lost[1..]));
      ModeOfArriving(types, next, mode, cmds[1..], lost[1..]);
      assert arrives ==> Arriving(cmds, lost)[1..] == Arriving(cmds[1..], lost[1..]);
    }
  }

  /**
   The two ends agree after any commands, some of which fail to marshal or are lost on the way,
   exactly when the last that sets the mode and the last of these that arrives come to the same.
   */
  lemma ModesAgreeExactly(types: Types, enabled: bool, cmds: seq<Command>, lost: seq<bool>)
    requires |lost| == |cmds| && AllFit(cmds)
    ensures ReceiverMode(types, enabled, ArrivingPackets(enabled, cmds, lost)) == SenderMode(enabled, cmds)
       <==> Or(LastSetting(Arriving(cmds, lost)), enabled) == Or(LastSetting(cmds), enabled)
  {
    ModeOfArriving(types, enabled, enabled, cmds, lost);
    ModeIsLastSet(enabled, cmds);
    ModeIsLastSet(enabled, Arriving(cmds, lost));
  }

  lemma {:induction false} SettersArrive(cmds: seq<Command>, lost: seq<bool>)
    requires |lost| == |cmds|
    requires forall i :: 0 <= i < |cmds| && Setting(cmds[i].id).Some? ==> Marshals(cmds[i]) && !lost[i]
    ensures LastSetting(Arriving(cmds, lost)) == LastSetting(cmds)
    decreases cmds
  {
    if cmds != [] {
      hide LastSetting, Marshals;
      SettersArrive(cmds[1..], lost[1..]);
      LastSettingCons(cmds);
      var arriving, later := Arriving(cmds, lost), Arriving(cmds[1..], lost[1..]);
      if arriving != later {
        assert arriving[1..] == later;
        LastSettingCons(arriving);
      }
    }
  }

  lemma {:induction false} NothingLost(enabled: bool, cmds: seq<Command>, lost: seq<bool>)
    requires |lost| == |cmds| && forall i :: 0 <= i < |lost| ==> !lost[i]
    ensures ArrivingPackets(enabled, cmds, lost) == PacketsFor(enabled, cmds)
    decreases cmds
  {
    if cmds != [] {
      var mode := ModeAfter(enabled, cmds[0].id);
      NothingLost(mode, cmds[1..], lost[1..]);
      assert [] + PacketsFor(mode, cmds[1..]) == PacketsFor(mode, cmds[1..]);
    }
  }

  /** The same for failures to marshal alone, as sendCmds skips them. */
  lemma FailuresDesynchroniseExactly(types: Types, enabled: bool, cmds: seq<Command>)
    requires AllFit(cmds)
    ensures var lost := seq(|cmds|, _ => false);
            ReceiverMode(types, enabled, PacketsFor(enabled, cmds)) == SenderMode(enabled, cmds)
            <==> Or(LastSetting(Arriving(cmds, lost)), enabled) == Or(LastSetting(cmds), enabled)
  {
    var lost := seq(|cmds|, _ => false);
    NothingLost(enabled, cmds, lost);
    ModesAgreeExactly(types, enabled, cmds, lost);
  }

  /** It never happens to commands whose mode-setting payloads are values of registered types. */
  lemma RegisteredSettersAgree(types: Types, enabled: bool, cmds: seq<Command>)
    requires AllFit(cmds)
    requires forall i :: 0 <= i < |cmds| && Setting(cmds[i].id).Some? ==>
      cmds[i].payload.Some? && cmds[i].payload.value.Typed?
    ensures ReceiverMode(types, enabled, PacketsFor(enabled, cmds)) == SenderMode(enabled, cmds)
  {
    FailuresDesynchroniseExactly(types, enabled, cmds);
    SettersArrive(cmds, seq(|cmds|, _ => false));
  }

  const IDENTIFY := Command(REQUEST_IDENTIFY, None, Some(Typed(PayloadType("RequestIdentify", Some(0)), [])))
  const START := Command(START_IDPS, None, Some(Typed(PayloadType("StartIDPS", Some(0)), [])))

  /** What does happen: a RequestIdentify that the device loses leaves only its sender without transactions. */
  lemma LostIdentifyParts(types: Types)
    ensures !SenderMode(true, [IDENTIFY])
    ensures ReceiverMode(types, true, ArrivingPackets(true, [IDENTIFY], [true]))
  {
    assert [IDENTIFY][1..] == [];
    ModeIsLastSet(true, [IDENTIFY]);
    assert Settings([IDENTIFY]) == [Some(false)];
  }

  // ---------------------------------------------------------------- commands that cross

  /** Both ends, and the packets in flight in each direction. */
  datatype Duplex = Duplex(here: bool, there: bool, outward: seq<seq<byte>>, inward: seq<seq<byte>>)

  datatype Move = Send(outgoing: bool, cmd: Command) | Deliver(outgoing: bool)

  predicate CanMove(w: Duplex, m: Move) {
    m.Deliver? ==> (if m.outgoing then w.outward else w.inward) != []
  }

  function Apply(types: Types, w: Duplex, m: Move): Duplex
    requires CanMove(w, m)
  {
    match m
    case Send(true, cmd) =>
      var mode := ModeAfter(w.here, cmd.id);
      w.(here := mode, outward := w.outward + PacketOf(mode, cmd))
    case Send(false, cmd) =>
      var mode := ModeAfter(w.there, cmd.id);
      w.(there := mode, inward := w.inward + PacketOf(mode, cmd))
    case Deliver(true) => w.(there := Receive(types, w.there, w.outward[0]).1, outward := w.outward[1..])
    case Deliver(false) => w.(here := Receive(types, w.here, w.inward[0]).1, inward := w.inward[1..])
  }

  predicate IsRun(types: Types, w: Duplex, moves: seq<Move>)
    decreases moves
  {
    moves == [] || (CanMove(w, moves[0]) && IsRun(types, Apply(types, w, moves[0]), moves[1..]))
  }

  function After(types: Types, w: Duplex, moves: seq<Move>): Duplex
    requires IsRun(types, w, moves)
    decreases moves
  {
    if moves == [] then w else After(types, Apply(types, w, moves[0]), moves[1..])
  }

  /** The modes that the two ends will have once everything in flight has arrived. */
  function Settled(types: Types, w: Duplex): (bool, bool) {
    (ReceiverMode(types, w.here, w.inward), ReceiverMode(types, w.there, w.outward))
  }

  /** Deliveries, and sending what sets no mode. */
  predicate Neutral(m: Move) {
    m.Send? ==> FitsWidth(m.cmd.id) && Setting(m.cmd.id) == None
  }

  lemma {:induction false} NeutralKeeps(types: Types, w: Duplex, m: Move)
    requires CanMove(w, m) && Neutral(m)
    ensures Settled(types, Apply(types, w, m)) == Settled(types, w)
  {
    match m
    case Send(true, cmd) =>
      PacketSets(types, ReceiverMode(types, w.there, w.outward), w.here, cmd);
      ReceiverModeConcat(types, w.there, w.outward, PacketOf(w.here, cmd));
    case Send(false, cmd) =>
      PacketSets(types, ReceiverMode(types, w.here, w.inward), w.there, cmd);
      ReceiverModeConcat(types, w.here, w.inward, PacketOf(w.there, cmd));
    case Deliver(_) =>
  }

  lemma {:induction false} NeutralRun(types: Types, w: Duplex, moves: seq<Move>)
    requires IsRun(types, w, moves) && forall i :: 0 <= i < |moves| ==> Neutral(moves[i])
    ensures Settled(types, After(types, w, moves)) == Settled(types, w)
    decreases moves
  {
    if moves != [] {
      NeutralKeeps(types, w, moves[0]);
      hide Settled, Apply;
      NeutralRun(types, Apply(types, w, moves[0]), moves[1..]);
    }
  }

  predicate Quiet(w: Duplex) {
    w.outward == [] && w.inward == []
  }

  /** Ends that agree while nothing is in flight still do so after any run that sets no mode. */
  lemma NeutralRunAgrees(types: Types, w: Duplex, moves: seq<Move>)
    requires IsRun(types, w, moves) && forall i :: 0 <= i < |moves| ==> Neutral(moves[i])
    requires Quiet(w) && w.here == w.there && Quiet(After(types, w, moves))
    ensures After(types, w, moves).here == After(types, w, moves).there == w.here
  {
    NeutralRun(types, w, moves);
  }

  function PacketSettings(pkts: seq<seq<byte>>): (settings: seq<Option<bool>>)
    ensures |settings| == |pkts|
  {
    seq(|pkts|, i requires 0 <= i < |pkts| => PacketSetting(pkts[i]))
  }

  function PacketSetting(pkt: seq<byte>): Option<bool> {
    match UnmarshalID(pkt)
    case Failure(_) => None
    case Success((id, _)) => Setting(id)
  }

  lemma {:induction false} ModeIsLastReceived(types: Types, mode: bool, pkts: seq<seq<byte>>)
    ensures ReceiverMode(types, mode, pkts) == Or(LastSome(PacketSettings(pkts)), mode)
    decreases pkts
  {
    if pkts != [] {
      ModeIsLastReceived(types, Receive(types, mode, pkts[0]).1, pkts[1..]);
      LastSomeCons(PacketSetting(pkts[0]), PacketSettings(pkts[1..]));
      assert PacketSettings(pkts) == [PacketSetting(pkts[0])] + PacketSettings(pkts[1..]);
    }
  }

  /**
   From any state of the two ends and of what is in flight: let `last` be the last command that sets
   the mode.  When everything has arrived, the ends agree exactly when, as it was sent, nothing that
   sets another mode was the last to do so on its way in the opposite direction.
   */
  lemma {:induction false} CrossingExactly(types: Types, w: Duplex, last: Move, later: seq<Move>)
    requires last.Send? && Setting(last.cmd.id).Some? && FitsWidth(last.cmd.id) && Marshals(last.cmd)
    requires forall i :: 0 <= i < |later| ==> Neutral(later[i])
    requires IsRun(types, Apply(types, w, last), later) && Quiet(After(types, Apply(types, w, last), later))
    ensures var end := After(types, Apply(types, w, last), later);
            var crossing := LastSome(PacketSettings(if last.outgoing then w.inward else w.outward));
            end.here == end.there <==> crossing in {None, Setting(last.cmd.id)}
  {
    hide LastSome, PacketSettings, PacketOf, ReceiverMode, After, IsRun;
    var w1 := Apply(types, w, last);
    var mode := Setting(last.cmd.id).value;
    NeutralRun(types, w1, later);
    QuietSettled(types, After(types, w1, later));
    if last.outgoing {
      PacketSets(types, ReceiverMode(types, w.there, w.outward), mode, last.cmd);
      ReceiverModeConcat(types, w.there, w.outward, PacketOf(mode, last.cmd));
      ModeIsLastReceived(types, mode, w.inward);
    } else {
      PacketSets(types, ReceiverMode(types, w.here, w.inward), mode, last.cmd);
      ReceiverModeConcat(types, w.here, w.inward, PacketOf(mode, last.cmd));
      ModeIsLastReceived(types, mode, w.outward);
    }
  }

  lemma QuietSettled(types: Types, w: Duplex)
    requires Quiet(w)
    ensures Settled(types, w) == (w.here, w.there)
  {
  }

  lemma Before(types: Types, w: Duplex, m: Move, w': Duplex, moves: seq<Move>, end: Duplex) returns (longer: seq<Move>)
    requires CanMove(w, m) && Apply(types, w, m) == w'
    requires IsRun(types, w', moves) && After(types, w', moves) == end
    ensures longer == [m] + moves && IsRun(types, w, longer) && After(types, w, longer) == end
  {
    longer := [m] + moves;
    assert longer[1..] == moves;
  }

  lemma {:induction false} CrossingSends(types: Types, a: seq<byte>, b: seq<byte>)
    requires PacketOf(false, IDENTIFY) == [a] && PacketOf(true, START) == [b]
    ensures Apply(types, Duplex(false, false, [], []), Send(true, IDENTIFY)) == Duplex(false, false, [a], [])
    ensures Apply(types, Duplex(false, false, [a], []), Send(false, START)) == Duplex(false, true, [a], [b])
  {
    hide PacketOf, Receive;
  }

  lemma {:induction false} CrossingDeliveries(types: Types, a: seq<byte>, b: seq<byte>)
    requires Receive(types, true, a).1 == false && Receive(types, false, b).1 == true
    ensures Apply(types, Duplex(false, true, [a], [b]), Deliver(true)) == Duplex(false, false, [], [b])
    ensures Apply(types, Duplex(false, false, [], [b]), Deliver(false)) == Duplex(true, false, [], [])
  {
    hide PacketOf, Receive;
  }

  lemma {:induction false} CrossingPackets(types: Types) returns (a: seq<byte>, b: seq<byte>)
    ensures PacketOf(false, IDENTIFY) == [a] && PacketOf(true, START) == [b]
    ensures Receive(types, true, a).1 == false && Receive(types, false, b).1 == true
  {
    IdArrives(types, true, false, IDENTIFY);
    IdArrives(types, false, true, START);
    a, b := Encode(false, IDENTIFY).value, Encode(true, START).value;
  }

  /** A RequestIdentify that crosses a StartIDPS leaves the two ends in different modes. */
  lemma {:induction false} CrossingParts(types: Types) returns (moves: seq<Move>)
    ensures moves == [Send(true, IDENTIFY), Send(false, START), Deliver(true), Deliver(false)]
    ensures var w := Duplex(false, false, [], []);
            IsRun(types, w, moves) && After(types, w, moves) == Duplex(true, false, [], [])
  {
    hide PacketOf, Receive, IsRun, After, Apply;
    var a, b := CrossingPackets(types);
    CrossingSends(types, a, b);
    CrossingDeliveries(types, a, b);
    var w0, w1, w2 := Duplex(false, false, [], []), Duplex(false, false, [a], []), Duplex(false, true, [a], [b]);
    var w3, end := Duplex(false, false, [], [b]), Duplex(true, false, [], []);
    Nothing(types, end);
    moves := Before(types, w3, Deliver(false), end, [], end);
    moves := Before(types, w2, Deliver(true), w3, moves, end);
    moves := Before(types, w1, Send(false, START), w2, moves, end);
    moves := Before(types, w0, Send(true, IDENTIFY), w1, moves, end);
  }

  lemma Nothing(types: Types, w: Duplex)
    ensures IsRun(types, w, []) && After(types, w, []) == w
  {
  }
}

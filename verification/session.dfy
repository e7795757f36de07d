/** Commands over the whole stack: each in a packet, each packet in a frame, each frame in reports. */
module Sessions {
  import opened Bytes
  import opened Hid
  import opened Lingos
  import opened Commands
  import Packets
  import PacketLaws
  import HidDecoderLaws
  import DumpTraces
  import Stack

  /** sendCmds writes every packet into a frame of its own. */
  function FramesOf(pkts: seq<seq<byte>>): (frames: seq<seq<byte>>)
    ensures |frames| == |pkts|
  {
    seq(|pkts|, i requires 0 <= i < |pkts| => Packets.EncodeAll([pkts[i]]))
  }

  /** The packets that the reading loop finds in the frames that arrive; a frame with an error is skipped. */
  function PacketsIn(arrivals: seq<DumpTraces.Outcome>, spare: seq<byte>): seq<seq<byte>> {
    if arrivals == [] then []
    else
      var later := PacketsIn(arrivals[1..], spare);
      if arrivals[0].Success? then Packets.ScanFrame(arrivals[0].value, spare).payloads + later else later
  }

  predicate AllFramable(pkts: seq<seq<byte>>) {
    forall i :: 0 <= i < |pkts| ==> PacketLaws.Framable(|pkts[i]|)
  }

  lemma {:induction false} PacketsArrive(defs: seq<ReportDef>, side: ReportDir, pkts: seq<seq<byte>>, spare: seq<byte>)
    requires Stack.Link(defs, side) && AllFramable(pkts)
    ensures PacketsIn(Stack.Arrivals(defs, side, FramesOf(pkts)), spare) == pkts
  {
    if pkts != [] {
      hide Stack.Padded, Packets.ScanFrame, Packets.EncodeAll;
      var frames := FramesOf(pkts);
      assert frames[1..] == FramesOf(pkts[1..]);
      PacketsArrive(defs, side, pkts[1..], spare);
      Stack.ArrivalScans(defs, side, [pkts[0]], spare);
      assert Stack.Arrivals(defs, side, frames)[1..] == Stack.Arrivals(defs, side, frames[1..]);
    }
  }

  /**
   What one side sends is what the other side receives: through packets, frames and reports, from the
   same transaction mode, the commands arrive as themselves and in order exactly when every one is
   recoverable in the mode it is sent in.
   */
  lemma CommandsArrive(defs: seq<ReportDef>, side: ReportDir, types: Types, enabled: bool, cmds: seq<Command>,
                       js: seq<nat>, spare: seq<byte>)
    requires Stack.Link(defs, side) && AllFramable(PacketsFor(enabled, cmds))
    requires AllSendable(types, cmds, js)
    ensures var reports := Stack.Session(defs, side, FramesOf(PacketsFor(enabled, cmds)));
            var arrived := DumpTraces.DecodeAll(defs, HidDecoderLaws.Offered(reports));
            !arrived.cut &&
            (Received(types, enabled, PacketsIn(arrived.frames, spare)) == Expected(enabled, cmds)
             <==> AllRecoverable(types, enabled, cmds, js))
  {
    var pkts := PacketsFor(enabled, cmds);
    Stack.DecodeSession(defs, side, FramesOf(pkts));
    PacketsArrive(defs, side, pkts, spare);
    SessionExactly(types, enabled, cmds, js);
  }
}

/** The layers put together: packets in frames, frames in reports, reports in an interleaved trace. */
module Stack {
  import opened Bytes
  import opened Sequences
  import opened Hid
  import opened HidDecoder
  import opened TraceQueue
  import Packets
  import PacketLaws
  import HidLaws
  import HidDecoderLaws
  import DumpTraces
  import TraceText

  /** A table that both ends of a link can use. */
  predicate Link(defs: seq<ReportDef>, side: ReportDir) {
    Readable(defs) && Usable(defs, side) && HasEntry(defs, side) && HidDecoderLaws.Compatible(defs, side)
  }

  predicate Framable(payloads: seq<seq<byte>>) {
    payloads != [] && forall p :: p in payloads ==> PacketLaws.Framable(|p|)
  }

  lemma FrameNotEmpty(payloads: seq<seq<byte>>)
    requires payloads != []
    ensures Packets.EncodeAll(payloads) != []
  {
  }

  /**
   Payloads written as packets into one frame, cut into reports, reassembled behind whatever was left
   of an aborted frame, and scanned, come back in order: the padding never reads as a packet.
   */
  lemma RoundTrip(defs: seq<ReportDef>, side: ReportDir, payloads: seq<seq<byte>>, buf: seq<byte>,
                  aborted: seq<ReadResult>, rest: seq<ReadResult>, spare: seq<byte>)
    requires Link(defs, side) && Framable(payloads)
    requires forall r :: r in aborted ==> HidDecoderLaws.Passes(defs, r)
    ensures var reports := Fragment(defs, side, Packets.EncodeAll(payloads), 0);
            var d := Decode(defs, buf, aborted + (HidDecoderLaws.Offered(reports) + rest));
            d.Frame? && d.used == |aborted| + |reports| &&
            Packets.ScanFrame(d.frame, spare) == Packets.Scan(payloads, |payloads|, false)
  {
    var frame := Packets.EncodeAll(payloads);
    FrameNotEmpty(payloads);
    HidDecoderLaws.Resynchronises(defs, side, buf, aborted, frame, rest);
    var padding := |HidLaws.Contents(Fragment(defs, side, frame, 0))| - |frame|;
    PacketLaws.ScanRoundTrip(payloads, padding, spare);
  }

  // ---------------------------------------------------------------- whole sessions

  /** The reports of a session that sends one frame after the other. */
  function Session(defs: seq<ReportDef>, side: ReportDir, frames: seq<seq<byte>>): seq<Report>
    requires Usable(defs, side) && HasEntry(defs, side)
  {
    if frames == [] then [] else Fragment(defs, side, frames[0], 0) + Session(defs, side, frames[1..])
  }

  /** A frame as it arrives: padded to full reports. */
  function Padded(defs: seq<ReportDef>, side: ReportDir, frame: seq<byte>): seq<byte>
    requires Usable(defs, side) && HasEntry(defs, side)
  {
    HidLaws.FragmentContents(defs, side, frame, 0);
    frame + Zeros(|HidLaws.Contents(Fragment(defs, side, frame, 0))| - |frame|)
  }

  function Arrivals(defs: seq<ReportDef>, side: ReportDir, frames: seq<seq<byte>>): seq<DumpTraces.Outcome>
    requires Usable(defs, side) && HasEntry(defs, side)
  {
    if frames == [] then [] else [Success(Padded(defs, side, frames[0]))] + Arrivals(defs, side, frames[1..])
  }

  predicate NoneEmpty(frames: seq<seq<byte>>) {
    forall i :: 0 <= i < |frames| ==> frames[i] != []
  }

  lemma OfferedConcat(a: seq<Report>, b: seq<Report>)
    ensures HidDecoderLaws.Offered(a + b) == HidDecoderLaws.Offered(a) + HidDecoderLaws.Offered(b)
  {
  }

  lemma {:induction false} DecodeSession(defs: seq<ReportDef>, side: ReportDir, frames: seq<seq<byte>>)
    requires Link(defs, side) && NoneEmpty(frames)
    ensures DumpTraces.DecodeAll(defs, HidDecoderLaws.Offered(Session(defs, side, frames)))
         == DumpTraces.Decoding(Arrivals(defs, side, frames), false)
  {
    if frames != [] {
      var first, later := Fragment(defs, side, frames[0], 0), Session(defs, side, frames[1..]);
      var inputs, rest := HidDecoderLaws.Offered(first + later), HidDecoderLaws.Offered(later);
      OfferedConcat(first, later);
      assert [] + inputs == inputs && inputs[|first|..] == rest;
      HidDecoderLaws.Resynchronises(defs, side, [], [], frames[0], rest);
      hide Decode, Fragment, HidLaws.Contents, HidDecoderLaws.Offered;
      DecodeSession(defs, side, frames[1..]);
    }
  }

  /** The messages of a direction are the raw reports of a session. */
  predicate Carries(msgs: seq<Msg>, reports: seq<Report>) {
    |msgs| == |reports| && forall i :: 0 <= i < |msgs| ==> msgs[i].data == RawWrite(reports[i])
  }

  lemma {:induction false} SessionSizes(defs: seq<ReportDef>, side: ReportDir, frames: seq<seq<byte>>)
    requires Usable(defs, side) && HasEntry(defs, side)
    requires forall d :: d in defs && d.dir == side ==> d.MaxPayload() <= MAX_RAW_SIZE - 2
    ensures forall r :: r in Session(defs, side, frames) ==> 1 <= |r.data| <= MAX_RAW_SIZE - 2
  {
    if frames != [] {
      HidLaws.FragmentSizes(defs, side, frames[0], 0);
      SessionSizes(defs, side, frames[1..]);
    }
  }

  lemma CarriedInputs(defs: seq<ReportDef>, side: ReportDir, frames: seq<seq<byte>>, msgs: seq<Msg>)
    requires Usable(defs, side) && HasEntry(defs, side)
    requires forall d :: d in defs && d.dir == side ==> d.MaxPayload() <= MAX_RAW_SIZE - 2
    requires Carries(msgs, Session(defs, side, frames))
    ensures Inputs(msgs) == HidDecoderLaws.Offered(Session(defs, side, frames))
  {
    var reports := Session(defs, side, frames);
    SessionSizes(defs, side, frames);
    forall i | 0 <= i < |msgs| ensures Inputs(msgs)[i] == HidDecoderLaws.Offered(reports)[i] {
      HidDecoderLaws.RawRoundTripExactly(reports[i]);
    }
  }

  /**
   Two sessions, each with the entries of its own direction, recorded in one trace, their reports
   interleaved in any way: the dump empties the queue and gives, for each direction, exactly the
   frames that were sent, padded.
   */
  lemma InterleavedSessions(defs: seq<ReportDef>, inSide: ReportDir, outSide: ReportDir, msgs: seq<Msg>,
                            framesIn: seq<seq<byte>>, framesOut: seq<seq<byte>>)
    requires Link(defs, inSide) && Link(defs, outSide) && NoneEmpty(framesIn) && NoneEmpty(framesOut)
    requires forall d :: d in defs ==> d.MaxPayload() <= MAX_RAW_SIZE - 2
    requires Carries(Filter(msgs, DirIn), Session(defs, inSide, framesIn))
    requires Carries(Filter(msgs, DirOut), Session(defs, outSide, framesOut))
    ensures var (log, emptied) := DumpTraces.Dump(defs, msgs);
            emptied &&
            DumpTraces.LogOf(log, DirIn) == Arrivals(defs, inSide, framesIn) &&
            DumpTraces.LogOf(log, DirOut) == Arrivals(defs, outSide, framesOut)
  {
    hide Filter, Carries, Session, Usable, HasEntry, Readable, NoneEmpty, Inputs;
    hide DumpTraces.DecodeAll, DumpTraces.Dump, DumpTraces.LogOf;
    CarriedInputs(defs, inSide, framesIn, Filter(msgs, DirIn));
    CarriedInputs(defs, outSide, framesOut, Filter(msgs, DirOut));
    DecodeSession(defs, inSide, framesIn);
    DecodeSession(defs, outSide, framesOut);
    DumpTraces.Demultiplexes(defs, msgs);
  }

  lemma {:induction false} StampedCarries(msgs: seq<Msg>, dir: Dir, reports: seq<Report>, ts: nat)
    requires Carries(Filter(msgs, dir), reports)
    ensures Carries(Filter(TraceText.Stamped(msgs, ts), dir), reports)
    decreases msgs
  {
    if msgs != [] {
      TraceText.StampedStep(msgs, ts);
      hide TraceText.Stamped;
      var first := msgs[0].(ts := ts);
      SelectConcat([first], TraceText.Stamped(msgs[1..], ts + 1), InDir(dir));
      SelectOne(first, InDir(dir));
      StampedCarries(msgs[1..], dir, if msgs[0].dir == dir then reports[1..] else reports, ts + 1);
    }
  }

  lemma CarriedSizes(msgs: seq<Msg>, dir: Dir, reports: seq<Report>)
    requires Carries(Filter(msgs, dir), reports)
    requires forall r :: r in reports ==> |r.data| <= MAX_RAW_SIZE - 2
    ensures forall m :: m in msgs && m.dir == dir ==> m.data != [] && !TraceText.Oversize(m)
  {
    SelectMembers(msgs, InDir(dir));
    forall m | m in msgs && m.dir == dir ensures m.data != [] && !TraceText.Oversize(m) {
      assert m in Filter(msgs, dir);
      var i :| 0 <= i < |Filter(msgs, dir)| && Filter(msgs, dir)[i] == m;
      assert m.data == RawWrite(reports[i]) && reports[i] in reports;
    }
  }

  /** The same when the trace went through a text file: what was recorded can be dumped again. */
  lemma RecordedSessions(defs: seq<ReportDef>, inSide: ReportDir, outSide: ReportDir, msgs: seq<Msg>,
                         framesIn: seq<seq<byte>>, framesOut: seq<seq<byte>>)
    requires Link(defs, inSide) && Link(defs, outSide) && NoneEmpty(framesIn) && NoneEmpty(framesOut)
    requires forall d :: d in defs ==> d.MaxPayload() <= MAX_RAW_SIZE - 2
    requires Carries(Filter(msgs, DirIn), Session(defs, inSide, framesIn))
    requires Carries(Filter(msgs, DirOut), Session(defs, outSide, framesOut))
    ensures var (read, end) := TraceText.ReadAll(TraceText.Reading(TraceText.WriteAll(msgs), None, 0));
            var (log, emptied) := DumpTraces.Dump(defs, read);
            end == TraceText.EOF && emptied &&
            DumpTraces.LogOf(log, DirIn) == Arrivals(defs, inSide, framesIn) &&
            DumpTraces.LogOf(log, DirOut) == Arrivals(defs, outSide, framesOut)
  {
    hide Carries, Filter, Session, Usable, HasEntry, NoneEmpty;
    hide DumpTraces.Dump, DumpTraces.LogOf, TraceText.ReadAll, TraceText.WriteAll;
    SessionSizes(defs, inSide, framesIn);
    SessionSizes(defs, outSide, framesOut);
    CarriedSizes(msgs, DirIn, Session(defs, inSide, framesIn));
    CarriedSizes(msgs, DirOut, Session(defs, outSide, framesOut));
    TraceText.StreamRoundTripExactly(msgs, 0);
    StampedCarries(msgs, DirIn, Session(defs, inSide, framesIn), 0);
    StampedCarries(msgs, DirOut, Session(defs, outSide, framesOut), 0);
    InterleavedSessions(defs, inSide, outSide, TraceText.Stamped(msgs, 0), framesIn, framesOut);
  }

  /** And each of those frames scans to the payloads that were put into it. */
  lemma ArrivalScans(defs: seq<ReportDef>, side: ReportDir, payloads: seq<seq<byte>>, spare: seq<byte>)
    requires Link(defs, side) && Framable(payloads)
    ensures Packets.ScanFrame(Padded(defs, side, Packets.EncodeAll(payloads)), spare)
         == Packets.Scan(payloads, |payloads|, false)
  {
    var frame := Packets.EncodeAll(payloads);
    HidLaws.FragmentContents(defs, side, frame, 0);
    PacketLaws.ScanRoundTrip(payloads, |HidLaws.Contents(Fragment(defs, side, frame, 0))| - |frame|, spare);
  }

  /** Any table qualifies that has distinct ids of one byte and, for the direction, a last entry with room. */
  lemma DistinctIdsLink(defs: seq<ReportDef>, side: ReportDir)
    requires forall i, j :: 0 <= i < j < |defs| ==> defs[i].id != defs[j].id
    requires forall d :: d in defs ==> 0 <= d.id < 0x100 && d.MaxPayload() >= 0
    requires HasEntry(defs, side) && Usable(defs, side)
    ensures Link(defs, side)
  {
    HidDecoderLaws.DistinctIdsCompatible(defs, side);
  }

  lemma NumberedLink(defs: seq<ReportDef>, side: ReportDir)
    requires |defs| < 0xFF && HasEntry(defs, side)
    requires forall i :: 0 <= i < |defs| ==> defs[i].id == i + 1 && defs[i].len >= 2
    ensures Link(defs, side)
  {
    DistinctIdsLink(defs, side);
  }

  /** So do both built-in tables, the second one in both directions. */
  lemma DefaultTableLinks()
    ensures Link(DEFAULT_REPORT_DEFS, AccIn)
  {
    HidLaws.DefaultTableOptimal();
    NumberedLink(DEFAULT_REPORT_DEFS, AccIn);
  }

  lemma LegacyTableLinks()
    ensures Link(LEGACY_REPORT_DEFS, AccIn) && Link(LEGACY_REPORT_DEFS, AccOut)
  {
    LegacyIds();
    assert LEGACY_REPORT_DEFS[0] == LEGACY_ACC_IN_DEFS[0] && LEGACY_REPORT_DEFS[12] == LEGACY_ACC_OUT_DEFS[0];
    assert LEGACY_REPORT_DEFS[0] in LEGACY_REPORT_DEFS && LEGACY_REPORT_DEFS[12] in LEGACY_REPORT_DEFS;
    NumberedLink(LEGACY_REPORT_DEFS, AccIn);
    NumberedLink(LEGACY_REPORT_DEFS, AccOut);
  }

  lemma LegacyIds()
    ensures |LEGACY_REPORT_DEFS| == 21
    ensures forall i :: 0 <= i < 21 ==> LEGACY_REPORT_DEFS[i].id == i + 1 && LEGACY_REPORT_DEFS[i].len >= 2
  {
    assert forall i :: 0 <= i < 12 ==> LEGACY_ACC_IN_DEFS[i].id == i + 1 && LEGACY_ACC_IN_DEFS[i].len >= 2;
    assert forall i :: 0 <= i < 9 ==> LEGACY_ACC_OUT_DEFS[i].id == i + 13 && LEGACY_ACC_OUT_DEFS[i].len >= 2;
  }
}

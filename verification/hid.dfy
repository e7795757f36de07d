/** HID reports (hid/report_def.go, hid/report_transport.go) and the fragmentation of frames (hid/hid.go). */
module Hid {
  import opened Bytes

  datatype ReportDir = AccIn | AccOut

  datatype ReportDef = ReportDef(id: int, len: int, dir: ReportDir) {
    function MaxPayload(): int {
      len - 1
    }

    /** The entry serves frames that go to the accessory and can take `size` bytes. */
    predicate Fits(size: int, wanted: ReportDir) {
      dir == wanted && MaxPayload() >= size
    }
  }

  datatype Report = Report(id: byte, linkControl: byte, data: seq<byte>)

  datatype Error = NoMatchingReport | ReportIdNotFound | WriteFailed | NoProgress | EOF

  const LINK_DONE: byte := 0
  const LINK_CONTINUE: byte := 1
  const LINK_MORE_TO_FOLLOW: byte := 2
  const LINK_CONTINUE_MORE: byte := 3  // both bits

  const DEFAULT_REPORT_DEFS: seq<ReportDef> := [
    ReportDef(0x01, 12, AccIn), ReportDef(0x02, 14, AccIn), ReportDef(0x03, 20, AccIn),
    ReportDef(0x04, 63, AccIn), ReportDef(0x05, 8, AccIn), ReportDef(0x06, 10, AccIn),
    ReportDef(0x07, 14, AccIn), ReportDef(0x08, 20, AccIn), ReportDef(0x09, 63, AccIn)]

  const LEGACY_ACC_IN_DEFS: seq<ReportDef> := [
    ReportDef(0x01, 5, AccIn), ReportDef(0x02, 9, AccIn), ReportDef(0x03, 13, AccIn),
    ReportDef(0x04, 17, AccIn), ReportDef(0x05, 25, AccIn), ReportDef(0x06, 49, AccIn),
    ReportDef(0x07, 95, AccIn), ReportDef(0x08, 193, AccIn), ReportDef(0x09, 257, AccIn),
    ReportDef(0x0A, 385, AccIn), ReportDef(0x0B, 513, AccIn), ReportDef(0x0C, 767, AccIn)]

  const LEGACY_ACC_OUT_DEFS: seq<ReportDef> := [
    ReportDef(0x0D, 5, AccOut), ReportDef(0x0E, 9, AccOut), ReportDef(0x0F, 13, AccOut),
    ReportDef(0x10, 17, AccOut), ReportDef(0x11, 25, AccOut), ReportDef(0x12, 49, AccOut),
    ReportDef(0x13, 95, AccOut), ReportDef(0x14, 193, AccOut), ReportDef(0x15, 255, AccOut)]

  const LEGACY_REPORT_DEFS: seq<ReportDef> := LEGACY_ACC_IN_DEFS + LEGACY_ACC_OUT_DEFS

  // ---------------------------------------------------------------- Pick and Find

  /** The entry Pick settles on, when `sofar` is the one it holds before it looks at `defs`. */
  function PickFrom(defs: seq<ReportDef>, size: int, dir: ReportDir, sofar: Option<ReportDef>): Option<ReportDef> {
    if defs == [] then sofar
    else if defs[0].Fits(size, dir) then Some(defs[0])
    else PickFrom(defs[1..], size, dir, if defs[0].dir == dir then Some(defs[0]) else sofar)
  }

  function Picked(defs: seq<ReportDef>, size: int, dir: ReportDir): Option<ReportDef> {
    PickFrom(defs, size, dir, None)
  }

  method Pick(defs: seq<ReportDef>, size: int, dir: ReportDir) returns (r: Result<ReportDef, Error>)
    ensures match Picked(defs, size, dir)
            case None => r == Failure(NoMatchingReport)
            case Some(def) => r == Success(def)
  {
    var def: Option<ReportDef> := None;
    for i := 0 to |defs|
      invariant PickFrom(defs[i..], size, dir, def) == Picked(defs, size, dir)
    {
      assert defs[i..][1..] == defs[i + 1..];
      if defs[i].dir == dir {
        def := Some(defs[i]);
        if defs[i].MaxPayload() >= size {
          return Success(defs[i]);
        }
      }
    }
    r := match def case None => Failure(NoMatchingReport) case Some(d) => Success(d);
  }

  /** Find's result: the first entry with this id. */
  function Found(defs: seq<ReportDef>, id: int): Option<ReportDef> {
    if defs == [] then None else if defs[0].id == id then Some(defs[0]) else Found(defs[1..], id)
  }

  method Find(defs: seq<ReportDef>, id: int) returns (r: Result<ReportDef, Error>)
    ensures match Found(defs, id)
            case None => r == Failure(ReportIdNotFound)
            case Some(def) => r == Success(def)
  {
    for i := 0 to |defs|
      invariant Found(defs[i..], id) == Found(defs, id)
    {
      assert defs[i..][1..] == defs[i + 1..];
      if defs[i].id == id {
        return Success(defs[i]);
      }
    }
    r := Failure(ReportIdNotFound);
  }

  // ---------------------------------------------------------------- fragmentation

  predicate HasEntry(defs: seq<ReportDef>, side: ReportDir) {
    exists d :: d in defs && d.dir == side
  }

  predicate LastAt(defs: seq<ReportDef>, side: ReportDir, i: nat) {
    i < |defs| && defs[i].dir == side && forall j :: i < j < |defs| ==> defs[j].dir != side
  }

  /** The last entry of the direction, on which Pick falls back, has room. */
  predicate Usable(defs: seq<ReportDef>, side: ReportDir) {
    forall i :: 0 <= i < |defs| && LastAt(defs, side, i) ==> defs[i].MaxPayload() >= 1
  }

  predicate Fitting(defs: seq<ReportDef>, side: ReportDir, size: int) {
    exists d :: d in defs && d.Fits(size, side)
  }

  /** What it takes to get `size` bytes across: a last entry with room, or one entry that takes them all. */
  predicate CanSend(defs: seq<ReportDef>, side: ReportDir, size: int) {
    HasEntry(defs, side) && (Usable(defs, side) || Fitting(defs, side, size))
  }

  lemma {:induction false} PickFits(defs: seq<ReportDef>, size: int, dir: ReportDir, sofar: Option<ReportDef>)
    requires Fitting(defs, dir, size)
    ensures var p := PickFrom(defs, size, dir, sofar); p.Some? && p.value in defs && p.value.Fits(size, dir)
  {
    if !defs[0].Fits(size, dir) {
      assert Fitting(defs[1..], dir, size) by {
        var d :| d in defs && d.Fits(size, dir);
        assert d in defs[1..];
      }
      PickFits(defs[1..], size, dir, if defs[0].dir == dir then Some(defs[0]) else sofar);
    }
  }

  lemma {:induction false} PickFallsBack(defs: seq<ReportDef>, size: int, dir: ReportDir, sofar: Option<ReportDef>)
    requires !Fitting(defs, dir, size)
    ensures if HasEntry(defs, dir)
            then exists i: nat :: LastAt(defs, dir, i) && PickFrom(defs, size, dir, sofar) == Some(defs[i])
            else PickFrom(defs, size, dir, sofar) == sofar
  {
    if defs != [] {
      var rest, next := defs[1..], if defs[0].dir == dir then Some(defs[0]) else sofar;
      assert forall d :: d in defs <==> d == defs[0] || d in rest;
      assert !defs[0].Fits(size, dir) && !Fitting(rest, dir, size);
      PickFallsBack(rest, size, dir, next);
      if HasEntry(rest, dir) {
        var i: nat :| LastAt(rest, dir, i) && PickFrom(rest, size, dir, next) == Some(rest[i]);
        assert LastAt(defs, dir, i + 1);
      } else if defs[0].dir == dir {
        assert LastAt(defs, dir, 0);
      }
    }
  }

  /** The entry used for the next report. */
  function Choice(defs: seq<ReportDef>, side: ReportDir, size: nat): (d: ReportDef)
    requires size >= 1 && CanSend(defs, side, size)
    ensures d in defs && d.dir == side && d.MaxPayload() >= 1
    ensures Picked(defs, size, side) == Some(d)
    ensures d.Fits(size, side) || (Usable(defs, side) && !Fitting(defs, side, size))
  {
    if Fitting(defs, side, size) then
      PickFits(defs, size, side, None);
      Picked(defs, size, side).value
    else
      PickFallsBack(defs, size, side, None);
      Picked(defs, size, side).value
  }

  function LinkFor(offset: nat, last: bool): byte {
    if last then (if offset > 0 then LINK_CONTINUE else LINK_DONE)
    else if offset == 0 then LINK_MORE_TO_FOLLOW
    else LINK_CONTINUE_MORE
  }

  /** The reports for the rest of a frame, `offset` bytes of which have been sent. */
  function Fragment(defs: seq<ReportDef>, side: ReportDir, data: seq<byte>, offset: nat): seq<Report>
    requires data == [] || CanSend(defs, side, |data|)
    decreases |data|
  {
    if data == [] then []
    else
      var d := Choice(defs, side, |data|);
      var m := d.MaxPayload();
      if |data| > m then
        [Report(d.id % 0x100, LinkFor(offset, false), data[..m])] + Fragment(defs, side, data[m..], offset + m)
      else
        [Report(d.id % 0x100, LinkFor(offset, true), data + Zeros(m - |data|))]
  }

  /** A device that takes a number of reports and then fails. */
  class ReportWriter {
    var reports: seq<Report>
    var room: nat

    constructor (room: nat)
      ensures reports == [] && this.room == room
    {
      reports, this.room := [], room;
    }

    method WriteReport(report: Report) returns (ok: bool)
      modifies this
      ensures ok == (old(room) > 0)
      ensures reports == old(reports) + (if ok then [report] else [])
      ensures room == if ok then old(room) - 1 else 0
    {
      ok := room > 0;
      if ok {
        reports, room := reports + [report], room - 1;
      }
    }
  }

  class Encoder {
    const reportDefs: seq<ReportDef>
    const w: ReportWriter

    constructor (w: ReportWriter, defs: seq<ReportDef>)
      ensures this.w == w && reportDefs == defs
    {
      this.w, reportDefs := w, defs;
    }

    /** What is left of a frame can be sent, if there is any entry for it. */
    predicate CanContinue(data: seq<byte>, offset: nat)
      requires offset <= |data|
    {
      HasEntry(reportDefs, AccIn) ==> offset == |data| || CanSend(reportDefs, AccIn, |data| - offset)
    }

    /** The loop body up to the write: the next report, and how much of the frame it takes. */
    method NextReport(data: seq<byte>, offset: nat) returns (r: Result<(Report, nat), Error>)
      requires offset < |data| && CanContinue(data, offset)
      ensures !HasEntry(reportDefs, AccIn) ==> r == Failure(NoMatchingReport)
      ensures HasEntry(reportDefs, AccIn) ==>
        r.Success? && 1 <= r.value.1 <= |data| - offset && CanContinue(data, offset + r.value.1) &&
        Fragment(reportDefs, AccIn, data[offset..], offset)
        == [r.value.0] + Fragment(reportDefs, AccIn, data[offset + r.value.1..], offset + r.value.1)
    {
      var bytesLeft := |data| - offset;
      var picked := Pick(reportDefs, bytesLeft, AccIn);
      if picked.Failure? {
        NoneWithoutEntry(reportDefs, AccIn, bytesLeft);
        return Failure(picked.error);
      }
      var reportDef := picked.value;
      PickedIsChoice(reportDefs, AccIn, bytesLeft);
      hide Fragment, CanSend, HasEntry;
      var payloadLen := bytesLeft;
      var linkControl := LINK_DONE;
      if bytesLeft > reportDef.MaxPayload() {
        payloadLen := reportDef.MaxPayload();
        linkControl := if offset == 0 then LINK_MORE_TO_FOLLOW else LINK_CONTINUE_MORE;
      } else if offset > 0 {
        linkControl := LINK_CONTINUE;
      }
      var reportData := data[offset..offset + payloadLen] + Zeros(reportDef.MaxPayload() - payloadLen);
      var report := Report(reportDef.id % 0x100, linkControl, reportData);
      assert data[offset..][..payloadLen] == data[offset..offset + payloadLen];
      assert data[offset..][payloadLen..] == data[offset + payloadLen..];
      FragmentStep(reportDefs, AccIn, data[offset..], offset, report, payloadLen);
      r := Success((report, payloadLen));
    }

    /** `sent` is what has been written by the time that `offset` bytes have been taken. */
    ghost predicate OnTheWay(data: seq<byte>, offset: nat, sent: seq<Report>) {
      offset <= |data| && CanContinue(data, offset) &&
      if HasEntry(reportDefs, AccIn)
      then
        CanContinue(data, 0) &&
        Fragment(reportDefs, AccIn, data, 0) == sent + Fragment(reportDefs, AccIn, data[offset..], offset)
      else offset == 0 && sent == []
    }

    lemma NoneSent(data: seq<byte>)
      requires CanContinue(data, 0)
      ensures OnTheWay(data, 0, [])
    {
      assert data[0..] == data;
    }

    lemma SendOne(data: seq<byte>, offset: nat, sent: seq<Report>, report: Report, n: nat)
      requires OnTheWay(data, offset, sent) && HasEntry(reportDefs, AccIn)
      requires 1 <= n && offset + n <= |data| && CanContinue(data, offset + n)
      requires Fragment(reportDefs, AccIn, data[offset..], offset)
            == [report] + Fragment(reportDefs, AccIn, data[offset + n..], offset + n)
      ensures OnTheWay(data, offset + n, sent + [report])
      ensures |Fragment(reportDefs, AccIn, data, 0)| > |sent| && Fragment(reportDefs, AccIn, data, 0)[..|sent|] == sent
    {
      hide Fragment, CanSend;
      AppendAssociative(sent, [report], Fragment(reportDefs, AccIn, data[offset + n..], offset + n));
    }

    /** What a device with room for a number of reports gets of a frame, and what WriteFrame returns. */
    ghost predicate Delivers(data: seq<byte>, room: nat, r: Result<(), Error>, written: seq<Report>)
      requires CanContinue(data, 0)
    {
      if data == [] then r == Success(()) && written == []
      else if !HasEntry(reportDefs, AccIn) then r == Failure(NoMatchingReport) && written == []
      else
        var reports := Fragment(reportDefs, AccIn, data, 0);
        if |reports| <= room then r == Success(()) && written == reports
        else r == Failure(WriteFailed) && written == reports[..room]
    }

    lemma NoEntry(data: seq<byte>, room: nat, offset: nat, sent: seq<Report>)
      requires OnTheWay(data, offset, sent) && CanContinue(data, 0) && offset < |data| && !HasEntry(reportDefs, AccIn)
      ensures Delivers(data, room, Failure(NoMatchingReport), sent)
    {
    }

    lemma PartSent(data: seq<byte>, room: nat, sent: seq<Report>)
      requires HasEntry(reportDefs, AccIn) && CanContinue(data, 0) && data != [] && |sent| == room
      requires |Fragment(reportDefs, AccIn, data, 0)| > |sent| && Fragment(reportDefs, AccIn, data, 0)[..|sent|] == sent
      ensures Delivers(data, room, Failure(WriteFailed), sent)
    {
    }

    lemma AllSent(data: seq<byte>, room: nat, offset: nat, sent: seq<Report>)
      requires OnTheWay(data, offset, sent) && CanContinue(data, 0) && offset >= |data| && |sent| <= room
      ensures Delivers(data, room, Success(()), sent)
    {
      assert data[|data|..] == [];
      assert HasEntry(reportDefs, AccIn) ==> Fragment(reportDefs, AccIn, data[|data|..], offset) == [];
      if data == [] && HasEntry(reportDefs, AccIn) {
        assert Fragment(reportDefs, AccIn, data, 0) == [];
      }
    }

    method WriteFrame(data: seq<byte>) returns (r: Result<(), Error>)
      requires CanContinue(data, 0)
      modifies w
      ensures old(w.reports) <= w.reports
      ensures Delivers(data, old(w.room), r, w.reports[|old(w.reports)|..])
    {
      hide Fragment, CanSend, HasEntry, OnTheWay, Delivers;
      var offset := 0;
      ghost var sent: seq<Report> := [];
      NoneSent(data);
      while offset < |data|
        invariant OnTheWay(data, offset, sent) && offset <= |data| && CanContinue(data, offset)
        invariant w.reports == old(w.reports) + sent && |sent| + w.room == old(w.room)
        decreases |data| - offset
      {
        var next := NextReport(data, offset);
        if next.Failure? {
          NoEntry(data, old(w.room), offset, sent);
          return Failure(next.error);
        }
        var (report, payloadLen) := next.value;
        SendOne(data, offset, sent, report, payloadLen);
        var ok := w.WriteReport(report);
        if !ok {
          PartSent(data, old(w.room), sent);
          assert w.reports[|old(w.reports)|..] == sent;
          return Failure(WriteFailed);
        }
        sent := sent + [report];
        offset := offset + payloadLen;
      }
      AllSent(data, old(w.room), offset, sent);
      r := Success(());
    }
  }

  lemma NoneWithoutEntry(defs: seq<ReportDef>, side: ReportDir, size: nat)
    requires Picked(defs, size, side) == None
    ensures !HasEntry(defs, side)
  {
    if Fitting(defs, side, size) {
      PickFits(defs, size, side, None);
    } else {
      PickFallsBack(defs, size, side, None);
    }
  }

  lemma PickedIsChoice(defs: seq<ReportDef>, side: ReportDir, size: nat)
    requires size >= 1 && Picked(defs, size, side).Some? && (HasEntry(defs, side) ==> CanSend(defs, side, size))
    ensures CanSend(defs, side, size) && Picked(defs, size, side) == Some(Choice(defs, side, size))
    ensures var m := Choice(defs, side, size).MaxPayload(); m < size ==> CanSend(defs, side, size - m)
  {
    if !Fitting(defs, side, size) {
      PickFallsBack(defs, size, side, None);
    }
  }

  /** One turn of the loop peels the first report off. */
  lemma FragmentStep(defs: seq<ReportDef>, side: ReportDir, rest: seq<byte>, offset: nat, report: Report,
                     payloadLen: nat)
    requires rest != [] && CanSend(defs, side, |rest|)
    requires payloadLen == Min(|rest|, Choice(defs, side, |rest|).MaxPayload())
    requires report == Report(Choice(defs, side, |rest|).id % 0x100,
                              LinkFor(offset, |rest| <= Choice(defs, side, |rest|).MaxPayload()),
                              rest[..payloadLen] + Zeros(Choice(defs, side, |rest|).MaxPayload() - payloadLen))
    ensures Fragment(defs, side, rest, offset)
         == [report] + Fragment(defs, side, rest[payloadLen..], offset + payloadLen)
  {
    hide CanSend;
    var m := Choice(defs, side, |rest|).MaxPayload();
    if |rest| > m {
      assert rest[..m] + Zeros(0) == rest[..m];
    } else {
      assert rest[..|rest|] == rest;
    }
  }
}

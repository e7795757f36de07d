/**
 Reassembly of frames (hid/hid.go) from raw reports (hid/report_transport.go).  The reader behind a
 decoder is one direction of a trace queue, as in dumpTrace; a live device is a queue with one
 direction.
 */
module HidDecoder {
  import opened Bytes
  import opened Sequences
  import opened Hid
  import opened TraceQueue

  const MAX_RAW_SIZE := 1024

  datatype ReadResult = Got(report: Report) | Failed(error: Error)

  /** The outcome of ReadFrame and the number of reads it made before end of input. */
  datatype Decoded = Frame(frame: seq<byte>, used: nat) | Broken(error: Error, used: nat) {
    function Outcome(): Result<seq<byte>, Error> {
      match this
      case Frame(f, _) => Success(f)
      case Broken(e, _) => Failure(e)
    }

    function After(n: nat): Decoded {
      match this
      case Frame(f, u) => Frame(f, u + n)
      case Broken(e, u) => Broken(e, u + n)
    }
  }

  /** The raw form that rawReportWriter emits. */
  function RawWrite(report: Report): seq<byte> {
    [report.id, report.linkControl] + report.data
  }

  /** What rawReportReader makes of one message, which it reads into a buffer of fixed size. */
  function RawRead(message: seq<byte>): ReadResult {
    var n := Min(|message|, MAX_RAW_SIZE);
    if n < 3 then Failed(NoProgress) else Got(Report(message[0], message[1], message[2..n]))
  }

  function Inputs(msgs: seq<Msg>): (r: seq<ReadResult>)
    ensures |r| == |msgs| && forall i :: 0 <= i < |msgs| ==> r[i] == RawRead(msgs[i].data)
  {
    seq(|msgs|, i requires 0 <= i < |msgs| => RawRead(msgs[i].data))
  }

  // ---------------------------------------------------------------- the abstract decoder

  /** Reslicing a report to its definition's payload needs a definition of non-negative size. */
  predicate Readable(defs: seq<ReportDef>) {
    forall d :: d in defs ==> d.MaxPayload() >= 0
  }

  lemma {:induction false} FoundMember(defs: seq<ReportDef>, id: int)
    ensures Found(defs, id).Some? ==> Found(defs, id).value in defs && Found(defs, id).value.id == id
    ensures Found(defs, id) == None <==> forall d :: d in defs ==> d.id != id
  {
    if defs != [] && defs[0].id != id {
      FoundMember(defs[1..], id);
      assert forall d :: d in defs <==> d == defs[0] || d in defs[1..];
    }
  }

  predicate Known(defs: seq<ReportDef>, r: ReadResult) {
    r.Got? && Found(defs, r.report.id).Some?
  }

  /** The part of a report's data that its definition allows. */
  function Clip(defs: seq<ReportDef>, r: ReadResult): seq<byte>
    requires Readable(defs) && Known(defs, r)
  {
    FoundMember(defs, r.report.id);
    r.report.data[..Min(|r.report.data|, Found(defs, r.report.id).value.MaxPayload())]
  }

  predicate Ends(r: ReadResult) {
    r.Got? && r.report.linkControl in {LINK_DONE, LINK_CONTINUE}
  }

  predicate Restarts(r: ReadResult) {
    r.Got? && r.report.linkControl in {LINK_DONE, LINK_MORE_TO_FOLLOW}
  }

  /** The decoder's buffer after one more report. */
  function Absorb(defs: seq<ReportDef>, buf: seq<byte>, r: ReadResult): seq<byte>
    requires Readable(defs) && Known(defs, r)
  {
    if Restarts(r) then Clip(defs, r)
    else if r.report.linkControl in {LINK_CONTINUE_MORE, LINK_CONTINUE} then buf + Clip(defs, r)
    else buf
  }

  function Decode(defs: seq<ReportDef>, buf: seq<byte>, inputs: seq<ReadResult>): (r: Decoded)
    requires Readable(defs)
    ensures r.used <= |inputs|
    ensures inputs != [] ==> r.used >= 1
    decreases inputs
  {
    if inputs == [] then Broken(EOF, 0)
    else if inputs[0].Failed? then Broken(inputs[0].error, 1)
    else if !Known(defs, inputs[0]) then Broken(ReportIdNotFound, 1)
    else
      var buf' := Absorb(defs, buf, inputs[0]);
      if Ends(inputs[0]) then Frame(buf', 1) else Decode(defs, buf', inputs[1..]).After(1)
  }

  // ---------------------------------------------------------------- the classes

  /** rawReportReader over a queueDirReader. */
  class ReportReader {
    const q: Queue
    const dir: Dir

    constructor (q: Queue, dir: Dir)
      ensures this.q == q && this.dir == dir
    {
      this.q, this.dir := q, dir;
    }

    /** Takes the next message of the direction, if there is one, and nothing else. */
    method ReadReport() returns (r: ReadResult)
      requires q.Valid()
      modifies q, q.all, q.ins, q.outs
      ensures q.Valid()
      ensures var was, k := old(q.Contents()), First(old(q.Contents()), dir);
              if k == |was| then r == Failed(EOF) && q.Contents() == was
              else r == RawRead(was[k].data) && q.Contents() == RemoveAt(was, k)
    {
      var msg := q.DequeueDir(dir);
      if msg == None {
        return Failed(EOF);
      }
      var n := Min(|msg.value.data|, MAX_RAW_SIZE);
      if n < 3 {
        return Failed(NoProgress);
      }
      r := Got(Report(msg.value.data[0], msg.value.data[1], msg.value.data[2..n]));
    }
  }

  /** The first message of a direction is the head of its filter. */
  lemma FirstIsHead(msgs: seq<Msg>, dir: Dir)
    ensures var k := First(msgs, dir);
            if k == |msgs| then Filter(msgs, dir) == []
            else Filter(msgs, dir) == [msgs[k]] + Filter(RemoveAt(msgs, k), dir) &&
                 forall other :: other != dir ==> Filter(RemoveAt(msgs, k), other) == Filter(msgs, other)
  {
    var k := First(msgs, dir);
    if k == |msgs| {
      SelectNone(msgs, InDir(dir));
    } else {
      SelectRemove(msgs, k, InDir(dir));
      SelectRemove(msgs, k, InDir(if dir == DirIn then DirOut else DirIn));
    }
  }

  /** The queue after a reader of `dir` has made `n` reads. */
  function TakeDir(msgs: seq<Msg>, dir: Dir, n: nat): seq<Msg> {
    if n == 0 then msgs
    else
      var before := TakeDir(msgs, dir, n - 1);
      var k := First(before, dir);
      if k == |before| then before else RemoveAt(before, k)
  }

  lemma TakeOne(msgs: seq<Msg>, dir: Dir, n: nat)
    ensures TakeDir(msgs, dir, 0) == msgs
    ensures var was, now := TakeDir(msgs, dir, n), TakeDir(msgs, dir, n + 1);
            var k := First(was, dir);
            if k == |was| then now == was else now == RemoveAt(was, k) && |now| == |was| - 1
  {
  }

  /** `n` reads of `dir` lead from one content of the queue to another. */
  ghost predicate Took(before: seq<Msg>, after: seq<Msg>, dir: Dir, n: nat) {
    after == TakeDir(before, dir, n)
  }

  lemma {:induction false} TookMore(a: seq<Msg>, b: seq<Msg>, c: seq<Msg>, dir: Dir, m: nat, n: nat)
    requires Took(a, b, dir, m) && Took(b, c, dir, n)
    ensures Took(a, c, dir, m + n)
    decreases n
  {
    hide First, RemoveAt;
    if n > 0 {
      TookMore(a, b, TakeDir(b, dir, n - 1), dir, m, n - 1);
      assert m + (n - 1) + 1 == m + n;
    }
  }

  /** It has lost the first `n` messages of that direction and none of the other. */
  lemma {:induction false} TakeDirFilter(msgs: seq<Msg>, dir: Dir, n: nat)
    requires n <= |Filter(msgs, dir)|
    ensures Filter(TakeDir(msgs, dir, n), dir) == Filter(msgs, dir)[n..]
    ensures forall other :: other != dir ==> Filter(TakeDir(msgs, dir, n), other) == Filter(msgs, other)
    ensures |TakeDir(msgs, dir, n)| == |msgs| - n
  {
    hide Filter, First;
    if n > 0 {
      TakeDirFilter(msgs, dir, n - 1);
      FirstIsHead(TakeDir(msgs, dir, n - 1), dir);
      assert Filter(msgs, dir)[n - 1..][1..] == Filter(msgs, dir)[n..];
    }
  }

  /** One turn of the decoder's loop, on the queue and on the inputs that the queue stands for. */
  lemma DecodeOne(defs: seq<ReportDef>, buf: seq<byte>, msgs: seq<Msg>, dir: Dir)
    requires Readable(defs)
    ensures var k := First(msgs, dir);
            var decoded := Decode(defs, buf, Inputs(Filter(msgs, dir)));
            if k == |msgs| then decoded == Broken(EOF, 0)
            else
              var read, rest := RawRead(msgs[k].data), RemoveAt(msgs, k);
              if read.Failed? then decoded == Broken(read.error, 1)
              else if !Known(defs, read) then decoded == Broken(ReportIdNotFound, 1)
              else
                var buf' := Absorb(defs, buf, read);
                decoded == if Ends(read) then Frame(buf', 1) else Decode(defs, buf', Inputs(Filter(rest, dir))).After(1)
  {
    FirstIsHead(msgs, dir);
    var k := First(msgs, dir);
    var inputs := Inputs(Filter(msgs, dir));
    if k < |msgs| {
      assert inputs[1..] == Inputs(Filter(RemoveAt(msgs, k), dir));
    }
  }

  /**
   Reading `n` messages of `dir` takes the decoder from buffer `b` and queue `was` to buffer `b'` and
   queue `now`; `done` says whether the frame is complete, still open, or given up.
   */
  ghost predicate Progress(defs: seq<ReportDef>, dir: Dir, b: seq<byte>, was: seq<Msg>,
                           done: Result<bool, Error>, b': seq<byte>, now: seq<Msg>, n: nat)
    requires Readable(defs)
  {
    Took(was, now, dir, n) &&
    Decode(defs, b, Inputs(Filter(was, dir)))
    == match done
       case Failure(e) => Broken(e, n)
       case Success(true) => Frame(b', n)
       case Success(false) => Decode(defs, b', Inputs(Filter(now, dir))).After(n)
  }

  lemma ProgressMore(defs: seq<ReportDef>, dir: Dir, b0: seq<byte>, q0: seq<Msg>, b1: seq<byte>, q1: seq<Msg>, m: nat,
                     done: Result<bool, Error>, b2: seq<byte>, q2: seq<Msg>, n: nat)
    requires Readable(defs)
    requires Progress(defs, dir, b0, q0, Success(false), b1, q1, m) && Progress(defs, dir, b1, q1, done, b2, q2, n)
    ensures Progress(defs, dir, b0, q0, done, b2, q2, m + n)
  {
    hide Decode, Filter, Inputs;
    TookMore(q0, q1, q2, dir, m, n);
  }

  lemma ProgressEnd(defs: seq<ReportDef>, dir: Dir, b: seq<byte>, was: seq<Msg>,
                    done: Result<bool, Error>, b': seq<byte>, now: seq<Msg>, n: nat)
    requires Readable(defs) && Progress(defs, dir, b, was, done, b', now, n) && done != Success(false)
    ensures var decoded := Decode(defs, b, Inputs(Filter(was, dir)));
            Took(was, now, dir, decoded.used) &&
            decoded.Outcome() == if done.Success? then Success(b') else Failure(done.error)
  {
  }

  lemma ProgressStart(defs: seq<ReportDef>, dir: Dir, b: seq<byte>, q: seq<Msg>)
    requires Readable(defs)
    ensures Progress(defs, dir, b, q, Success(false), b, q, 0)
  {
  }

  class Decoder {
    const reportDefs: seq<ReportDef>
    const r: ReportReader
    var buf: seq<byte>

    constructor (r: ReportReader, defs: seq<ReportDef>)
      ensures this.r == r && reportDefs == defs
    {
      this.r, reportDefs, buf := r, defs, [];
    }

    /** The part of the loop body behind the read: whether the report completes the frame. */
    method Take(report: Report) returns (r: Result<bool, Error>)
      requires Readable(reportDefs)
      modifies `buf
      ensures if Known(reportDefs, Got(report))
              then r == Success(Ends(Got(report))) && buf == Absorb(reportDefs, old(buf), Got(report))
              else r == Failure(ReportIdNotFound)
    {
      var found := Find(reportDefs, report.id);
      if found.Failure? {
        return Failure(found.error);
      }
      FoundMember(reportDefs, report.id);
      var n := Min(|report.data|, found.value.MaxPayload());
      var reportData := report.data[..n];
      var done := false;
      if report.linkControl == LINK_DONE {
        buf, done := reportData, true;
      } else if report.linkControl == LINK_MORE_TO_FOLLOW {
        buf := reportData;
      } else if report.linkControl == LINK_CONTINUE_MORE {
        buf := buf + reportData;
      } else if report.linkControl == LINK_CONTINUE {
        buf, done := buf + reportData, true;
      }
      r := Success(done);
    }

    /** One turn of ReadFrame's loop. */
    method Turn(ghost was: seq<Msg>) returns (done: Result<bool, Error>, ghost n: nat, ghost now: seq<Msg>)
      requires Readable(reportDefs) && r.q.Valid() && was == r.q.Contents()
      modifies `buf, r.q, r.q.all, r.q.ins, r.q.outs
      ensures r.q.Valid() && now == r.q.Contents()
      ensures Progress(reportDefs, r.dir, old(buf), was, done, buf, now, n)
      ensures done.Success? ==> |now| < |was|
    {
      DecodeOne(reportDefs, buf, was, r.dir);
      TakeOne(was, r.dir, 0);
      hide Decode, TakeDir, Filter, First, RawRead, Absorb, Known, Ends, Inputs, Queue.Valid, Queue.Contents;
      var read := r.ReadReport();
      n, now := if read == Failed(EOF) then 0 else 1, r.q.Contents();
      if read.Failed? {
        done := Failure(read.error);
      } else {
        done := Take(read.report);
      }
    }

    method ReadFrame() returns (result: Result<seq<byte>, Error>)
      requires Readable(reportDefs) && r.q.Valid()
      modifies `buf, r.q, r.q.all, r.q.ins, r.q.outs
      ensures r.q.Valid()
      ensures var was := old(r.q.Contents());
              var decoded := Decode(reportDefs, [], Inputs(Filter(was, r.dir)));
              result == decoded.Outcome() && Took(was, r.q.Contents(), r.dir, decoded.used)
    {
      hide Decode, Took, Progress, Queue.Valid, Queue.Contents, Filter, Inputs, Readable;
      ghost var start, now, n, used := r.q.Contents(), r.q.Contents(), 0, 0;
      buf := [];
      var done: Result<bool, Error> := Success(false);
      ProgressStart(reportDefs, r.dir, [], start);
      while done == Success(false)
        invariant r.q.Valid() && now == r.q.Contents()
        invariant Progress(reportDefs, r.dir, [], start, done, buf, now, used)
        decreases done.Success? && !done.value, |now|
      {
        ghost var before, b := now, buf;
        done, n, now := Turn(before);
        ProgressMore(reportDefs, r.dir, [], start, b, before, used, done, buf, now, n);
        used := used + n;
      }
      result := if done.Success? then Success(buf) else Failure(done.error);
      ProgressEnd(reportDefs, r.dir, [], start, done, buf, now, used);
    }
  }
}

/** dumpTrace (cmd/ipod/main.go): decoding a trace in which the frames of both directions interleave. */
module DumpTraces {
  import opened Bytes
  import opened Sequences
  import opened Hid
  import opened TraceQueue
  import opened HidDecoder

  type Outcome = Result<seq<byte>, Error>

  /** What decoding one direction on its own gives: the frames, and whether the input ends inside one. */
  datatype Decoding = Decoding(frames: seq<Outcome>, cut: bool)

  function DecodeAll(defs: seq<ReportDef>, inputs: seq<ReadResult>): Decoding
    requires Readable(defs)
    decreases |inputs|
  {
    if inputs == [] then Decoding([], false)
    else
      var d := Decode(defs, [], inputs);
      if d.Outcome() == Failure(EOF) then Decoding([], true)
      else Resume([d.Outcome()], DecodeAll(defs, inputs[d.used..]))
  }

  function Resume(done: seq<Outcome>, rest: Decoding): Decoding {
    Decoding(done + rest.frames, rest.cut)
  }

  /** The decoding of one direction of a trace. */
  function DecodeDir(defs: seq<ReportDef>, msgs: seq<Msg>, dir: Dir): Decoding
    requires Readable(defs)
  {
    DecodeAll(defs, Inputs(Filter(msgs, dir)))
  }

  type Log = seq<(Dir, Outcome)>

  /** The log's entries for one direction. */
  function LogOf(log: Log, dir: Dir): seq<Outcome> {
    if log == [] then []
    else if log[0].0 == dir then [log[0].1] + LogOf(log[1..], dir)
    else LogOf(log[1..], dir)
  }

  /**
   The rest of a dump: a fresh decoder reads from the direction of the oldest message, until the
   queue is empty or a read hits the end of input, which ends the whole dump.  The flag, which the
   source does not keep, says that the queue was emptied.
   */
  function Dump(defs: seq<ReportDef>, left: seq<Msg>): (r: (Log, bool))
    requires Readable(defs)
    decreases |left|
  {
    if left == [] then ([], true)
    else
      var dir := left[0].dir;
      var d := Decode(defs, [], Inputs(Filter(left, dir)));
      if d.Outcome() == Failure(EOF) then ([], false)
      else
        var left' := TakeDir(left, dir, d.used);
        DecodeDirStep(defs, left, left', dir);
        Prepend((dir, d.Outcome()), Dump(defs, left'))
  }

  function Prepend(entry: (Dir, Outcome), r: (Log, bool)): (Log, bool) {
    ([entry] + r.0, r.1)
  }

  /** One ReadFrame on a direction that has a message left. */
  lemma DecodeDirStep(defs: seq<ReportDef>, left: seq<Msg>, left': seq<Msg>, dir: Dir)
    requires Readable(defs) && left != [] && left[0].dir == dir
    requires left' == TakeDir(left, dir, Decode(defs, [], Inputs(Filter(left, dir))).used)
    ensures |left'| < |left| && forall d :: d != dir ==> DecodeDir(defs, left', d) == DecodeDir(defs, left, d)
    ensures var outcome := Decode(defs, [], Inputs(Filter(left, dir))).Outcome();
            DecodeDir(defs, left, dir)
            == if outcome == Failure(EOF) then Decoding([], true) else Resume([outcome], DecodeDir(defs, left', dir))
  {
    var inputs := Inputs(Filter(left, dir));
    var n := Decode(defs, [], inputs).used;
    FirstIsHead(left, dir);
    assert First(left, dir) == 0;
    TakeDirFilter(left, dir, n);
    hide Decode, Filter, First, TakeDir;
    assert Inputs(Filter(left', dir)) == inputs[n..];
  }

  // ---------------------------------------------------------------- the method

  /** With `log` written and `left` still queued, the dump of `msgs` is on its way. */
  ghost predicate OnTheWay(defs: seq<ReportDef>, msgs: seq<Msg>, log: Log, left: seq<Msg>)
    requires Readable(defs)
  {
    Dump(defs, msgs) == (log + Dump(defs, left).0, Dump(defs, left).1)
  }

  /** The first loop: the trace goes into a queue. */
  method ReadTrace(msgs: seq<Msg>) returns (q: Queue)
    ensures q.Valid() && q.Contents() == msgs
    ensures fresh(q) && fresh(q.all) && fresh(q.ins) && fresh(q.outs)
  {
    q := new Queue();
    for i := 0 to |msgs|
      invariant q.Valid() && q.Contents() == msgs[..i]
      invariant fresh(q) && fresh(q.all) && fresh(q.ins) && fresh(q.outs)
    {
      q.Enqueue(msgs[i]);
    }
    assert msgs[..|msgs|] == msgs;
  }

  method DumpTrace(msgs: seq<Msg>, defs: seq<ReportDef>) returns (log: Log, emptied: bool)
    requires Readable(defs)
    ensures (log, emptied) == Dump(defs, msgs)
  {
    var q := ReadTrace(msgs);
    log := [];
    assert log + Dump(defs, msgs).0 == Dump(defs, msgs).0;
    while true
      invariant q.Valid() && fresh(q) && fresh(q.all) && fresh(q.ins) && fresh(q.outs)
      invariant OnTheWay(defs, msgs, log, q.Contents())
      decreases |q.Contents()|
    {
      hide Queue.Valid, Dump, OnTheWay, TakeDir, Decode;
      ghost var left := q.Contents();
      var head := q.Head();
      if head == None {
        Arrived(defs, msgs, log);
        return log, true;
      }
      var dir := head.value.dir;
      var tdr := new ReportReader(q, dir);
      var d := new Decoder(tdr, defs);
      var frame := d.ReadFrame();
      DumpTurn(defs, msgs, log, left, q.Contents());
      if frame == Failure(EOF) {
        return log, false;
      }
      log := log + [(dir, frame)];
    }
  }

  lemma Arrived(defs: seq<ReportDef>, msgs: seq<Msg>, log: Log)
    requires Readable(defs) && OnTheWay(defs, msgs, log, [])
    ensures Dump(defs, msgs) == (log, true)
  {
    assert log + [] == log;
  }

  /** One turn of the outer loop. */
  lemma DumpTurn(defs: seq<ReportDef>, msgs: seq<Msg>, log: Log, left: seq<Msg>, left': seq<Msg>)
    requires Readable(defs) && left != [] && OnTheWay(defs, msgs, log, left)
    requires Took(left, left', left[0].dir, Decode(defs, [], Inputs(Filter(left, left[0].dir))).used)
    ensures var outcome := Decode(defs, [], Inputs(Filter(left, left[0].dir))).Outcome();
            |left'| < |left| &&
            if outcome == Failure(EOF) then Dump(defs, msgs) == (log, false)
            else OnTheWay(defs, msgs, log + [(left[0].dir, outcome)], left')
  {
    var dir := left[0].dir;
    var outcome := Decode(defs, [], Inputs(Filter(left, dir))).Outcome();
    DecodeDirStep(defs, left, left', dir);
    hide Decode, Filter, TakeDir;
    if outcome == Failure(EOF) {
      assert log + [] == log;
    } else {
      AppendAssociative(log, [(dir, outcome)], Dump(defs, left').0);
    }
  }

  // ---------------------------------------------------------------- demultiplexing

  /** How a dump relates to the decodings of the two directions on their own. */
  ghost predicate Demultiplexed(ins: Decoding, outs: Decoding, log: Log, emptied: bool) {
    && LogOf(log, DirIn) <= ins.frames
    && LogOf(log, DirOut) <= outs.frames
    && (emptied <==> !ins.cut && !outs.cut)
    && (emptied ==> LogOf(log, DirIn) == ins.frames && LogOf(log, DirOut) == outs.frames)
    && (!emptied ==> (ins.cut && LogOf(log, DirIn) == ins.frames) || (outs.cut && LogOf(log, DirOut) == outs.frames))
  }

  lemma DemultiplexedStep(ins: Decoding, outs: Decoding, log: Log, emptied: bool, dir: Dir, outcome: Outcome)
    requires Demultiplexed(ins, outs, log, emptied)
    ensures if dir == DirIn then Demultiplexed(Resume([outcome], ins), outs, [(dir, outcome)] + log, emptied)
            else Demultiplexed(ins, Resume([outcome], outs), [(dir, outcome)] + log, emptied)
  {
    LogPrepend((dir, outcome), log);
    hide LogOf;
  }

  /**
   The dump decodes each direction as if the other were not there: its log for a direction is a
   prefix of that direction's own decoding.  It empties the queue, and then shows all of both,
   exactly when neither direction ends inside a frame; otherwise it stops at the first direction
   that does, and of that one it has shown everything.
   */
  lemma {:induction false} Demultiplexes(defs: seq<ReportDef>, msgs: seq<Msg>)
    requires Readable(defs)
    ensures Demultiplexed(DecodeDir(defs, msgs, DirIn), DecodeDir(defs, msgs, DirOut),
                          Dump(defs, msgs).0, Dump(defs, msgs).1)
    decreases |msgs|
  {
    if msgs != [] {
      var dir := msgs[0].dir;
      var d := Decode(defs, [], Inputs(Filter(msgs, dir)));
      var left := TakeDir(msgs, dir, d.used);
      DecodeDirStep(defs, msgs, left, dir);
      if d.Outcome() != Failure(EOF) {
        hide Decode, Filter, Inputs, TakeDir, DecodeDir, LogOf, Demultiplexed;
        Demultiplexes(defs, left);
        DemultiplexedStep(DecodeDir(defs, left, DirIn), DecodeDir(defs, left, DirOut),
                          Dump(defs, left).0, Dump(defs, left).1, dir, d.Outcome());
      }
    }
  }

  lemma LogPrepend(entry: (Dir, Outcome), log: Log)
    ensures LogOf([entry] + log, entry.0) == [entry.1] + LogOf(log, entry.0)
    ensures forall d :: d != entry.0 ==> LogOf([entry] + log, d) == LogOf(log, d)
  {
    assert ([entry] + log)[1..] == log;
  }

  /** An unfinished frame in one direction makes the dump drop complete frames of the other. */
  lemma CutLosesTheOtherDirection()
    ensures var msgs := [Msg(DirIn, 0, [1, LINK_MORE_TO_FOLLOW, 0xAA]), Msg(DirOut, 1, [1, LINK_DONE, 0xBB])];
            Dump(DEFAULT_REPORT_DEFS, msgs) == ([], false) &&
            DecodeDir(DEFAULT_REPORT_DEFS, msgs, DirOut) == Decoding([Success([0xBB])], false)
  {
    var defs := DEFAULT_REPORT_DEFS;
    var a, b := Msg(DirIn, 0, [1, LINK_MORE_TO_FOLLOW, 0xAA]), Msg(DirOut, 1, [1, LINK_DONE, 0xBB]);
    assert [a, b] == [a] + [b];
    forall d: Dir ensures Filter([a, b], d) == if d == DirIn then [a] else [b] {
      SelectConcat([a], [b], InDir(d));
      SelectOne(a, InDir(d));
      SelectOne(b, InDir(d));
    }
    assert Found(defs, 1) == Some(ReportDef(0x01, 12, AccIn));
    assert a.data[2..3] == [0xAA] && b.data[2..3] == [0xBB];
    var ins, outs := Inputs([a]), Inputs([b]);
    assert ins == [Got(Report(1, LINK_MORE_TO_FOLLOW, [0xAA]))] && ins[1..] == [];
    assert outs == [Got(Report(1, LINK_DONE, [0xBB]))] && outs[1..] == [];
    assert Decode(defs, [], ins).Outcome() == Failure(EOF);
    assert Decode(defs, [], outs) == Frame([0xBB], 1);
    assert DecodeAll(defs, outs[1..]) == Decoding([], false);
  }
}

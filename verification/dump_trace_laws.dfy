/** When a dump loses frames (cmd/ipod/main.go): exactly when something starts behind an unfinished frame. */
module DumpTraceLaws {
  import opened Bytes
  import opened Sequences
  import opened Hid
  import opened TraceQueue
  import opened HidDecoder
  import opened DumpTraces
  import HidDecoderLaws
  import TraceText

  // ---------------------------------------------------------------- ending inside a frame

  predicate NoneEOF(inputs: seq<ReadResult>) {
    forall i :: 0 <= i < |inputs| ==> inputs[i] != Failed(EOF)
  }

  /** The input ends inside a frame exactly when its last report is recognised and does not end one. */
  lemma {:induction false} CutExactly(defs: seq<ReportDef>, inputs: seq<ReadResult>)
    requires Readable(defs) && NoneEOF(inputs)
    ensures DecodeAll(defs, inputs).cut
       <==> inputs != [] && HidDecoderLaws.Passes(defs, inputs[|inputs| - 1])
    decreases |inputs|
  {
    hide Decode, Known;
    if inputs != [] {
      HidDecoderLaws.DecodeStops(defs, [], inputs);
      var d := Decode(defs, [], inputs);
      if d.Outcome() != Failure(EOF) {
        if d.used < |inputs| {
          CutExactly(defs, inputs[d.used..]);
        } else {
          assert d.Frame? ==> inputs[..d.used][d.used - 1] == inputs[|inputs| - 1];
        }
      }
    }
  }

  /** So for a direction of a trace its last message decides. */
  lemma CutByLastMessage(defs: seq<ReportDef>, msgs: seq<Msg>, dir: Dir)
    requires Readable(defs)
    ensures var own := Filter(msgs, dir);
            DecodeDir(defs, msgs, dir).cut
            <==> own != [] && HidDecoderLaws.Passes(defs, RawRead(own[|own| - 1].data))
  {
    CutExactly(defs, Inputs(Filter(msgs, dir)));
  }

  // ---------------------------------------------------------------- where frames start

  predicate Increasing(msgs: seq<Msg>) {
    forall i, j :: 0 <= i < j < |msgs| ==> msgs[i].ts < msgs[j].ts
  }

  function Other(dir: Dir): Dir {
    if dir == DirIn then DirOut else DirIn
  }

  /** The numbers of the messages with which the outcomes of a direction start. */
  function OutcomeStarts(defs: seq<ReportDef>, own: seq<Msg>): seq<nat>
    requires Readable(defs)
    decreases |own|
  {
    if own == [] then []
    else
      var d := Decode(defs, [], Inputs(own));
      if d.Outcome() == Failure(EOF) then [] else [own[0].ts] + OutcomeStarts(defs, own[d.used..])
  }

  /** The number of the message with which its unfinished frame starts, if it ends inside one. */
  function CutStart(defs: seq<ReportDef>, own: seq<Msg>): Option<nat>
    requires Readable(defs)
    decreases |own|
  {
    if own == [] then None
    else
      var d := Decode(defs, [], Inputs(own));
      if d.Outcome() == Failure(EOF) then Some(own[0].ts) else CutStart(defs, own[d.used..])
  }

  lemma {:induction false} StartsFit(defs: seq<ReportDef>, own: seq<Msg>)
    requires Readable(defs)
    ensures |OutcomeStarts(defs, own)| == |DecodeAll(defs, Inputs(own)).frames|
    ensures CutStart(defs, own).Some? <==> DecodeAll(defs, Inputs(own)).cut
    decreases |own|
  {
    if own != [] {
      var used := Decode(defs, [], Inputs(own)).used;
      assert Inputs(own)[used..] == Inputs(own[used..]);
      StartsFit(defs, own[used..]);
    }
  }

  lemma {:induction false} StartsAreNumbers(defs: seq<ReportDef>, own: seq<Msg>, least: nat)
    requires Readable(defs) && forall m :: m in own ==> m.ts > least
    ensures forall s :: s in OutcomeStarts(defs, own) ==> s > least
    ensures CutStart(defs, own).Some? ==> CutStart(defs, own).value > least
    decreases |own|
  {
    if own != [] {
      assert own[0] in own;
      var used := Decode(defs, [], Inputs(own)).used;
      StartsAreNumbers(defs, own[used..], least);
    }
  }

  // ---------------------------------------------------------------- what a dump loses

  /** No outcome of the other direction starts behind the unfinished frame of `dir`. */
  predicate NothingBehind(defs: seq<ReportDef>, msgs: seq<Msg>, dir: Dir)
    requires Readable(defs)
  {
    var cut := CutStart(defs, Filter(msgs, dir));
    cut.Some? ==> forall s :: s in OutcomeStarts(defs, Filter(msgs, Other(dir))) ==> s < cut.value
  }

  predicate DumpsAll(defs: seq<ReportDef>, msgs: seq<Msg>, dir: Dir)
    requires Readable(defs)
  {
    LogOf(Dump(defs, msgs).0, dir) == DecodeDir(defs, msgs, dir).frames
  }

  lemma {:induction false} RemoveIncreasing(msgs: seq<Msg>, k: nat)
    requires Increasing(msgs) && k < |msgs|
    ensures Increasing(RemoveAt(msgs, k))
  {
    var after := RemoveAt(msgs, k);
    assert forall i :: 0 <= i < |after| ==> after[i] == msgs[if i < k then i else i + 1];
  }

  lemma {:induction false} TakeDirIncreasing(msgs: seq<Msg>, dir: Dir, n: nat)
    requires Increasing(msgs)
    ensures Increasing(TakeDir(msgs, dir, n))
    decreases n
  {
    if n > 0 {
      var before := TakeDir(msgs, dir, n - 1);
      hide First, RemoveAt, Increasing;
      TakeDirIncreasing(msgs, dir, n - 1);
      if First(before, dir) < |before| {
        RemoveIncreasing(before, First(before, dir));
      }
    }
  }

  lemma FilterLater(msgs: seq<Msg>, dir: Dir)
    requires Increasing(msgs) && msgs != [] && msgs[0].dir != dir
    ensures forall m :: m in Filter(msgs, dir) ==> m.ts > msgs[0].ts
  {
    SelectMembers(msgs, InDir(dir));
  }

  /** The dump stops at once, in the direction of its first message. */
  lemma {:induction false} StopsAtOnce(defs: seq<ReportDef>, msgs: seq<Msg>)
    requires Readable(defs) && Increasing(msgs) && msgs != []
    requires Decode(defs, [], Inputs(Filter(msgs, msgs[0].dir))).Outcome() == Failure(EOF)
    ensures var dir := msgs[0].dir;
            DumpsAll(defs, msgs, dir) && NothingBehind(defs, msgs, Other(dir)) &&
            (DumpsAll(defs, msgs, Other(dir)) <==> NothingBehind(defs, msgs, dir))
  {
    var dir := msgs[0].dir;
    FirstIsHead(msgs, dir);
    assert First(msgs, dir) == 0;
    var own, others := Filter(msgs, dir), Filter(msgs, Other(dir));
    assert own[0] == msgs[0] && CutStart(defs, own) == Some(msgs[0].ts) && OutcomeStarts(defs, own) == [];
    FilterLater(msgs, Other(dir));
    hide Decode, Filter;
    StartsAreNumbers(defs, others, msgs[0].ts);
    StartsFit(defs, others);
    var starts := OutcomeStarts(defs, others);
    assert starts != [] ==> starts[0] in starts;
  }

  /** One outcome is logged, and what comes behind it is left. */
  lemma {:induction false} LogsOne(defs: seq<ReportDef>, msgs: seq<Msg>, left: seq<Msg>)
    requires Readable(defs) && Increasing(msgs) && msgs != []
    requires Decode(defs, [], Inputs(Filter(msgs, msgs[0].dir))).Outcome() != Failure(EOF)
    requires left == TakeDir(msgs, msgs[0].dir, Decode(defs, [], Inputs(Filter(msgs, msgs[0].dir))).used)
    ensures forall d :: (DumpsAll(defs, msgs, d) <==> DumpsAll(defs, left, d)) &&
                        (NothingBehind(defs, msgs, d) <==> NothingBehind(defs, left, d))
  {
    var dir := msgs[0].dir;
    DumpsOne(defs, msgs, left);
    FirstIsHead(msgs, dir);
    assert First(msgs, dir) == 0;
    var own, others := Filter(msgs, dir), Filter(msgs, Other(dir));
    var d := Decode(defs, [], Inputs(own));
    TakeDirFilter(msgs, dir, d.used);
    FilterLater(msgs, Other(dir));
    assert own[0] == msgs[0];
    hide Decode, Filter, TakeDir, Dump, LogOf;
    assert OutcomeStarts(defs, own) == [msgs[0].ts] + OutcomeStarts(defs, own[d.used..]);
    assert CutStart(defs, own) == CutStart(defs, own[d.used..]);
    StartsAreNumbers(defs, others, msgs[0].ts);
    hide OutcomeStarts, CutStart;
    var later := OutcomeStarts(defs, own[d.used..]);
    assert forall s :: s in [msgs[0].ts] + later <==> s == msgs[0].ts || s in later;
    assert Filter(left, dir) == own[d.used..] && Filter(left, Other(dir)) == others && Other(Other(dir)) == dir;
    assert NothingBehind(defs, msgs, dir) <==> NothingBehind(defs, left, dir);
    assert NothingBehind(defs, msgs, Other(dir)) <==> NothingBehind(defs, left, Other(dir));
  }

  lemma {:induction false} DumpsOne(defs: seq<ReportDef>, msgs: seq<Msg>, left: seq<Msg>)
    requires Readable(defs) && msgs != []
    requires Decode(defs, [], Inputs(Filter(msgs, msgs[0].dir))).Outcome() != Failure(EOF)
    requires left == TakeDir(msgs, msgs[0].dir, Decode(defs, [], Inputs(Filter(msgs, msgs[0].dir))).used)
    ensures forall d :: DumpsAll(defs, msgs, d) <==> DumpsAll(defs, left, d)
  {
    var dir := msgs[0].dir;
    var outcome := Decode(defs, [], Inputs(Filter(msgs, dir))).Outcome();
    DecodeDirStep(defs, msgs, left, dir);
    var log := Dump(defs, left).0;
    assert Dump(defs, msgs).0 == [(dir, outcome)] + log;
    hide Decode, Filter, TakeDir, Dump, DecodeDir;
    LogPrepend((dir, outcome), log);
    ConsEqual(outcome, LogOf(log, dir), outcome, DecodeDir(defs, left, dir).frames);
  }

  /**
   A dump shows every outcome of both directions exactly when, in each direction that ends inside a
   frame, no outcome of the other one starts behind the start of that frame.
   */
  lemma {:induction false} LosesNothingExactly(defs: seq<ReportDef>, msgs: seq<Msg>)
    requires Readable(defs) && Increasing(msgs)
    ensures (forall d :: DumpsAll(defs, msgs, d)) <==> (forall d :: NothingBehind(defs, msgs, d))
    decreases |msgs|
  {
    if msgs == [] {
      assert forall d :: Filter(msgs, d) == [];
    } else {
      var dir := msgs[0].dir;
      var d := Decode(defs, [], Inputs(Filter(msgs, dir)));
      if d.Outcome() == Failure(EOF) {
        StopsAtOnce(defs, msgs);
        hide DumpsAll, NothingBehind, Decode;
        forall e | DumpsAll(defs, msgs, Other(dir)) ensures DumpsAll(defs, msgs, e) && NothingBehind(defs, msgs, e) {
          assert e == dir || e == Other(dir);
        }
      } else {
        var left := TakeDir(msgs, dir, d.used);
        DecodeDirStep(defs, msgs, left, dir);
        TakeDirIncreasing(msgs, dir, d.used);
        LogsOne(defs, msgs, left);
        hide DumpsAll, NothingBehind, Decode, TakeDir;
        LosesNothingExactly(defs, left);
      }
    }
  }

  /** The reader numbers its messages, so this holds of the dump of every text. */
  lemma DumpOfText(defs: seq<ReportDef>, text: seq<byte>)
    requires Readable(defs)
    ensures var msgs := TraceText.ReadAll(TraceText.Reading(text, None, 0)).0;
            (forall d :: DumpsAll(defs, msgs, d)) <==> (forall d :: NothingBehind(defs, msgs, d))
  {
    TraceText.NumberedWithoutGaps(TraceText.Reading(text, None, 0));
    LosesNothingExactly(defs, TraceText.ReadAll(TraceText.Reading(text, None, 0)).0);
  }

  // ---------------------------------------------------------------- the order of a dump

  /** The numbers of the messages with which the log's entries start, given those of each direction. */
  function StartsInLog(log: Log, ins: seq<nat>, outs: seq<nat>): seq<nat> {
    if log == [] || (if log[0].0 == DirIn then ins else outs) == [] then []
    else if log[0].0 == DirIn then [ins[0]] + StartsInLog(log[1..], ins[1..], outs)
    else [outs[0]] + StartsInLog(log[1..], ins, outs[1..])
  }

  lemma {:induction false} StartsInLogMembers(log: Log, ins: seq<nat>, outs: seq<nat>)
    ensures forall s :: s in StartsInLog(log, ins, outs) ==> s in ins || s in outs
    decreases log
  {
    if log != [] && (if log[0].0 == DirIn then ins else outs) != [] {
      if log[0].0 == DirIn {
        StartsInLogMembers(log[1..], ins[1..], outs);
      } else {
        StartsInLogMembers(log[1..], ins, outs[1..]);
      }
    }
  }

  predicate Ascending(starts: seq<nat>) {
    forall i, j :: 0 <= i < j < |starts| ==> starts[i] < starts[j]
  }

  /** The dump's log with where its entries start. */
  function LogStarts(defs: seq<ReportDef>, msgs: seq<Msg>): seq<nat>
    requires Readable(defs)
  {
    StartsInLog(Dump(defs, msgs).0, OutcomeStarts(defs, Filter(msgs, DirIn)), OutcomeStarts(defs, Filter(msgs, DirOut)))
  }

  lemma {:induction false} LogStartsStep(defs: seq<ReportDef>, msgs: seq<Msg>, left: seq<Msg>)
    requires Readable(defs) && Increasing(msgs) && msgs != []
    requires Decode(defs, [], Inputs(Filter(msgs, msgs[0].dir))).Outcome() != Failure(EOF)
    requires left == TakeDir(msgs, msgs[0].dir, Decode(defs, [], Inputs(Filter(msgs, msgs[0].dir))).used)
    ensures LogStarts(defs, msgs) == [msgs[0].ts] + LogStarts(defs, left)
    ensures |Dump(defs, msgs).0| == 1 + |Dump(defs, left).0|
    ensures forall s :: s in LogStarts(defs, left) ==> s > msgs[0].ts
  {
    var dir := msgs[0].dir;
    FirstIsHead(msgs, dir);
    assert First(msgs, dir) == 0;
    var own, others := Filter(msgs, dir), Filter(msgs, Other(dir));
    var d := Decode(defs, [], Inputs(own));
    TakeDirFilter(msgs, dir, d.used);
    DecodeDirStep(defs, msgs, left, dir);
    FilterLater(msgs, Other(dir));
    SelectMembers(msgs, InDir(dir));
    FilterIncreasing(msgs, dir);
    assert own[0] == msgs[0];
    assert Filter(left, dir) == own[d.used..] && Filter(left, Other(dir)) == others;
    hide Decode, Filter, TakeDir, First;
    assert OutcomeStarts(defs, own) == [msgs[0].ts] + OutcomeStarts(defs, own[d.used..]);
    hide OutcomeStarts;
    StartsAreNumbers(defs, others, msgs[0].ts);
    assert d.used >= 1;
    assert forall i :: 1 <= i < |own| ==> own[i].ts > msgs[0].ts;
    StartsAreNumbers(defs, own[d.used..], msgs[0].ts);
    var entry, later := (dir, d.Outcome()), Dump(defs, left).0;
    assert Dump(defs, msgs).0 == [entry] + later && ([entry] + later)[1..] == later;
    var ins, outs := OutcomeStarts(defs, Filter(left, DirIn)), OutcomeStarts(defs, Filter(left, DirOut));
    StartsInLogMembers(later, ins, outs);
  }

  lemma {:induction false} FilterIncreasing(msgs: seq<Msg>, dir: Dir)
    requires Increasing(msgs)
    ensures Increasing(Filter(msgs, dir))
    decreases msgs
  {
    if msgs != [] {
      assert Increasing(msgs[1..]);
      FilterIncreasing(msgs[1..], dir);
      SelectMembers(msgs[1..], InDir(dir));
      var later := Filter(msgs[1..], dir);
      forall i | 0 <= i < |later| ensures later[i].ts > msgs[0].ts {
        assert later[i] in later && later[i] in msgs[1..];
      }
    }
  }

  /** The dump shows the outcomes of both directions in the order in which they start in the trace. */
  lemma {:induction false} DumpsInOrder(defs: seq<ReportDef>, msgs: seq<Msg>)
    requires Readable(defs) && Increasing(msgs)
    ensures |LogStarts(defs, msgs)| == |Dump(defs, msgs).0| && Ascending(LogStarts(defs, msgs))
    decreases |msgs|
  {
    if msgs != [] {
      var dir := msgs[0].dir;
      var d := Decode(defs, [], Inputs(Filter(msgs, dir)));
      if d.Outcome() != Failure(EOF) {
        var left := TakeDir(msgs, dir, d.used);
        DecodeDirStep(defs, msgs, left, dir);
        TakeDirIncreasing(msgs, dir, d.used);
        hide Decode, Filter, TakeDir;
        LogStartsStep(defs, msgs, left);
        hide LogStarts, Dump;
        DumpsInOrder(defs, left);
        var later := LogStarts(defs, left);
        assert forall i :: 0 <= i < |later| ==> later[i] in later;
      }
    }
  }
}

/** What any mix of queue operations preserves, over whole runs. */
module TraceQueueLaws {
  import opened Bytes
  import opened Sequences
  import opened TraceQueue

  datatype Op = Enq(msg: Msg) | Deq | DeqDir(dir: Dir)

  /** The effect of one operation on the queue's contents, as the methods of Queue promise it. */
  function Step(q: seq<Msg>, op: Op): (r: (Option<Msg>, seq<Msg>)) {
    match op
    case Enq(m) => (None, q + [m])
    case Deq => if q == [] then (None, q) else (Some(q[0]), q[1..])
    case DeqDir(dir) =>
      var k := First(q, dir);
      if k == |q| then (None, q) else (Some(q[k]), RemoveAt(q, k))
  }

  function Delivered(r: Option<Msg>): seq<Msg> {
    if r.Some? then [r.value] else []
  }

  /** A run's deliveries, in order, and what is left in the queue. */
  function Run(q: seq<Msg>, ops: seq<Op>): (seq<Msg>, seq<Msg>)
    decreases ops
  {
    if ops == [] then ([], q)
    else
      var (out, next) := Step(q, ops[0]);
      var (outs, rest) := Run(next, ops[1..]);
      (Delivered(out) + outs, rest)
  }

  /** A queue put through a list of operations behaves as the run says. */
  method Execute(q: Queue, ops: seq<Op>) returns (outs: seq<Msg>)
    requires q.Valid()
    modifies q, q.all, q.ins, q.outs
    ensures q.Valid() && (outs, q.Contents()) == Run(old(q.Contents()), ops)
  {
    outs := [];
    assert ops[0..] == ops && [] + Run(q.Contents(), ops).0 == Run(q.Contents(), ops).0;
    for i := 0 to |ops|
      invariant q.Valid()
      invariant Run(old(q.Contents()), ops)
             == (outs + Run(q.Contents(), ops[i..]).0, Run(q.Contents(), ops[i..]).1)
    {
      ghost var was, before := q.Contents(), outs;
      RunUnfold(was, ops[i..]);
      assert ops[i..][1..] == ops[i + 1..];
      var out: Option<Msg> := None;
      match ops[i] {
        case Enq(m) => q.Enqueue(m);
        case Deq => out := q.Dequeue();
        case DeqDir(dir) => out := q.DequeueDir(dir);
      }
      assert (out, q.Contents()) == Step(was, ops[i]);
      outs := outs + Delivered(out);
      AppendAssociative(before, Delivered(out), Run(q.Contents(), ops[i + 1..]).0);
    }
    assert ops[|ops|..] == [] && outs + [] == outs;
  }

  lemma RunUnfold(q: seq<Msg>, ops: seq<Op>)
    requires ops != []
    ensures var (out, next) := Step(q, ops[0]);
            Run(q, ops).0 == Delivered(out) + Run(next, ops[1..]).0 && Run(q, ops).1 == Run(next, ops[1..]).1
  {
  }

  function Enqueued(ops: seq<Op>): seq<Msg> {
    if ops == [] then []
    else if ops[0].Enq? then [ops[0].msg] + Enqueued(ops[1..])
    else Enqueued(ops[1..])
  }

  lemma FilterSplit(a: seq<Msg>, b: seq<Msg>, dir: Dir)
    ensures Filter(a + b, dir) == Filter(a, dir) + Filter(b, dir)
  {
    SelectConcat(a, b, InDir(dir));
  }

  /** The index at which an operation takes its message. */
  function Position(q: seq<Msg>, op: Op): nat {
    if op.DeqDir? then First(q, op.dir) else 0
  }

  lemma StepTakes(q: seq<Msg>, op: Op)
    requires !op.Enq?
    ensures var (out, next) := Step(q, op);
            var k := Position(q, op);
            if k < |q| then Delivered(out) == [q[k]] && next == RemoveAt(q, k)
            else Delivered(out) == [] && next == q
  {
  }

  /** Whichever way a message is taken, its direction loses its head and the other direction nothing. */
  lemma StepPerDirection(q: seq<Msg>, op: Op, dir: Dir)
    requires !op.Enq?
    ensures var (out, next) := Step(q, op);
            Filter(q, dir) == Filter(Delivered(out), dir) + Filter(next, dir)
  {
    StepTakes(q, op);
    var k := Position(q, op);
    if k < |q| {
      SelectRemove(q, k, InDir(dir));
      SelectOne(q[k], InDir(dir));
    }
  }

  lemma Regroup<T>(a: seq<T>, b: seq<T>, c: seq<T>, d: seq<T>, e: seq<T>)
    requires b + c == d + e
    ensures (a + b) + c == (a + d) + e
  {
    assert (a + b) + c == a + (b + c);
    assert (a + d) + e == a + (d + e);
  }

  lemma StepTakesHead(q: seq<Msg>, op: Op)
    requires op.Deq?
    ensures q == Delivered(Step(q, op).0) + Step(q, op).1
  {
  }

  lemma StepEnqueues(q: seq<Msg>, ops: seq<Op>)
    requires ops != [] && ops[0].Enq?
    ensures Delivered(Step(q, ops[0]).0) == []
    ensures q + Enqueued(ops) == Step(q, ops[0]).1 + Enqueued(ops[1..])
  {
  }

  /** Per direction, the queue is first in, first out, however the two ways of dequeuing are mixed. */
  lemma {:induction false} FifoPerDirection(q: seq<Msg>, ops: seq<Op>, dir: Dir)
    ensures Filter(q + Enqueued(ops), dir) == Filter(Run(q, ops).0, dir) + Filter(Run(q, ops).1, dir)
    decreases ops
  {
    if ops == [] {
      assert q + Enqueued(ops) == q;
    } else {
      RunUnfold(q, ops);
      hide Run, Select, Filter, Step;
      var (out, next) := Step(q, ops[0]);
      var later := Enqueued(ops[1..]);
      var (outs, rest) := Run(next, ops[1..]);
      FifoPerDirection(next, ops[1..], dir);
      FilterSplit(Delivered(out), outs, dir);
      if ops[0].Enq? {
        StepEnqueues(q, ops);
        assert [] + outs == outs;
      } else {
        FilterSplit(next, later, dir);
        StepPerDirection(q, ops[0], dir);
        FilterSplit(q, later, dir);
        Regroup(Filter(Delivered(out), dir), Filter(next, dir), Filter(later, dir),
                Filter(outs, dir), Filter(rest, dir));
      }
    }
  }

  lemma RegroupBag<T>(q: seq<T>, d: seq<T>, next: seq<T>, later: seq<T>, outs: seq<T>, rest: seq<T>)
    requires multiset(q) == multiset(d) + multiset(next)
    requires multiset(next + later) == multiset(outs) + multiset(rest)
    ensures multiset(q + later) == multiset(d + outs) + multiset(rest)
  {
    assert multiset(q + later) == multiset(q) + multiset(later);
    assert multiset(next + later) == multiset(next) + multiset(later);
    assert multiset(d + outs) == multiset(d) + multiset(outs);
    assert (multiset(d) + multiset(next)) + multiset(later) == multiset(d) + (multiset(next) + multiset(later));
    assert multiset(d) + (multiset(outs) + multiset(rest)) == (multiset(d) + multiset(outs)) + multiset(rest);
  }

  lemma BagRemove<T>(q: seq<T>, k: nat)
    requires k < |q|
    ensures multiset(q) == multiset([q[k]]) + multiset(RemoveAt(q, k))
  {
    assert q == (q[..k] + [q[k]]) + q[k + 1..];
    assert multiset(q) == multiset(q[..k]) + multiset([q[k]]) + multiset(q[k + 1..]);
  }

  lemma StepConserves(q: seq<Msg>, op: Op)
    requires !op.Enq?
    ensures var (out, next) := Step(q, op); multiset(q) == multiset(Delivered(out)) + multiset(next)
  {
    StepTakes(q, op);
    hide Step, RemoveAt;
    var k := Position(q, op);
    if k < |q| {
      BagRemove(q, k);
    }
  }

  /** Nothing is lost, duplicated or invented. */
  lemma {:induction false} Conservation(q: seq<Msg>, ops: seq<Op>)
    ensures multiset(q + Enqueued(ops)) == multiset(Run(q, ops).0) + multiset(Run(q, ops).1)
    decreases ops
  {
    if ops == [] {
      assert q + Enqueued(ops) == q;
    } else {
      RunUnfold(q, ops);
      hide Run, Step;
      var (out, next) := Step(q, ops[0]);
      var (outs, rest) := Run(next, ops[1..]);
      Conservation(next, ops[1..]);
      if ops[0].Enq? {
        StepEnqueues(q, ops);
        assert [] + outs == outs;
      } else {
        StepConserves(q, ops[0]);
        RegroupBag(q, Delivered(out), next, Enqueued(ops[1..]), outs, rest);
      }
    }
  }

  /** When only Dequeue is used the deliveries come in the order of the enqueues. */
  lemma {:induction false} FifoOverall(q: seq<Msg>, ops: seq<Op>)
    requires forall op :: op in ops ==> !op.DeqDir?
    ensures q + Enqueued(ops) == Run(q, ops).0 + Run(q, ops).1
    decreases ops
  {
    if ops != [] {
      RunUnfold(q, ops);
      hide Run, Step, Delivered;
      var (out, next) := Step(q, ops[0]);
      FifoOverall(next, ops[1..]);
      if ops[0].Enq? {
        StepEnqueues(q, ops);
      } else {
        StepTakesHead(q, ops[0]);
        hide Enqueued;
        Regroup(Delivered(out), next, Enqueued(ops[1..]), Run(next, ops[1..]).0, Run(next, ops[1..]).1);
      }
    }
  }
}

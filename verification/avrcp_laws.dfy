/** The guard window, settling, and the run that shows why a stale copy-back matters. */
module AvrcpLaws {
  import opened Bytes
  import opened Avrcp
  import opened AvrcpProtocol

  // ---------------------------------------------------------------- the guard window

  /** The step is the critical section of a Play, Pause or Stop. */
  predicate IsControl(w: World, step: Step)
    requires Enabled(w, step)
  {
    step.Run? && w.threads[step.i].Controlling? && w.threads[step.i].control != Other
  }

  /** The step takes a goroutine to where it reports a change of Playing. */
  predicate Signals(w: World, step: Step)
    requires Enabled(w, step)
  {
    step.Run? && Next(w, step).threads[step.i] == StoringPlay
  }

  predicate Before(step: Step, until: nat) {
    step.Run? ==> step.now < until
  }

  /** Inside the window no step but a control reports a change, whatever BlueZ says and whatever came before. */
  lemma {:induction false} SilentStep(w: World, step: Step)
    requires Enabled(w, step) && !IsControl(w, step) && Before(step, w.shared.optimisticUntil)
    ensures !Signals(w, step)
  {
    if step.Run? {
      match w.threads[step.i]
      case Committing(next, gotPos) =>
        assert CommitSection(w.shared, next, gotPos, step.now).1 == false;
        hide MergeSection;
      case Merging(p) =>
        assert MergeSection(w.shared, p, step.now).1 == false;
        hide CommitSection;
      case _ =>
    }
  }

  /** Nor does any change Playing, except for a stale copy-back. */
  lemma {:induction false} GuardedStep(w: World, step: Step)
    requires Agree(w) && Enabled(w, step) && !IsControl(w, step) && !Stale(w, step)
    requires Before(step, w.shared.optimisticUntil)
    ensures Next(w, step).shared.state.playing == w.shared.state.playing
  {
    if step.Run? {
      match w.threads[step.i]
      case Committing(next, gotPos) =>
        hide MergeSection;
      case Merging(p) =>
        hide CommitSection;
      case _ =>
    }
  }

  /** Running `a` and then `b` is running `a + b`. */
  lemma {:induction false} RunConcat(w: World, a: seq<Step>, b: seq<Step>)
    requires IsRun(w, a + b)
    ensures IsRun(w, a) && IsRun(After(w, a), b) && After(w, a + b) == After(After(w, a), b)
    ensures FreshRun(w, a + b) ==> FreshRun(w, a) && FreshRun(After(w, a), b)
    decreases a
  {
    if a == [] {
      assert a + b == b;
    } else {
      assert (a + b)[1..] == a[1..] + b;
      RunConcat(Next(w, a[0]), a[1..], b);
    }
  }

  /** The state in which the second part of a run starts. */
  function Checkpoint(n: nat, a: seq<Step>, b: seq<Step>): (w: World)
    requires IsRun(Initial(n), a + b)
    ensures IsRun(w, b)
  {
    RunConcat(Initial(n), a, b);
    After(Initial(n), a)
  }

  /** Only steps before `until`, and no Play, Pause or Stop among them. */
  predicate InWindow(w: World, steps: seq<Step>, until: nat)
    requires IsRun(w, steps)
    decreases steps
  {
    steps == [] ||
    (!IsControl(w, steps[0]) && Before(steps[0], until) && InWindow(Next(w, steps[0]), steps[1..], until))
  }

  predicate NeverSignals(w: World, steps: seq<Step>)
    requires IsRun(w, steps)
    decreases steps
  {
    steps == [] || (!Signals(w, steps[0]) && NeverSignals(Next(w, steps[0]), steps[1..]))
  }

  lemma {:induction false} SilentWindow(w: World, steps: seq<Step>, until: nat)
    requires IsRun(w, steps) && InWindow(w, steps, until) && w.shared.optimisticUntil >= until
    ensures NeverSignals(w, steps)
    decreases steps
  {
    if steps != [] {
      SilentStep(w, steps[0]);
      WindowStays(w, steps[0], until);
      hide Next;
      SilentWindow(Next(w, steps[0]), steps[1..], until);
    }
  }

  lemma {:induction false} WindowStays(w: World, step: Step, until: nat)
    requires Enabled(w, step) && !IsControl(w, step) && w.shared.optimisticUntil >= until
    ensures Next(w, step).shared.optimisticUntil >= until
  {
  }

  lemma {:induction false} GuardedWindow(w: World, steps: seq<Step>, until: nat)
    requires Agree(w) && IsRun(w, steps) && FreshRun(w, steps)
    requires InWindow(w, steps, until) && w.shared.optimisticUntil >= until
    ensures After(w, steps).shared.state.playing == w.shared.state.playing
    decreases steps
  {
    if steps != [] {
      GuardedStep(w, steps[0]);
      AgreeStep(w, steps[0]);
      WindowStays(w, steps[0], until);
      hide Next, Agree;
      GuardedWindow(Next(w, steps[0]), steps[1..], until);
    }
  }

  /**
   The guard window over whole runs.  After a Play, Pause or Stop executed at time `t`, as long as no
   other one is and until `t` plus the guard time, Playing is what was commanded in every state, and
   nobody reports a change of it: not refresh on either path, and not fetchTrack's copy-back.
   */
  lemma {:induction false} GuardWindow(n: nat, before: seq<Step>, control: Step, between: seq<Step>)
    requires IsRun(Initial(n), before + ([control] + between))
    requires FreshRun(Initial(n), before + ([control] + between))
    requires IsControl(Checkpoint(n, before, [control] + between), control)
    requires var w := Checkpoint(n, before, [control] + between);
             Rest(w, control, between) && InWindow(Next(w, control), between, control.now + GUARD_MS)
    ensures var w := Checkpoint(n, before, [control] + between);
            NeverSignals(Next(w, control), between) &&
            After(Initial(n), before + ([control] + between)).shared.state.playing
            == (w.threads[control.i].control == Play)
  {
    var w0 := Checkpoint(n, before, [control] + between);
    var w1 := Next(w0, control);
    RunConcat(Initial(n), before, [control] + between);
    TrackedRun(Initial(n), before);
    AgreeStep(w0, control);
    ControlOpens(w0, control);
    assert ([control] + between)[1..] == between;
    hide Next, Agree, IsControl, InWindow, Stale;
    SilentWindow(w1, between, control.now + GUARD_MS);
    GuardedWindow(w1, between, control.now + GUARD_MS);
  }

  /** `later` can be run behind `step`. */
  predicate Rest(w: World, step: Step, later: seq<Step>)
    requires Enabled(w, step)
  {
    IsRun(Next(w, step), later)
  }

  lemma {:induction false} ControlOpens(w: World, step: Step)
    requires Enabled(w, step) && IsControl(w, step)
    ensures !Stale(w, step)
    ensures Next(w, step).shared.optimisticUntil == step.now + GUARD_MS
    ensures Next(w, step).shared.state.playing == (w.threads[step.i].control == Play)
  {
  }

  // ---------------------------------------------------------------- settling

  function ContRank(c: Cont): nat {
    if c == Return then 0 else 7
  }

  /** A bound on the steps that a goroutine's current operation can still cause. */
  function PcRank(pc: Pc): nat {
    match pc
    case Idle => 0
    case Sending(c) => 5 + ContRank(c)
    case StoringTrack(c) => 6 + ContRank(c)
    case StoringPlay => 6
    case Controlling(_) => 7
    case Committing(_, _) => 7
    case Merging(_) => 7
    case CopyingBack(_, c) => 7 + ContRank(c)
    case SettingTitle(_, c) => 7 + ContRank(c)
    case CheckingTitle(_, c) => 8 + ContRank(c)
    case Fetching(_, c) => 8 + ContRank(c)
    case Copying(_, _) => 16
  }

  function ThreadsRank(threads: seq<Pc>): nat {
    if threads == [] then 0 else PcRank(threads[0]) + ThreadsRank(threads[1..])
  }

  function ConsumerRank(c: ConsumerPc): nat {
    match c
    case Waiting => 0
    case SwappingTrack => 3
    case SwappingPlay => 2
    case ReadingPlaying => 1
  }

  function Rank(w: World): nat {
    ThreadsRank(w.threads) + ConsumerRank(w.consumer) + if w.shared.token then 4 else 0
  }

  lemma {:induction false} ThreadsRankUpdate(threads: seq<Pc>, i: nat, pc: Pc)
    requires i < |threads|
    ensures ThreadsRank(threads[i := pc]) == ThreadsRank(threads) - PcRank(threads[i]) + PcRank(pc)
  {
    var updated := threads[i := pc];
    if i == 0 {
      assert updated[1..] == threads[1..];
    } else {
      assert updated[1..] == threads[1..][i - 1 := pc];
      ThreadsRankUpdate(threads[1..], i - 1, pc);
    }
  }

  lemma AdvanceRank(s: Shared, pc: Pc, now: nat)
    requires pc != Idle
    ensures var (s', pc') := Advance(s, pc, now);
            if pc.Sending? then s'.token && PcRank(pc') + 5 == PcRank(pc)
            else s'.token == s.token && PcRank(pc') < PcRank(pc)
  {
  }

  lemma RankStep(w: World, step: Step)
    requires Enabled(w, step) && !step.Begin?
    ensures Rank(Next(w, step)) < Rank(w)
  {
    if step.Run? {
      AdvanceRank(w.shared, w.threads[step.i], step.now);
      ThreadsRankUpdate(w.threads, step.i, Advance(w.shared, w.threads[step.i], step.now).1);
      hide Advance, PcRank, ThreadsRank;
    }
  }

  /** Left to itself, the system stops after a bounded number of steps. */
  lemma {:induction false} Settles(w: World, steps: seq<Step>)
    requires IsRun(w, steps) && forall i :: 0 <= i < |steps| ==> !steps[i].Begin?
    ensures |steps| <= Rank(w) - Rank(After(w, steps))
    decreases steps
  {
    if steps != [] {
      RankStep(w, steps[0]);
      Settles(Next(w, steps[0]), steps[1..]);
    }
  }

  /** And it stops only when it is quiet: there is no deadlock. */
  lemma StopsOnlyWhenQuiet(w: World)
    ensures Quiescent(w) <==> forall step: Step :: Enabled(w, step) ==> step.Begin?
  {
    if !Quiescent(w) {
      if i :| 0 <= i < |w.threads| && w.threads[i] != Idle {
        assert Enabled(w, Run(i, w.clock));
      } else {
        assert Enabled(w, Consume);
      }
    }
  }

  // ---------------------------------------------------------------- a stale copy-back

  lemma Earlier(w: World, step: Step, w': World, steps: seq<Step>, end: World) returns (longer: seq<Step>)
    requires Enabled(w, step) && Next(w, step) == w'
    requires IsRun(w', steps) && After(w', steps) == end
    ensures longer == [step] + steps && IsRun(w, longer) && After(w, longer) == end
  {
    longer := [step] + steps;
    assert longer[1..] == steps;
  }

  /**
   A fetch copies the state out; Play is pressed and delivered; the fetch writes its copy back.  The
   run ends quiet, with the consumer told that music plays and the source saying it does not.
   */
  lemma StaleCopyBackLosesAnUpdate() returns (steps: seq<Step>)
    ensures IsRun(Initial(2), steps)
    ensures var w := After(Initial(2), steps);
            Quiescent(w) && w.delivered && !w.shared.state.playing && !Agree(w)
  {
    var fetched := Track(Some("t"), None, None, None);
    var copy := INITIAL.state.(title := "t");
    var back := CopyingBack(copy, Return);
    var s1 := INITIAL.(state := INITIAL.state.(playing := true), lastKnownPlaying := true, optimisticUntil := GUARD_MS);
    var s2 := s1.(playStateChanged := true);
    var s4 := s1.(state := copy, lastKnownTitle := "t");
    var s5 := s4.(trackChanged := true);
    var end := World(s4, [Idle, Idle], Waiting, true, 0);
    steps := Earlier(World(s4, [Idle, Idle], SwappingPlay, true, 0), Consume, end, [], end);
    steps := Earlier(World(s5, [Idle, Idle], SwappingTrack, true, 0), Consume,
                    World(s4, [Idle, Idle], SwappingPlay, true, 0), steps, end);
    steps := Earlier(World(s5.(token := true), [Idle, Idle], Waiting, true, 0), Consume,
                    World(s5, [Idle, Idle], SwappingTrack, true, 0), steps, end);
    steps := Earlier(World(s5, [Sending(Return), Idle], Waiting, true, 0), Run(0, 0),
                    World(s5.(token := true), [Idle, Idle], Waiting, true, 0), steps, end);
    steps := Earlier(World(s4, [StoringTrack(Return), Idle], Waiting, true, 0), Run(0, 0),
                    World(s5, [Sending(Return), Idle], Waiting, true, 0), steps, end);
    steps := Earlier(World(s1, [back, Idle], Waiting, true, 0), Run(0, 0),
                    World(s4, [StoringTrack(Return), Idle], Waiting, true, 0), steps, end);
    steps := BeforeCopyBack(fetched, copy, s1, s2, steps, end);
  }

  /** The middle of that run: the consumer is woken and told that music plays. */
  lemma BeforeCopyBack(fetched: Track, copy: PlayState, s1: Shared, s2: Shared, later: seq<Step>, end: World)
    returns (steps: seq<Step>)
    requires Says(fetched) && copy == Merge(INITIAL.state, fetched)
    requires s1 == ControlSection(INITIAL, Play, 0) && s2 == s1.(playStateChanged := true)
    requires var w := World(s1, [CopyingBack(copy, Return), Idle], Waiting, true, 0);
             IsRun(w, later) && After(w, later) == end
    ensures IsRun(Initial(2), steps) && After(Initial(2), steps) == end
  {
    var back := CopyingBack(copy, Return);
    steps := Earlier(World(s1, [back, Idle], ReadingPlaying, false, 0), Consume,
                    World(s1, [back, Idle], Waiting, true, 0), later, end);
    steps := Earlier(World(s2, [back, Idle], SwappingPlay, false, 0), Consume,
                    World(s1, [back, Idle], ReadingPlaying, false, 0), steps, end);
    steps := Earlier(World(s2, [back, Idle], SwappingTrack, false, 0), Consume,
                    World(s2, [back, Idle], SwappingPlay, false, 0), steps, end);
    steps := Earlier(World(s2.(token := true), [back, Idle], Waiting, false, 0), Consume,
                    World(s2, [back, Idle], SwappingTrack, false, 0), steps, end);
    steps := BeforeWakeUp(fetched, back, s1, s2, steps, end);
  }

  /** The start of that run: the state is copied out, and Play is pressed behind the fetch's back. */
  lemma BeforeWakeUp(fetched: Track, back: Pc, s1: Shared, s2: Shared, later: seq<Step>, end: World)
    returns (steps: seq<Step>)
    requires Says(fetched) && back == CopyingBack(Merge(INITIAL.state, fetched), Return)
    requires s1 == ControlSection(INITIAL, Play, 0) && s2 == s1.(playStateChanged := true)
    requires var w := World(s2.(token := true), [back, Idle], Waiting, false, 0);
             IsRun(w, later) && After(w, later) == end
    ensures IsRun(Initial(2), steps) && After(Initial(2), steps) == end
  {
    steps := Earlier(World(s2, [back, Sending(Return)], Waiting, false, 0), Run(1, 0),
                    World(s2.(token := true), [back, Idle], Waiting, false, 0), later, end);
    steps := Earlier(World(s1, [back, StoringPlay], Waiting, false, 0), Run(1, 0),
                    World(s2, [back, Sending(Return)], Waiting, false, 0), steps, end);
    steps := BeforeControl(fetched, back, s1, steps, end);
  }

  lemma BeforeControl(fetched: Track, back: Pc, s1: Shared, later: seq<Step>, end: World) returns (steps: seq<Step>)
    requires Says(fetched) && back == CopyingBack(Merge(INITIAL.state, fetched), Return)
    requires s1 == ControlSection(INITIAL, Play, 0)
    requires var w := World(s1, [back, StoringPlay], Waiting, false, 0);
             IsRun(w, later) && After(w, later) == end
    ensures IsRun(Initial(2), steps) && After(Initial(2), steps) == end
  {
    steps := Earlier(World(INITIAL, [back, Controlling(Play)], Waiting, false, 0), Run(1, 0),
                    World(s1, [back, StoringPlay], Waiting, false, 0), later, end);
    steps := Earlier(World(INITIAL, [back, Idle], Waiting, false, 0), Begin(1, DoControl(Play)),
                    World(INITIAL, [back, Controlling(Play)], Waiting, false, 0), steps, end);
    steps := Earlier(World(INITIAL, [Fetching(fetched, Return), Idle], Waiting, false, 0), Run(0, 0),
                    World(INITIAL, [back, Idle], Waiting, false, 0), steps, end);
    steps := Earlier(World(INITIAL, [Idle, Idle], Waiting, false, 0), Begin(0, DoFetch(fetched)),
                    World(INITIAL, [Fetching(fetched, Return), Idle], Waiting, false, 0), steps, end);
    assert Initial(2) == World(INITIAL, [Idle, Idle], Waiting, false, 0);
  }
}

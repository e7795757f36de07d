/**
 The notification protocol of the AVRCP source: any number of goroutines that poll, fetch and
 control, and the one consumer in processFrames (cmd/ipod/main.go), interleaved at every atomic step.
 */
module AvrcpProtocol {
  import opened Bytes
  import opened Avrcp

  /** What a goroutine goes on with after a nested call or a signal. */
  datatype Cont = Return | ToCommit(next: PlayState, gotPos: bool) | ToMerge(props: Properties)

  /** The next atomic step of a goroutine. */
  datatype Pc =
    | Idle
    | Controlling(control: Control)
    | Copying(props: Properties, fetched: Option<Track>)    // refresh is about to copy the state
    | CheckingTitle(title: string, cont: Cont)
    | SettingTitle(title: string, cont: Cont)
    | Committing(next: PlayState, gotPos: bool)
    | Fetching(track: Track, cont: Cont)                    // fetchTrack is about to copy the state out
    | CopyingBack(next: PlayState, cont: Cont)
    | Merging(props: Properties)
    | StoringTrack(cont: Cont)
    | StoringPlay
    | Sending(cont: Cont)

  datatype ConsumerPc = Waiting | SwappingTrack | SwappingPlay | ReadingPlaying

  /** `delivered` is the last play state that PlayStateChanged handed to the consumer. */
  datatype World = World(shared: Shared, threads: seq<Pc>, consumer: ConsumerPc, delivered: bool, clock: nat)

  datatype Operation =
    | DoControl(control: Control)
    | DoRefresh(props: Properties, fetched: Option<Track>)
    | DoFetch(track: Track)

  datatype Step = Begin(i: nat, op: Operation) | Run(i: nat, now: nat) | Consume

  function Start(op: Operation): Pc {
    match op
    case DoControl(c) => Controlling(c)
    case DoRefresh(p, f) => Copying(p, f)
    case DoFetch(t) => Fetching(t, Return)
  }

  function Resume(c: Cont): Pc {
    match c
    case Return => Idle
    case ToCommit(next, gotPos) => Committing(next, gotPos)
    case ToMerge(p) => Merging(p)
  }

  function SignalPlayIf(changed: bool): Pc {
    if changed then StoringPlay else Idle
  }

  /** One atomic step of a goroutine: the shared variables and its own next step. */
  function Advance(s: Shared, pc: Pc, now: nat): (Shared, Pc)
    requires pc != Idle
  {
    match pc
    case Controlling(c) => (ControlSection(s, c, now), if c == Other then Idle else StoringPlay)
    case Copying(p, f) =>
      var next := Patch(s.state, p);
      var commit := if GotAny(p) then ToCommit(next, p.position.Some?) else Return;
      (s, match p.track
          case Absent => if f.Some? then Fetching(f.value, ToMerge(p)) else Merging(p)
          case Unreadable => Resume(commit)
          case Present(_) => CheckingTitle(next.title, commit))
    case CheckingTitle(title, cont) =>
      (s, if title != s.lastKnownTitle then SettingTitle(title, cont) else Resume(cont))
    case SettingTitle(title, cont) => (s.(lastKnownTitle := title), StoringTrack(cont))
    case Committing(next, gotPos) =>
      var (s', changed) := CommitSection(s, next, gotPos, now);
      (s', SignalPlayIf(changed))
    case Fetching(t, cont) => (s, if Says(t) then CopyingBack(Merge(s.state, t), cont) else Resume(cont))
    case CopyingBack(next, cont) =>
      var (s', changed) := CopyBackSection(s, next);
      (s', if changed then StoringTrack(cont) else Resume(cont))
    case Merging(p) =>
      var (s', changed) := MergeSection(s, p, now);
      (s', SignalPlayIf(changed))
    case StoringTrack(cont) => (s.(trackChanged := true), Sending(cont))
    case StoringPlay => (s.(playStateChanged := true), Sending(Return))
    case Sending(cont) => (s.(token := true), Resume(cont))
  }

  /** One atomic step of the consumer: receive, two swaps, and the read that a set play flag asks for. */
  function ConsumerStep(w: World): World {
    var s := w.shared;
    match w.consumer
    case Waiting => w.(shared := s.(token := false), consumer := SwappingTrack)
    case SwappingTrack => w.(shared := s.(trackChanged := false), consumer := SwappingPlay)
    case SwappingPlay =>
      w.(shared := s.(playStateChanged := false), consumer := if s.playStateChanged then ReadingPlaying else Waiting)
    case ReadingPlaying => w.(delivered := s.state.playing, consumer := Waiting)
  }

  predicate Enabled(w: World, step: Step) {
    match step
    case Begin(i, _) => i < |w.threads| && w.threads[i] == Idle
    case Run(i, now) => i < |w.threads| && w.threads[i] != Idle && now >= w.clock
    case Consume => w.consumer == Waiting ==> w.shared.token
  }

  function Next(w: World, step: Step): World
    requires Enabled(w, step)
  {
    match step
    case Begin(i, op) => w.(threads := w.threads[i := Start(op)])
    case Run(i, now) =>
      var (s, pc) := Advance(w.shared, w.threads[i], now);
      w.(shared := s, threads := w.threads[i := pc], clock := now)
    case Consume => ConsumerStep(w)
  }

  /** A run: every step is enabled where it is taken. */
  predicate IsRun(w: World, steps: seq<Step>)
    decreases steps
  {
    steps == [] || (Enabled(w, steps[0]) && IsRun(Next(w, steps[0]), steps[1..]))
  }

  function After(w: World, steps: seq<Step>): World
    requires IsRun(w, steps)
    decreases steps
  {
    if steps == [] then w else After(Next(w, steps[0]), steps[1..])
  }

  function Initial(n: nat): World {
    World(INITIAL, seq(n, _ => Idle), Waiting, false, 0)
  }

  // ---------------------------------------------------------------- no lost wake-up

  predicate SomeSending(threads: seq<Pc>) {
    exists i :: 0 <= i < |threads| && threads[i].Sending?
  }

  /** A set flag always has a wake-up on its way to a consumer that has not yet swapped it. */
  predicate WakeUp(w: World) {
    && (w.shared.trackChanged ==> w.shared.token || SomeSending(w.threads) || w.consumer == SwappingTrack)
    && (w.shared.playStateChanged ==>
          w.shared.token || SomeSending(w.threads) || w.consumer in {SwappingTrack, SwappingPlay})
  }

  /** Another goroutine's send is not disturbed, and a goroutine that stores a flag is about to send. */
  lemma SendingKept(threads: seq<Pc>, i: nat, pc: Pc)
    requires i < |threads|
    ensures pc.Sending? ==> SomeSending(threads[i := pc])
    ensures SomeSending(threads) && !threads[i].Sending? ==> SomeSending(threads[i := pc])
  {
    if pc.Sending? {
      assert threads[i := pc][i].Sending?;
    }
    if SomeSending(threads) && !threads[i].Sending? {
      var j :| 0 <= j < |threads| && threads[j].Sending?;
      assert threads[i := pc][j].Sending?;
    }
  }

  lemma WakeUpStep(w: World, step: Step)
    requires WakeUp(w) && Enabled(w, step)
    ensures WakeUp(Next(w, step))
  {
    match step
    case Begin(i, op) =>
      SendingKept(w.threads, i, Start(op));
    case Run(i, now) =>
      SendingKept(w.threads, i, Advance(w.shared, w.threads[i], now).1);
    case Consume =>
  }

  lemma {:induction false} NoLostWakeUp(w: World, steps: seq<Step>)
    requires WakeUp(w) && IsRun(w, steps)
    ensures WakeUp(After(w, steps))
    decreases steps
  {
    if steps != [] {
      WakeUpStep(w, steps[0]);
      NoLostWakeUp(Next(w, steps[0]), steps[1..]);
    }
  }

  /** Nothing is under way and no wake-up is pending. */
  predicate Quiescent(w: World) {
    (forall i :: 0 <= i < |w.threads| ==> w.threads[i] == Idle) && w.consumer == Waiting && !w.shared.token
  }

  /** From the start, with any number of goroutines: when all is quiet, no change is left unnoticed. */
  lemma QuietMeansNoticed(n: nat, steps: seq<Step>)
    requires IsRun(Initial(n), steps) && Quiescent(After(Initial(n), steps))
    ensures !After(Initial(n), steps).shared.trackChanged && !After(Initial(n), steps).shared.playStateChanged
  {
    NoLostWakeUp(Initial(n), steps);
  }

  // ---------------------------------------------------------------- agreement

  predicate Agree(w: World) {
    w.shared.state.playing == w.shared.lastKnownPlaying
  }

  /** The step is a copy-back of a state whose Playing has since been changed by another goroutine. */
  predicate Stale(w: World, step: Step)
    requires Enabled(w, step)
  {
    step.Run? && w.threads[step.i].CopyingBack? && w.threads[step.i].next.playing != w.shared.lastKnownPlaying
  }

  predicate FreshRun(w: World, steps: seq<Step>)
    requires IsRun(w, steps)
    decreases steps
  {
    steps == [] || (!Stale(w, steps[0]) && FreshRun(Next(w, steps[0]), steps[1..]))
  }

  predicate AlwaysAgree(w: World, steps: seq<Step>)
    requires IsRun(w, steps)
    decreases steps
  {
    Agree(w) && (steps == [] || AlwaysAgree(Next(w, steps[0]), steps[1..]))
  }

  /** From `s` to `s'` with agreement kept, every change of Playing reported, and no stale time stamp. */
  predicate Faithful(s: Shared, s': Shared, reported: bool) {
    && s'.state.playing == s'.lastKnownPlaying
    && (s'.state.playing != s.state.playing ==> reported)
    && ((s.posRefreshedAt.Some? ==> s.state.playing) ==> s'.posRefreshedAt.Some? ==> s'.state.playing)
    && s'.playStateChanged == s.playStateChanged
  }

  lemma CommitFaithful(s: Shared, next: PlayState, gotPos: bool, now: nat)
    requires s.state.playing == s.lastKnownPlaying
    ensures var (s', changed) := CommitSection(s, next, gotPos, now); Faithful(s, s', changed)
  {
  }

  lemma MergeFaithful(s: Shared, p: Properties, now: nat)
    requires s.state.playing == s.lastKnownPlaying
    ensures var (s', changed) := MergeSection(s, p, now); Faithful(s, s', changed)
  {
  }

  /**
   A goroutine's step on shared variables that agree.  It keeps them in agreement unless it is a stale
   copy-back; and unless it is one, it signals every change of Playing it makes.
   */
  lemma AdvanceAgrees(s: Shared, pc: Pc, now: nat)
    requires pc != Idle && s.state.playing == s.lastKnownPlaying
    ensures var (s', pc') := Advance(s, pc, now);
            var stale := pc.CopyingBack? && pc.next.playing != s.lastKnownPlaying;
            (s'.state.playing == s'.lastKnownPlaying <==> !stale) &&
            (!stale ==> Faithful(s, s'.(playStateChanged := s.playStateChanged), pc' == StoringPlay)) &&
            (s'.playStateChanged <==> s.playStateChanged || pc == StoringPlay)
  {
    if pc.Committing? {
      CommitFaithful(s, pc.next, pc.gotPos, now);
      hide CommitSection;
    } else if pc.Merging? {
      MergeFaithful(s, pc.props, now);
      hide MergeSection;
    }
  }

  lemma AgreeStep(w: World, step: Step)
    requires Agree(w) && Enabled(w, step)
    ensures Agree(Next(w, step)) <==> !Stale(w, step)
  {
    if step.Run? {
      AdvanceAgrees(w.shared, w.threads[step.i], step.now);
      hide Advance;
    }
  }

  /** Playing and lastKnownPlaying agree throughout a run exactly when the run makes no stale copy-back. */
  lemma {:induction false} AgreesExactlyWhenFresh(w: World, steps: seq<Step>)
    requires Agree(w) && IsRun(w, steps)
    ensures AlwaysAgree(w, steps) <==> FreshRun(w, steps)
    decreases steps
  {
    if steps != [] {
      AgreeStep(w, steps[0]);
      if !Stale(w, steps[0]) {
        AgreesExactlyWhenFresh(Next(w, steps[0]), steps[1..]);
      }
    }
  }

  // ---------------------------------------------------------------- convergence

  predicate SomeStoringPlay(threads: seq<Pc>) {
    exists i :: 0 <= i < |threads| && threads[i] == StoringPlay
  }

  /** A position time stamp only while playing; and news of a change of Playing is never dropped. */
  predicate Tracked(w: World) {
    && Agree(w)
    && (w.shared.posRefreshedAt.Some? ==> w.shared.state.playing)
    && (w.delivered != w.shared.state.playing ==>
          w.shared.playStateChanged || SomeStoringPlay(w.threads) || w.consumer == ReadingPlaying)
  }

  lemma StoringPlayKept(threads: seq<Pc>, i: nat, pc: Pc)
    requires i < |threads|
    ensures pc == StoringPlay ==> SomeStoringPlay(threads[i := pc])
    ensures SomeStoringPlay(threads) && threads[i] != StoringPlay ==> SomeStoringPlay(threads[i := pc])
  {
    if pc == StoringPlay {
      assert threads[i := pc][i] == StoringPlay;
    }
    if SomeStoringPlay(threads) && threads[i] != StoringPlay {
      var j :| 0 <= j < |threads| && threads[j] == StoringPlay;
      assert threads[i := pc][j] == StoringPlay;
    }
  }

  lemma TrackedStep(w: World, step: Step)
    requires Tracked(w) && Enabled(w, step) && !Stale(w, step)
    ensures Tracked(Next(w, step))
  {
    match step
    case Begin(i, op) =>
      StoringPlayKept(w.threads, i, Start(op));
    case Run(i, now) =>
      AdvanceAgrees(w.shared, w.threads[i], now);
      StoringPlayKept(w.threads, i, Advance(w.shared, w.threads[i], now).1);
      hide Advance, SomeStoringPlay;
    case Consume =>
  }

  lemma {:induction false} TrackedRun(w: World, steps: seq<Step>)
    requires Tracked(w) && IsRun(w, steps) && FreshRun(w, steps)
    ensures Tracked(After(w, steps))
    decreases steps
  {
    if steps != [] {
      TrackedStep(w, steps[0]);
      TrackedRun(Next(w, steps[0]), steps[1..]);
    }
  }

  /** In every quiet state of a fresh run the consumer has last been told what is the case. */
  lemma Converges(n: nat, steps: seq<Step>)
    requires IsRun(Initial(n), steps) && FreshRun(Initial(n), steps)
    requires Quiescent(After(Initial(n), steps))
    ensures var w := After(Initial(n), steps);
            w.delivered == w.shared.state.playing == w.shared.lastKnownPlaying
  {
    TrackedRun(Initial(n), steps);
    QuietMeansNoticed(n, steps);
  }

  // ---------------------------------------------------------------- atomic fetches

  /** Each copy-out of a fetch is followed at once by its copy-back. */
  predicate FetchesAtomic(steps: seq<Step>, w: World)
    requires IsRun(w, steps)
    decreases steps
  {
    steps == [] ||
    var w' := Next(w, steps[0]);
    FetchesAtomic(steps[1..], w') &&
    (steps[0].Run? && w.threads[steps[0].i].Fetching? && w'.threads[steps[0].i].CopyingBack? ==>
       |steps| > 1 && steps[1].Run? && steps[1].i == steps[0].i)
  }

  predicate NoneCopyingBack(threads: seq<Pc>) {
    forall i :: 0 <= i < |threads| ==> !threads[i].CopyingBack?
  }

  /** When fetchTrack's two sections count as one step, no copy-back is stale. */
  lemma {:induction false} AtomicFetchesAreFresh(w: World, steps: seq<Step>)
    requires Agree(w) && NoneCopyingBack(w.threads) && IsRun(w, steps) && FetchesAtomic(steps, w)
    ensures FreshRun(w, steps)
    decreases steps
  {
    if steps != [] {
      var w1 := Next(w, steps[0]);
      assert !Stale(w, steps[0]);
      AgreeStep(w, steps[0]);
      if steps[0].Run? && w.threads[steps[0].i].Fetching? && w1.threads[steps[0].i].CopyingBack? {
        var w2 := Next(w1, steps[1]);
        assert !Stale(w1, steps[1]);
        AgreeStep(w1, steps[1]);
        assert steps[1..][0] == steps[1] && steps[1..][1..] == steps[2..];
        AtomicFetchesAreFresh(w2, steps[2..]);
      } else {
        AtomicFetchesAreFresh(w1, steps[1..]);
      }
    }
  }
}

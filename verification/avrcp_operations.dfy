/** What each operation of the AVRCP source comes to when nothing interrupts it (avrcp/avrcp.go). */
module AvrcpOperations {
  import opened Bytes
  import opened Avrcp
  import opened AvrcpProtocol
  import opened AvrcpLaws

  /** The shared variables once a goroutine has run on its own until it is idle. */
  function Alone(s: Shared, pc: Pc, now: nat): Shared
    decreases PcRank(pc)
  {
    if pc == Idle then s
    else
      var (s', pc') := Advance(s, pc, now);
      AdvanceRank(s, pc, now);
      Alone(s', pc', now)
  }

  /** Track fields that were given replace the old ones. */
  predicate TrackTaken(was: PlayState, t: Option<Track>, after: PlayState) {
    var given := if t.Some? then t.value else Track(None, None, None, None);
    after.title == (if given.title.Some? then given.title.value else was.title) &&
    after.artist == (if given.artist.Some? then given.artist.value else was.artist) &&
    after.album == (if given.album.Some? then given.album.value else was.album) &&
    after.duration == (if given.duration.Some? then given.duration.value else was.duration)
  }

  /** Flags are only ever set, each together with the token. */
  predicate Reported(s: Shared, s': Shared, track: bool, play: bool) {
    s'.trackChanged == (s.trackChanged || track) && s'.playStateChanged == (s.playStateChanged || play) &&
    s'.token == (s.token || track || play)
  }

  // ---------------------------------------------------------------- single steps

  lemma {:induction false} Signalling(s: Shared, pc: Pc, now: nat)
    requires pc in {StoringPlay, StoringTrack(Return)}
    ensures Alone(s, pc, now)
         == if pc == StoringPlay then s.(playStateChanged := true, token := true)
            else s.(trackChanged := true, token := true)
  {
    var (s1, pc1) := Advance(s, pc, now);
    assert Alone(s, pc, now) == Alone(s1, pc1, now);
    var (s2, pc2) := Advance(s1, pc1, now);
    assert Alone(s1, pc1, now) == Alone(s2, pc2, now) == s2;
  }

  lemma {:induction false} SignallingTrack(s: Shared, cont: Cont, now: nat)
    ensures Alone(s, StoringTrack(cont), now) == Alone(s.(trackChanged := true, token := true), Resume(cont), now)
  {
    var s1 := s.(trackChanged := true);
    assert Alone(s, StoringTrack(cont), now) == Alone(s1, Sending(cont), now);
    assert Alone(s1, Sending(cont), now) == Alone(s1.(token := true), Resume(cont), now);
  }

  // ---------------------------------------------------------------- operations

  /** MediaControl: the commanded state, reported even when it is no change. */
  lemma {:induction false} Control(s: Shared, c: Avrcp.Control, now: nat)
    ensures var s' := Alone(s, Start(DoControl(c)), now);
            Reported(s, s', false, c != Other) &&
            IsControlled(s, c, now, s'.(playStateChanged := s.playStateChanged, token := s.token))
  {
    ControlMeans(s, c, now);
    hide ControlSection;
    var s1 := ControlSection(s, c, now);
    assert Alone(s, Controlling(c), now) == Alone(s1, if c == Other then Idle else StoringPlay, now);
    if c != Other {
      Signalling(s1, StoringPlay, now);
    }
  }

  /** fetchTrack takes over the track and nothing else, and reports a new title. */
  predicate IsFetched(s: Shared, t: Track, s': Shared) {
    if Says(t)
    then
      TrackTaken(s.state, Some(t), s'.state) && s'.lastKnownTitle == s'.state.title &&
      s'.state.position == s.state.position && s'.state.playing == s.state.playing &&
      s'.lastKnownPlaying == s.lastKnownPlaying && s'.posRefreshedAt == s.posRefreshedAt &&
      s'.optimisticUntil == s.optimisticUntil && Reported(s, s', s'.state.title != s.lastKnownTitle, false)
    else s' == s
  }

  lemma {:induction false} Fetching(s: Shared, t: Track, cont: Cont, now: nat) returns (s': Shared)
    ensures IsFetched(s, t, s') && Alone(s, AvrcpProtocol.Fetching(t, cont), now) == Alone(s', Resume(cont), now)
  {
    if Says(t) {
      var next := Merge(s.state, t);
      assert Alone(s, AvrcpProtocol.Fetching(t, cont), now) == Alone(s, CopyingBack(next, cont), now);
      var (s1, changed) := CopyBackSection(s, next);
      CopyBackMeans(s, next);
      var pc := if changed then StoringTrack(cont) else Resume(cont);
      assert Alone(s, CopyingBack(next, cont), now) == Alone(s1, pc, now);
      if changed {
        SignallingTrack(s1, cont, now);
        s' := s1.(trackChanged := true, token := true);
      } else {
        s' := s1;
      }
    } else {
      s' := s;
    }
  }

  lemma {:induction false} Fetch(s: Shared, t: Track, now: nat)
    ensures IsFetched(s, t, Alone(s, Start(DoFetch(t)), now))
  {
    var s' := Fetching(s, t, Return, now);
  }

  /** What a refresh believes about Playing when the answer is `p`. */
  function PlayingAfter(s: Shared, p: Properties, now: nat): bool {
    if p.playing.Some? then Believed(s, p.playing.value, now) else s.state.playing
  }

  /**
   refresh when GetAll carried Track, readable or not, from a state in which Playing and
   lastKnownPlaying agree: everything that was given is taken over, and changes are reported.
   */
  lemma {:induction false} RefreshWithTrack(s: Shared, p: Properties, f: Option<Track>, now: nat)
    requires p.track != Absent && s.state.playing == s.lastKnownPlaying
    ensures var s' := Alone(s, Start(DoRefresh(p, f)), now);
            var playing := PlayingAfter(s, p, now);
            var newTitle := p.track.Present? && s'.state.title != s.lastKnownTitle;
            TrackTaken(s.state, if p.track.Present? then Some(p.track.track) else None, s'.state) &&
            s'.state.position == (if p.position.Some? then p.position.value else s.state.position) &&
            s'.state.playing == s'.lastKnownPlaying == playing &&
            s'.lastKnownTitle == (if newTitle then s'.state.title else s.lastKnownTitle) &&
            s'.optimisticUntil == s.optimisticUntil && Reported(s, s', newTitle, playing != s.state.playing) &&
            s'.posRefreshedAt
            == if !GotAny(p) then s.posRefreshedAt
               else if !playing then None else if p.position.Some? then Some(now) else s.posRefreshedAt
  {
    var next, gotPos := Patch(s.state, p), p.position.Some?;
    var cont := if GotAny(p) then ToCommit(next, gotPos) else Return;
    var s1 := s;
    if p.track.Present? {
      s1 := Titled(s, next.title, cont, now);
      assert Alone(s, Copying(p, f), now) == Alone(s, CheckingTitle(next.title, cont), now);
    }
    assert Alone(s, Copying(p, f), now) == Alone(s1, Resume(cont), now);
    if GotAny(p) {
      Committed(s1, next, gotPos, now);
      hide CommitSection;
    }
  }

  lemma {:induction false} Titled(s: Shared, title: string, cont: Cont, now: nat) returns (s': Shared)
    ensures Alone(s, CheckingTitle(title, cont), now) == Alone(s', Resume(cont), now)
    ensures s' == if title == s.lastKnownTitle then s
                  else s.(lastKnownTitle := title, trackChanged := true, token := true)
  {
    if title != s.lastKnownTitle {
      assert Alone(s, CheckingTitle(title, cont), now) == Alone(s, SettingTitle(title, cont), now);
      var s1 := s.(lastKnownTitle := title);
      assert Alone(s, SettingTitle(title, cont), now) == Alone(s1, StoringTrack(cont), now);
      SignallingTrack(s1, cont, now);
      s' := s1.(trackChanged := true, token := true);
    } else {
      s' := s;
    }
  }

  lemma {:induction false} Committed(s: Shared, next: PlayState, gotPos: bool, now: nat)
    ensures var s' := Alone(s, Committing(next, gotPos), now);
            var unsignalled := s'.(playStateChanged := s.playStateChanged, token := s.token);
            var changed := Believed(s, next.playing, now) != s.lastKnownPlaying;
            IsCommitted(s, next, gotPos, now, unsignalled, changed) && Reported(s, s', false, changed)
  {
    var (s1, changed) := CommitSection(s, next, gotPos, now);
    CommitMeans(s, next, gotPos, now);
    hide CommitSection;
    assert Alone(s, Committing(next, gotPos), now) == Alone(s1, SignalPlayIf(changed), now);
    if changed {
      Signalling(s1, StoringPlay, now);
    }
  }

  lemma {:induction false} Merged(s: Shared, p: Properties, now: nat)
    ensures var s' := Alone(s, Merging(p), now);
            var unsignalled := s'.(playStateChanged := s.playStateChanged, token := s.token);
            var changed := p.playing.Some? && Believed(s, p.playing.value, now) != s.lastKnownPlaying;
            IsMerged(s, p, now, unsignalled, changed) && Reported(s, s', false, changed)
  {
    var (s1, changed) := MergeSection(s, p, now);
    MergeMeans(s, p, now);
    hide MergeSection;
    assert Alone(s, Merging(p), now) == Alone(s1, SignalPlayIf(changed), now);
    if changed {
      Signalling(s1, StoringPlay, now);
    }
  }

  /** The same when GetAll carried no Track and fetchTrack, if it got an answer `f`, supplies it. */
  lemma {:induction false} RefreshWithoutTrack(s: Shared, p: Properties, f: Option<Track>, now: nat)
    requires p.track == Absent && s.state.playing == s.lastKnownPlaying
    ensures var s' := Alone(s, Start(DoRefresh(p, f)), now);
            var playing := PlayingAfter(s, p, now);
            var newTitle := f.Some? && Says(f.value) && s'.state.title != s.lastKnownTitle;
            TrackTaken(s.state, f, s'.state) &&
            s'.state.position == (if p.position.Some? then p.position.value else s.state.position) &&
            s'.state.playing == s'.lastKnownPlaying == playing &&
            s'.lastKnownTitle == (if newTitle then s'.state.title else s.lastKnownTitle) &&
            s'.optimisticUntil == s.optimisticUntil && Reported(s, s', newTitle, playing != s.state.playing) &&
            s'.posRefreshedAt
            == if p.playing.Some? && !playing then None
               else if p.position.Some? && s.state.playing then Some(now) else s.posRefreshedAt
  {
    var s1 := s;
    if f.Some? {
      s1 := Fetching(s, f.value, ToMerge(p), now);
      assert Alone(s, Copying(p, f), now) == Alone(s, AvrcpProtocol.Fetching(f.value, ToMerge(p)), now);
    }
    assert Alone(s, Copying(p, f), now) == Alone(s1, Merging(p), now);
    Merged(s1, p, now);
    hide MergeSection;
  }

  // ---------------------------------------------------------------- the consumer

  /** A woken consumer takes the token, clears both flags, and is told Playing exactly when its flag was set. */
  lemma {:induction false} ConsumerTurn(w: World)
    requires w.consumer == Waiting
    ensures var w3 := ConsumerStep(ConsumerStep(ConsumerStep(w)));
            var end := if w.shared.playStateChanged then ConsumerStep(w3) else w3;
            end == w.(shared := w.shared.(token := false, trackChanged := false, playStateChanged := false),
                      delivered := if w.shared.playStateChanged then w.shared.state.playing else w.delivered)
  {
  }
}

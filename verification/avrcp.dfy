/**
 The AVRCP playback source (avrcp/avrcp.go).  Each critical section, flag operation and channel
 operation is one atomic step on the shared variables; what BlueZ answers is a parameter.
 */
module Avrcp {
  import opened Bytes

  /** How long an optimistic Play or Pause holds against BlueZ, in milliseconds. */
  const GUARD_MS: nat := 1500

  datatype PlayState = PlayState(title: string, artist: string, album: string,
                                 duration: nat, position: nat, playing: bool)

  /** The fields of Source that its goroutines share, and whether notifyCh holds its one token. */
  datatype Shared = Shared(state: PlayState, posRefreshedAt: Option<nat>, lastKnownTitle: string,
                           lastKnownPlaying: bool, optimisticUntil: nat,
                           trackChanged: bool, playStateChanged: bool, token: bool)

  datatype Control = Play | Pause | Stop | Other

  /** Track metadata as parsed: a title only if it is not empty, a duration only if it is positive. */
  datatype Track = Track(title: Option<string>, artist: Option<string>, album: Option<string>, duration: Option<nat>)

  datatype TrackProperty = Absent | Unreadable | Present(track: Track)

  /** The answer to GetAll: the properties that refresh looks at. */
  datatype Properties = Properties(position: Option<nat>, playing: Option<bool>, track: TrackProperty)

  predicate Says(t: Track) {
    t.title.Some? || t.artist.Some? || t.album.Some? || t.duration.Some?
  }

  function Merge(s: PlayState, t: Track): PlayState {
    s.(title := Or(t.title, s.title), artist := Or(t.artist, s.artist),
       album := Or(t.album, s.album), duration := Or(t.duration, s.duration))
  }

  /** refresh's local copy once the answer has been patched in. */
  function Patch(s: PlayState, p: Properties): PlayState {
    var s' := s.(position := Or(p.position, s.position), playing := Or(p.playing, s.playing));
    if p.track.Present? then Merge(s', p.track.track) else s'
  }

  predicate GotAny(p: Properties) {
    p.position.Some? || p.playing.Some? || (p.track.Present? && Says(p.track.track))
  }

  const INITIAL: Shared :=
    Shared(PlayState("", "", "", 300_000, 0, false), None, "", false, 0, false, false, false)

  // ---------------------------------------------------------------- the atomic steps

  /** MediaControl's critical section. */
  function ControlSection(s: Shared, c: Control, now: nat): Shared {
    match c
    case Play =>
      s.(state := s.state.(playing := true), lastKnownPlaying := true, optimisticUntil := now + GUARD_MS)
    case Other => s
    case _ =>
      s.(state := s.state.(playing := false), lastKnownPlaying := false, posRefreshedAt := None,
         optimisticUntil := now + GUARD_MS)
  }

  /** refresh's last section when GetAll carried Track; also whether the playing flag changed. */
  function CommitSection(s: Shared, next: PlayState, gotPos: bool, now: nat): (Shared, bool) {
    var prev := s.lastKnownPlaying;
    var playing := if next.playing != prev && now < s.optimisticUntil then prev else next.playing;
    var changed := playing != prev;
    (s.(state := next.(playing := playing),
        lastKnownPlaying := if changed then playing else prev,
        posRefreshedAt := if gotPos && playing then Some(now) else if !playing then None else s.posRefreshedAt),
     changed)
  }

  /** refresh's section behind fetchTrack when GetAll carried no Track. */
  function MergeSection(s: Shared, p: Properties, now: nat): (Shared, bool) {
    var s1 :=
      if p.position.Some? then
        s.(state := s.state.(position := p.position.value),
           posRefreshedAt := if s.state.playing then Some(now) else s.posRefreshedAt)
      else s;
    if p.playing == None then (s1, false)
    else
      var differs := p.playing.value != s1.lastKnownPlaying;
      var suppressed := differs && now < s1.optimisticUntil;
      var playing := if suppressed then s1.lastKnownPlaying else p.playing.value;
      (s1.(lastKnownPlaying := playing,
           posRefreshedAt := if playing then s1.posRefreshedAt else None,
           state := s1.state.(playing := playing)),
       differs && !suppressed)
  }

  /** fetchTrack's copy-back: the whole state is replaced by a copy taken earlier. */
  function CopyBackSection(s: Shared, next: PlayState): (Shared, bool) {
    (s.(lastKnownTitle := next.title, state := next), next.title != s.lastKnownTitle)
  }

  // ---------------------------------------------------------------- what the steps do, field by field

  /** None of the fields that belong to other steps has changed. */
  predicate SameRest(s: Shared, s': Shared) {
    s'.trackChanged == s.trackChanged && s'.playStateChanged == s.playStateChanged && s'.token == s.token
  }

  predicate SameTrack(s: PlayState, s': PlayState) {
    s'.title == s.title && s'.artist == s.artist && s'.album == s.album && s'.duration == s.duration
  }

  /** The phone's word on Playing counts from the end of the guard window on; before that, what was known. */
  function Believed(s: Shared, reported: bool, now: nat): bool {
    if now >= s.optimisticUntil then reported else s.lastKnownPlaying
  }

  /** Play, Pause and Stop take effect at once, and open the window for 1500 ms. */
  predicate IsControlled(s: Shared, c: Control, now: nat, s': Shared) {
    SameRest(s, s') && SameTrack(s.state, s'.state) && s'.state.position == s.state.position &&
    s'.lastKnownTitle == s.lastKnownTitle &&
    if c == Other
    then s'.state.playing == s.state.playing && s'.lastKnownPlaying == s.lastKnownPlaying &&
         s'.posRefreshedAt == s.posRefreshedAt && s'.optimisticUntil == s.optimisticUntil
    else s'.state.playing == s'.lastKnownPlaying == (c == Play) && s'.optimisticUntil == now + 1500 &&
         s'.posRefreshedAt == if c == Play then s.posRefreshedAt else None
  }

  /** The patched copy becomes the state, except that Playing is what is believed; a change of it is reported. */
  predicate IsCommitted(s: Shared, next: PlayState, gotPos: bool, now: nat, s': Shared, changed: bool) {
    var playing := Believed(s, next.playing, now);
    SameRest(s, s') && SameTrack(next, s'.state) && s'.state.position == next.position &&
    s'.state.playing == s'.lastKnownPlaying == playing && changed == (playing != s.lastKnownPlaying) &&
    s'.lastKnownTitle == s.lastKnownTitle && s'.optimisticUntil == s.optimisticUntil &&
    s'.posRefreshedAt == if !playing then None else if gotPos then Some(now) else s.posRefreshedAt
  }

  /** What was reported is taken over, Playing as it is believed; what was not is left as it was. */
  predicate IsMerged(s: Shared, p: Properties, now: nat, s': Shared, changed: bool) {
    var timed := if p.position.Some? && s.state.playing then Some(now) else s.posRefreshedAt;
    SameRest(s, s') && SameTrack(s.state, s'.state) &&
    s'.lastKnownTitle == s.lastKnownTitle && s'.optimisticUntil == s.optimisticUntil &&
    s'.state.position == (if p.position.Some? then p.position.value else s.state.position) &&
    if p.playing.Some?
    then
      var playing := Believed(s, p.playing.value, now);
      s'.state.playing == s'.lastKnownPlaying == playing && changed == (playing != s.lastKnownPlaying) &&
      s'.posRefreshedAt == if playing then timed else None
    else
      s'.state.playing == s.state.playing && s'.lastKnownPlaying == s.lastKnownPlaying && !changed &&
      s'.posRefreshedAt == timed
  }

  /** The copy becomes the state as it is, and its title the one that is known; a new title is reported. */
  predicate IsCopiedBack(s: Shared, next: PlayState, s': Shared, changed: bool) {
    SameRest(s, s') && s'.state == next && s'.lastKnownTitle == next.title &&
    changed == (next.title != s.lastKnownTitle) &&
    s'.lastKnownPlaying == s.lastKnownPlaying && s'.posRefreshedAt == s.posRefreshedAt &&
    s'.optimisticUntil == s.optimisticUntil
  }

  lemma ControlMeans(s: Shared, c: Control, now: nat)
    ensures IsControlled(s, c, now, ControlSection(s, c, now))
  {
  }

  lemma CommitMeans(s: Shared, next: PlayState, gotPos: bool, now: nat)
    ensures var (s', changed) := CommitSection(s, next, gotPos, now); IsCommitted(s, next, gotPos, now, s', changed)
  {
  }

  lemma MergeMeans(s: Shared, p: Properties, now: nat)
    ensures var (s', changed) := MergeSection(s, p, now); IsMerged(s, p, now, s', changed)
  {
  }

  lemma CopyBackMeans(s: Shared, next: PlayState)
    ensures var (s', changed) := CopyBackSection(s, next); IsCopiedBack(s, next, s', changed)
  {
  }

  // ---------------------------------------------------------------- the class

  class Source {
    var state: PlayState
    var posRefreshedAt: Option<nat>
    var lastKnownTitle: string
    var lastKnownPlaying: bool
    var optimisticUntil: nat
    var trackChanged: bool
    var playStateChanged: bool
    var notifyCh: bool

    function Snapshot(): Shared
      reads this
    {
      Shared(state, posRefreshedAt, lastKnownTitle, lastKnownPlaying, optimisticUntil,
             trackChanged, playStateChanged, notifyCh)
    }

    constructor ()
      ensures Snapshot() == INITIAL
    {
      state := PlayState("", "", "", 300_000, 0, false);
      posRefreshedAt, lastKnownTitle, lastKnownPlaying, optimisticUntil := None, "", false, 0;
      trackChanged, playStateChanged, notifyCh := false, false, false;
    }

    method LockedControl(c: Control, now: nat)
      modifies this
      ensures Snapshot() == ControlSection(old(Snapshot()), c, now)
      ensures IsControlled(old(Snapshot()), c, now, Snapshot())
    {
      ControlMeans(Snapshot(), c, now);
      match c
      case Play =>
        state := state.(playing := true);
        lastKnownPlaying := true;
        optimisticUntil := now + GUARD_MS;
      case Other =>
      case _ =>
        state := state.(playing := false);
        lastKnownPlaying := false;
        posRefreshedAt := None;
        optimisticUntil := now + GUARD_MS;
    }

    method LockedCommit(next: PlayState, gotPos: bool, now: nat) returns (playingChanged: bool)
      modifies this
      ensures (Snapshot(), playingChanged) == CommitSection(old(Snapshot()), next, gotPos, now)
      ensures IsCommitted(old(Snapshot()), next, gotPos, now, Snapshot(), playingChanged)
    {
      CommitMeans(Snapshot(), next, gotPos, now);
      var prevPlaying := lastKnownPlaying;
      state := next;
      if next.playing != prevPlaying && now < optimisticUntil {
        state := state.(playing := prevPlaying);
      }
      playingChanged := state.playing != prevPlaying;
      if playingChanged {
        lastKnownPlaying := state.playing;
      }
      if gotPos && state.playing {
        posRefreshedAt := Some(now);
      } else if !state.playing {
        posRefreshedAt := None;
      }
    }

    method LockedMerge(p: Properties, now: nat) returns (playingChanged: bool)
      modifies this
      ensures (Snapshot(), playingChanged) == MergeSection(old(Snapshot()), p, now)
      ensures IsMerged(old(Snapshot()), p, now, Snapshot(), playingChanged)
    {
      MergeMeans(Snapshot(), p, now);
      playingChanged := false;
      if p.position.Some? {
        state := state.(position := p.position.value);
        if state.playing {
          posRefreshedAt := Some(now);
        }
      }
      if p.playing.Some? {
        var newPlaying := p.playing.value;
        if newPlaying != lastKnownPlaying {
          if now < optimisticUntil {
            newPlaying := lastKnownPlaying;
          } else {
            playingChanged := true;
            lastKnownPlaying := newPlaying;
          }
        }
        if !newPlaying {
          posRefreshedAt := None;
        }
        state := state.(playing := newPlaying);
      }
    }

    method LockedCopyBack(next: PlayState) returns (changed: bool)
      modifies this
      ensures (Snapshot(), changed) == CopyBackSection(old(Snapshot()), next)
      ensures IsCopiedBack(old(Snapshot()), next, Snapshot(), changed)
    {
      CopyBackMeans(Snapshot(), next);
      changed := next.title != lastKnownTitle;
      if changed {
        lastKnownTitle := next.title;
      }
      state := next;
    }

    /** The two halves of signalTrackChanged and signalPlayStateChanged. */
    method StoreTrackChanged()
      modifies `trackChanged
      ensures Snapshot() == old(Snapshot()).(trackChanged := true)
    {
      trackChanged := true;
    }

    method StorePlayStateChanged()
      modifies `playStateChanged
      ensures Snapshot() == old(Snapshot()).(playStateChanged := true)
    {
      playStateChanged := true;
    }

    /** The send does not block: a full channel already holds the token. */
    method Notify()
      modifies `notifyCh
      ensures Snapshot() == old(Snapshot()).(token := true)
    {
      if !notifyCh {
        notifyCh := true;
      }
    }

    method TrackChanged() returns (changed: bool)
      modifies `trackChanged
      ensures changed == old(Snapshot()).trackChanged
      ensures Snapshot() == old(Snapshot()).(trackChanged := false)
    {
      changed, trackChanged := trackChanged, false;
    }

    /** The swap at the start of PlayStateChanged; the flag it returns decides whether Playing is read. */
    method SwapPlayStateChanged() returns (changed: bool)
      modifies `playStateChanged
      ensures changed == old(Snapshot()).playStateChanged
      ensures Snapshot() == old(Snapshot()).(playStateChanged := false)
    {
      changed, playStateChanged := playStateChanged, false;
    }

    method IsPlaying() returns (playing: bool)
      ensures playing == Snapshot().state.playing
    {
      playing := state.playing;
    }
  }
}

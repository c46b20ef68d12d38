/** The player as an event-driven machine: every user action or media
    notification is one `Event`, and a session is the start-up state
    followed by a sequence of events. */
module Session {
  import opened Optional
  import opened PlayerState
  import opened Transport

  datatype Event =
    | FilesChosen(files: Option<seq<Track>>)
    | PlayPauseClicked
    | NextClicked
    | PrevClicked
    | TrackEnded
    | EntryClicked(position: int)

  /** Whether the interface offers the event in state `s`. The file input
      is always there; the transport buttons and the audio element exist
      only while the playlist is non-empty; the list offers one entry per
      track, at positions `0 .. |playlist| - 1`. */
  predicate Offered(s: State, e: Event) {
    match e
    case FilesChosen(_) => true
    case EntryClicked(k) => 0 <= k < |s.playlist|
    case _ => |s.playlist| > 0
  }

  /** One event. An event the interface does not offer cannot happen, so
      it leaves the state alone. The end of a track runs the same handler
      as the next button. */
  function Step(s: State, e: Event): (r: State)
    ensures !Offered(s, e) ==> r == s
    ensures Valid(s) ==> Valid(r)
    ensures Offered(s, e) && e.TrackEnded? ==> r == NextTrack(s)
    ensures r.playlist == s.playlist || (e.FilesChosen? && e.files.Some?)
  {
    if !Offered(s, e) then s
    else
      match e
      case FilesChosen(files) => Upload(s, files)
      case PlayPauseClicked => TogglePlayPause(s)
      case NextClicked => NextTrack(s)
      case PrevClicked => PrevTrack(s)
      case TrackEnded => NextTrack(s)
      case EntryClicked(k) => SelectTrack(s, k)
  }

  /** When a track plays to its end the handler moves to the following
      track, wrapping after the last, and sets the playing flag to false
      with the progress reset. */
  lemma TrackEndClearsFlag(s: State)
    requires Valid(s) && |s.playlist| > 0
    ensures Step(s, TrackEnded).currentIndex == (s.currentIndex + 1) % |s.playlist|
    ensures !Step(s, TrackEnded).isPlaying && Step(s, TrackEnded).progress == 0.0
    ensures Step(s, TrackEnded).playlist == s.playlist
  {
  }

  /** The state after a sequence of events, applied first to last. */
  function Run(s: State, es: seq<Event>): State
    decreases |es|
  {
    if |es| == 0 then s else Run(Step(s, es[0]), es[1..])
  }

  /** Every sequence of events keeps the index within the playlist. */
  lemma {:induction false} RunKeepsValid(s: State, es: seq<Event>)
    requires Valid(s)
    ensures Valid(Run(s, es))
    decreases |es|
  {
    if |es| > 0 {
      RunKeepsValid(Step(s, es[0]), es[1..]);
    }
  }

  /** The playlist never loses an entry: every state reached from `s`
      starts with the whole of `s`'s playlist. */
  lemma {:induction false} RunExtendsPlaylist(s: State, es: seq<Event>)
    ensures |Run(s, es).playlist| >= |s.playlist|
    ensures Run(s, es).playlist[..|s.playlist|] == s.playlist
    decreases |es|
  {
    if |es| > 0 {
      var t := Step(s, es[0]);
      assert t.playlist[..|s.playlist|] == s.playlist;
      RunExtendsPlaylist(t, es[1..]);
      var u := Run(t, es[1..]);
      assert u.playlist[..|s.playlist|] == u.playlist[..|t.playlist|][..|s.playlist|];
    }
  }

  /** The main invariant: from start-up, with or without a saved
      playlist, and after any events, the playlist is empty or the index
      names one of its tracks, so the audio element always has a track. */
  lemma SessionValid(saved: Option<seq<Track>>, es: seq<Event>)
    ensures Valid(Run(Startup(saved), es))
    ensures |Run(Startup(saved), es).playlist| > 0 ==> CurrentTrack(Run(Startup(saved), es)).Some?
  {
    RunKeepsValid(Startup(saved), es);
  }
}

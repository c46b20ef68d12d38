/** The optional value used wherever the player may receive "nothing":
    no file list from the picker, no saved playlist, no current track. */
module Optional {

  datatype Option<+T> = None | Some(value: T)
}

/** The state kept by the music player component: the playlist, the index
    of the current track, the playing flag and the progress percentage,
    together with the invariant that ties the index to the playlist. */
module PlayerState {
  import opened Optional

  /** A playlist entry. The url is an opaque resource locator produced by
      the browser for an uploaded file; the name is the file's name. */
  datatype Track = Track(url: string, name: string)

  /** `currentIndex` is a JavaScript number, hence an `int`; `progress` is a
      percentage that the modelled transitions only ever reset to zero. */
  datatype State = State(
    playlist: seq<Track>,
    currentIndex: int,
    isPlaying: bool,
    progress: real
  )

  /** Whenever there is a track, the index names one of them. */
  predicate Valid(s: State) {
    |s.playlist| == 0 || 0 <= s.currentIndex < |s.playlist|
  }

  /** The track the audio element is pointed at: the optional lookup
      `playlist[currentIndex]?.url` yields nothing when the index is off
      the end of the list. */
  function CurrentTrack(s: State): (r: Option<Track>)
    ensures r.Some? <==> 0 <= s.currentIndex < |s.playlist|
    ensures r.Some? ==> r.value in s.playlist
  {
    if 0 <= s.currentIndex < |s.playlist| then Some(s.playlist[s.currentIndex]) else None
  }

  /** The state the component starts with: no tracks, index 0, paused,
      no progress. */
  function Initial(): (r: State)
    ensures Valid(r)
    ensures |r.playlist| == 0 && r.currentIndex == 0
    ensures !r.isPlaying && r.progress == 0.0
  {
    State([], 0, false, 0.0)
  }

  /** Restoring the saved playlist. `saved` is `None` when the store holds
      no entry or an empty string (both falsy, so nothing is restored), and
      `Some(ts)` when it holds a serialised list that reads back as `ts`.
      Only the playlist is replaced; the index is left as it is. */
  function Restore(s: State, saved: Option<seq<Track>>): (r: State)
    ensures saved.None? ==> r == s
    ensures saved.Some? ==> r.playlist == saved.value
    ensures r.currentIndex == s.currentIndex && r.isPlaying == s.isPlaying && r.progress == s.progress
    ensures Valid(r) <==> (saved.None? && Valid(s))
                          || (saved.Some? && (|saved.value| == 0 || 0 <= s.currentIndex < |saved.value|))
  {
    match saved
    case None => s
    case Some(ts) => s.(playlist := ts)
  }

  /** The state right after start-up: the initial state with the saved
      playlist, if any, restored into it. */
  function Startup(saved: Option<seq<Track>>): (r: State)
    ensures Valid(r)
    ensures r.currentIndex == 0 && !r.isPlaying && r.progress == 0.0
    ensures r.playlist == (if saved.Some? then saved.value else [])
  {
    Restore(Initial(), saved)
  }

  /** Valid states with at least one track always have a current track, so
      the audio element is never pointed at a missing entry. */
  lemma ValidHasCurrentTrack(s: State)
    requires Valid(s) && |s.playlist| > 0
    ensures CurrentTrack(s) == Some(s.playlist[s.currentIndex])
  {
  }
}

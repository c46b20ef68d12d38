/** Laws relating the transitions to each other: next and previous undo
    one another, `n` presses of next come back to the start, appending in
    two batches is appending once, and appending never moves the track
    that is loaded. */
module TransportLaws {
  import opened Optional
  import opened PlayerState
  import opened Transport
  import opened Modular

  /** Previous undoes next, up to the cleared playing flag and progress
      reset both perform. */
  lemma NextThenPrev(s: State)
    requires |s.playlist| > 0 && Valid(s)
    ensures PrevTrack(NextTrack(s)) == s.(isPlaying := false, progress := 0.0)
  {
    var n := |s.playlist|;
    var i := s.currentIndex;
    if i == n - 1 {
      assert NextTrack(s).currentIndex == 0;
    } else {
      assert NextTrack(s).currentIndex == i + 1;
    }
  }

  /** Next undoes previous, up to the cleared playing flag and progress
      reset both perform. */
  lemma PrevThenNext(s: State)
    requires |s.playlist| > 0 && Valid(s)
    ensures NextTrack(PrevTrack(s)) == s.(isPlaying := false, progress := 0.0)
  {
    var n := |s.playlist|;
    var i := s.currentIndex;
    if i == 0 {
      assert PrevTrack(s).currentIndex == n - 1;
    } else {
      assert PrevTrack(s).currentIndex == i - 1;
    }
  }

  /** `k` presses of the next button in a row. */
  function NextN(s: State, k: nat): (r: State)
    requires |s.playlist| > 0
    ensures r.playlist == s.playlist
    decreases k
  {
    if k == 0 then s else NextTrack(NextN(s, k - 1))
  }

  /** `k` presses of the previous button in a row. */
  function PrevN(s: State, k: nat): (r: State)
    requires |s.playlist| > 0
    ensures r.playlist == s.playlist
    decreases k
  {
    if k == 0 then s else PrevTrack(PrevN(s, k - 1))
  }

  /** After `k` presses of next the index has advanced by `k` modulo the
      playlist length, and the playing flag is false when `k > 0`. */
  lemma {:induction false} NextNIndex(s: State, k: nat)
    requires |s.playlist| > 0 && Valid(s)
    ensures Valid(NextN(s, k))
    ensures NextN(s, k).currentIndex == (s.currentIndex + k) % |s.playlist|
    ensures k > 0 ==> !NextN(s, k).isPlaying && NextN(s, k).progress == 0.0
    decreases k
  {
    var n := |s.playlist|;
    var i := s.currentIndex;
    if k == 0 {
      ModUnique(i, 0, i, n);
    } else {
      NextNIndex(s, k - 1);
      var t := NextN(s, k - 1);
      assert NextN(s, k) == NextTrack(t);
      assert t.currentIndex == (i + (k - 1)) % n;
      assert NextTrack(t).currentIndex == (t.currentIndex + 1) % n;
      SuccMod(i + (k - 1), n);
    }
  }

  /** After `k` presses of previous the index has moved back by `k`
      modulo the playlist length. */
  lemma {:induction false} PrevNIndex(s: State, k: nat)
    requires |s.playlist| > 0 && Valid(s)
    ensures Valid(PrevN(s, k))
    ensures PrevN(s, k).currentIndex == (s.currentIndex - k) % |s.playlist|
    ensures k > 0 ==> !PrevN(s, k).isPlaying && PrevN(s, k).progress == 0.0
    decreases k
  {
    var n := |s.playlist|;
    var i := s.currentIndex;
    if k == 0 {
      ModUnique(i, 0, i, n);
    } else {
      PrevNIndex(s, k - 1);
      var t := PrevN(s, k - 1);
      assert PrevN(s, k) == PrevTrack(t);
      assert t.currentIndex == (i - (k - 1)) % n;
      assert PrevTrack(t).currentIndex == (t.currentIndex - 1 + n) % n;
      PredMod(i - (k - 1), n);
    }
  }

  /** Wraparound closure: pressing next once per track returns to the
      track the walk started from. */
  lemma NextCycle(s: State)
    requires |s.playlist| > 0 && Valid(s)
    ensures NextN(s, |s.playlist|).currentIndex == s.currentIndex
    ensures NextN(s, |s.playlist|) == s.(isPlaying := false, progress := 0.0)
  {
    var n := |s.playlist|;
    NextNIndex(s, n);
    ModUnique(s.currentIndex + n, 1, s.currentIndex, n);
  }

  /** Pressing previous once per track also returns to the start. */
  lemma PrevCycle(s: State)
    requires |s.playlist| > 0 && Valid(s)
    ensures PrevN(s, |s.playlist|) == s.(isPlaying := false, progress := 0.0)
  {
    var n := |s.playlist|;
    PrevNIndex(s, n);
    ModUnique(s.currentIndex - n, -1, s.currentIndex, n);
  }

  /** Play/pause twice is no change at all. */
  lemma ToggleTwice(s: State)
    ensures TogglePlayPause(TogglePlayPause(s)) == s
  {
  }

  /** Uploading two batches one after the other gives the same state as
      uploading both in one go. */
  lemma UploadTwice(s: State, a: seq<Track>, b: seq<Track>)
    ensures Upload(Upload(s, Some(a)), Some(b)) == Upload(s, Some(a + b))
  {
    assert s.playlist + a + b == s.playlist + (a + b);
  }

  /** Uploading while tracks are present leaves the loaded track where it
      is; uploading into an empty playlist loads the first new file. */
  lemma UploadCurrentTrack(s: State, files: seq<Track>)
    requires Valid(s)
    ensures |s.playlist| > 0 ==> CurrentTrack(Upload(s, Some(files))) == CurrentTrack(s)
    ensures |s.playlist| == 0 && |files| > 0 ==> CurrentTrack(Upload(s, Some(files))) == Some(files[0])
  {
    var r := Upload(s, Some(files));
    if |s.playlist| > 0 {
      assert r.playlist[s.currentIndex] == s.playlist[s.currentIndex];
    }
  }

  /** `n` tracks uploaded into the freshly started, empty player give
      index 0 and exactly those `n` entries, in order. */
  lemma UploadIntoEmpty(files: seq<Track>)
    ensures Upload(Initial(), Some(files)).currentIndex == 0
    ensures Upload(Initial(), Some(files)).playlist == files
  {
  }
}

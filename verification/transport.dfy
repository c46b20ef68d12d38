/** The event handlers of the player as pure transitions on `State`:
    upload, play/pause, next, previous and selecting a track. */
module Transport {
  import opened Optional
  import opened PlayerState
  import opened Modular

  /** JavaScript's `%` on integers: the remainder takes the sign of the
      dividend (truncated division), unlike Dafny's Euclidean `%`. The sign
      bounds together with `a - r` being a multiple of `b` pin the value
      down for every dividend. */
  function JsRem(a: int, b: int): (r: int)
    requires b > 0
    ensures a >= 0 ==> 0 <= r < b
    ensures a <= 0 ==> -b < r <= 0
    ensures a >= 0 ==> r == a % b
    ensures 0 <= a < b ==> r == a
    ensures b <= a < 2 * b ==> r == a - b
    ensures (a - r) % b == 0
  {
    if a >= 0 then
      assert 0 <= a < b ==> a % b == a by {
        if a < b {
          ModUnique(a, 0, a, b);
        }
      }
      assert b <= a < 2 * b ==> a % b == a - b by {
        if b <= a < 2 * b {
          ModUnique(a, 1, a - b, b);
        }
      }
      assert (a - a % b) % b == 0 by {
        ModUnique(a - a % b, a / b, 0, b);
      }
      a % b
    else
      var m := (-a) % b;
      assert (a + m) % b == 0 by {
        var q := (-a) / b;
        assert -a == q * b + m;
        assert (-q) * b == -(q * b);
        ModUnique(a + m, -q, 0, b);
      }
      -m
  }

  /** Files chosen in the picker. `files` is `None` when the input reports
      no file list, in which case nothing happens. Otherwise the new tracks
      are appended in the order given; an empty playlist moves the index to
      0, and the playing flag is set to false with the progress reset. */
  function Upload(s: State, files: Option<seq<Track>>): (r: State)
    ensures files.None? ==> r == s
    ensures files.Some? ==> r.playlist == s.playlist + files.value
    ensures files.Some? ==> r.playlist[..|s.playlist|] == s.playlist
    ensures files.Some? ==> r.playlist[|s.playlist|..] == files.value
    ensures files.Some? && |s.playlist| == 0 ==> r.currentIndex == 0
    ensures |s.playlist| > 0 ==> r.currentIndex == s.currentIndex
    ensures files.Some? ==> !r.isPlaying && r.progress == 0.0
    ensures Valid(s) ==> Valid(r)
  {
    match files
    case None => s
    case Some(fs) =>
      var appended := s.playlist + fs;
      assert appended[..|s.playlist|] == s.playlist;
      assert appended[|s.playlist|..] == fs;
      State(appended, if |s.playlist| == 0 then 0 else s.currentIndex, false, 0.0)
  }

  /** The play/pause button: does nothing on an empty playlist, otherwise
      flips the playing flag and nothing else. */
  function TogglePlayPause(s: State): (r: State)
    ensures |s.playlist| == 0 ==> r == s
    ensures |s.playlist| > 0 ==> r.isPlaying == !s.isPlaying
    ensures r.playlist == s.playlist && r.currentIndex == s.currentIndex && r.progress == s.progress
    ensures Valid(s) ==> Valid(r)
  {
    if |s.playlist| == 0 then s else s.(isPlaying := !s.isPlaying)
  }

  /** The "next" button, also fired when a track plays to its end. The
      controls exist only while the playlist is non-empty, which is why
      the length may be assumed positive. */
  function NextTrack(s: State): (r: State)
    requires |s.playlist| > 0
    ensures r.playlist == s.playlist && !r.isPlaying && r.progress == 0.0
    ensures s.currentIndex >= 0 ==> r.currentIndex == (s.currentIndex + 1) % |s.playlist|
    ensures Valid(s) ==> Valid(r)
    ensures s.currentIndex == |s.playlist| - 1 ==> r.currentIndex == 0
    ensures 0 <= s.currentIndex < |s.playlist| - 1 ==> r.currentIndex == s.currentIndex + 1
  {
    s.(currentIndex := JsRem(s.currentIndex + 1, |s.playlist|), isPlaying := false, progress := 0.0)
  }

  /** The "previous" button. Adding the length before taking the remainder
      keeps the dividend non-negative, so index 0 wraps to the last track. */
  function PrevTrack(s: State): (r: State)
    requires |s.playlist| > 0
    ensures r.playlist == s.playlist && !r.isPlaying && r.progress == 0.0
    ensures s.currentIndex >= 0 ==> r.currentIndex == (s.currentIndex - 1 + |s.playlist|) % |s.playlist|
    ensures Valid(s) ==> Valid(r)
    ensures s.currentIndex == 0 ==> r.currentIndex == |s.playlist| - 1
    ensures 0 < s.currentIndex < |s.playlist| ==> r.currentIndex == s.currentIndex - 1
  {
    s.(currentIndex := JsRem(s.currentIndex - 1 + |s.playlist|, |s.playlist|), isPlaying := false, progress := 0.0)
  }

  /** Clicking entry `k` of the rendered list: the index becomes `k`, the
      flag says playing and the progress is reset. The handler itself does
      not check `k`; the list only offers positions of existing tracks. */
  function SelectTrack(s: State, k: int): (r: State)
    ensures r.playlist == s.playlist && r.currentIndex == k
    ensures r.isPlaying && r.progress == 0.0
    ensures Valid(r) <==> |s.playlist| == 0 || 0 <= k < |s.playlist|
    ensures 0 <= k < |s.playlist| ==> CurrentTrack(r) == Some(s.playlist[k])
  {
    s.(currentIndex := k, isPlaying := true, progress := 0.0)
  }
}

# Music player playlist and transport model

A Dafny model of the state machine inside the single `App` component of a
browser music player. The component keeps an ordered playlist of uploaded
tracks (`{url, name}`), the index of the current track, a playing flag and
a progress percentage. Each event handler is one deterministic transition
on that state:

- choosing files appends tracks (and moves the index to 0 if the playlist
  was empty);
- the play/pause button flips the flag (a no-op on an empty playlist);
- next and previous move the index with wraparound, `(i + 1) % n` and
  `(i - 1 + n) % n`, setting the playing flag to false; the end of a
  track runs "next";
- clicking a list entry selects that track and marks it playing;
- start-up restores a saved playlist into the initial state.

Also modelled is the `m:SS` label for a duration given in whole seconds.

Modules:

- `Optional` and `PlayerState` (`player_state.dfy`): `Track`, `State`,
  the invariant `Valid` ("playlist empty, or `0 <= index < |playlist|`"),
  the initial state, restoring a saved playlist, and the current-track
  lookup that feeds the audio element.
- `Transport` (`transport.dfy`): the handlers as pure `State -> State`
  functions. JavaScript's truncating `%` is written out as `JsRem`.
- `TransportLaws` (`transport_laws.dfy`): next and previous undo each
  other, `n` presses of either return to the start, `k` presses move the
  index by `k` modulo `n`, and laws about upload and play/pause.
- `Session` (`session.dfy`): events, which events the interface offers in
  a state, and runs of events; the invariant holds after start-up and any
  run of events.
- `DurationFormat` (`duration_format.dfy`): the label, a reader for it,
  and proofs that the two are inverse.

Two behaviours of the code worth stating plainly:

- At the natural end of a track the code runs the next handler
  (src/App.tsx:132), which sets the playing flag to false, so the model's
  flag is false there too (`Session.TrackEndClearsFlag`). The flag is not the
  audio element's real state: see the drift described under "Left out".
- `JSON.parse` at src/App.tsx:19 runs unguarded and throws on a malformed
  saved string; that path is not modelled (see below).

## Model

| member | source | states |
|---|---|---|
| PlayerState.CurrentTrack | src/App.tsx:130 | the optional lookup `playlist[index]?.url` yields a track exactly when the index is inside the playlist, and that track is in the playlist |
| PlayerState.Initial | src/App.tsx:6-13 | the start state has no tracks, index 0, is paused with no progress, and satisfies the invariant |
| PlayerState.Restore | src/App.tsx:16-22 | with nothing saved the state is unchanged; otherwise only the playlist is replaced; the result satisfies the invariant exactly when the kept index fits the restored list, or the list is empty |
| PlayerState.Startup | src/App.tsx:6-22 | start-up yields index 0, paused, no progress, the saved playlist (or none), and a valid state |
| PlayerState.ValidHasCurrentTrack | src/App.tsx:126-130 | in a valid state with tracks, the audio element always has a current track, the one at the index |
| Transport.JsRem | src/App.tsx:71-79 | JavaScript's remainder lies in `[0, b)` for a non-negative dividend and in `(-b, 0]` for a non-positive one, and differs from the dividend by a multiple of `b`, which fixes its value for every dividend; it agrees with Dafny's `%` for a non-negative dividend |
| Transport.Upload | src/App.tsx:28-42 | no file list: nothing changes; otherwise the old entries are kept as a prefix and the new tracks follow in order, the index is 0 if the list was empty and unchanged otherwise, the playing flag is false, progress is 0, and validity is preserved |
| Transport.TogglePlayPause | src/App.tsx:44-52 | on an empty playlist nothing changes; otherwise only the playing flag flips; validity is preserved |
| Transport.NextTrack | src/App.tsx:70-75 | for a non-empty playlist the index becomes `(i + 1) % n`, the last track wraps to 0, the playing flag is false, progress is 0, the playlist is unchanged, and validity is preserved |
| Transport.PrevTrack | src/App.tsx:77-83 | for a non-empty playlist the index becomes `(i - 1 + n) % n`, index 0 wraps to `n - 1`, the playing flag is false, progress is 0, the playlist is unchanged, and validity is preserved |
| Transport.SelectTrack | src/App.tsx:85-88 | the index becomes `k`, the flag says playing, progress is 0, the playlist is unchanged; the result is valid exactly when `k` is a position of the list (or the list is empty), and then the current track is entry `k` |
| TransportLaws.NextThenPrev | src/App.tsx:70-83 | previous after next restores the original index and playlist |
| TransportLaws.PrevThenNext | src/App.tsx:70-83 | next after previous restores the original index and playlist |
| TransportLaws.NextNIndex | src/App.tsx:70-75 | `k` presses of next move the index to `(i + k) % n`, keep the state valid, and leave the playing flag false with progress 0 |
| TransportLaws.PrevNIndex | src/App.tsx:77-83 | `k` presses of previous move the index to `(i - k) % n`, keep the state valid, and leave the playing flag false with progress 0 |
| TransportLaws.NextCycle | src/App.tsx:70-75 | `n` presses of next on an `n`-track playlist return to the starting index |
| TransportLaws.PrevCycle | src/App.tsx:77-83 | `n` presses of previous on an `n`-track playlist return to the starting index |
| TransportLaws.ToggleTwice | src/App.tsx:44-52 | pressing play/pause twice leaves the state exactly as it was |
| TransportLaws.UploadTwice | src/App.tsx:28-42 | uploading two batches in turn equals uploading their concatenation once |
| TransportLaws.UploadCurrentTrack | src/App.tsx:28-42 | appending to a non-empty playlist keeps the current track; appending to an empty one makes the first new file current |
| TransportLaws.UploadIntoEmpty | src/App.tsx:28-42 | `n` files uploaded into the initial player give index 0 and exactly those `n` entries |
| Session.Step | src/App.tsx:124-169 | an event the interface does not offer (`Offered`: the file input always; the transport controls and the audio element only for a non-empty playlist, lines 126-137; list entries only at positions of existing tracks, lines 165-169) changes nothing; every event preserves validity; the end of a track is the next transition; only an upload changes the playlist |
| Session.TrackEndClearsFlag | src/App.tsx:132 | at the end of a track the index moves to `(i + 1) % n`, the playing flag is set to false and progress to 0; the playlist is unchanged |
| Session.RunKeepsValid | src/App.tsx:28-88 | every sequence of events from a valid state ends in a valid state |
| Session.RunExtendsPlaylist | src/App.tsx:28-42 | every sequence of events keeps the starting playlist as a prefix of the final one |
| Session.SessionValid | src/App.tsx:6-88 | after start-up and any events the index lies within a non-empty playlist, so a current track exists |
| DurationFormat.NatToString | src/App.tsx:147 | the decimal text of a number is a non-empty string of digits without a leading zero, one digit exactly for values below 10 |
| DurationFormat.NatToStringValue | src/App.tsx:147 | the decimal text of a number reads back as that number |
| DurationFormat.LastTwo | src/App.tsx:148 | `slice(-2)` keeps the last two characters, or the whole string if it is shorter, and these form a suffix of the input |
| DurationFormat.MinutesField | src/App.tsx:147 | the minutes field is canonical decimal text worth `s / 60` |
| DurationFormat.SecondsField | src/App.tsx:148 | the seconds field is always exactly two digits worth `s % 60` |
| DurationFormat.FormatDuration | src/App.tsx:147-148 | the label is the minutes field, a colon, and the two-digit seconds field, and minutes times 60 plus seconds is `s` |
| DurationFormat.FormatThenParse | src/App.tsx:147-148 | every label reads back as the duration it shows |
| DurationFormat.ParseThenFormat | src/App.tsx:147-148 | every string that reads as a duration is that duration's label |
| DurationFormat.FormatInjective | src/App.tsx:147-148 | different durations have different labels |

## Left out

- Media-element side effects (`play`, `pause`, `load`, the data-loaded callback and its promise rejection, `currentTime` writes) and the ordering of asynchronous callbacks: a browser API outside the model. So the model also does not show the playing flag drifting from the real playback state. That drift is not limited to failed playback: every handler that writes the flag without driving the media element can cause it. The most common case: the data-loaded callback that the first click on a list entry installs (lines 94-98) is never removed, so from then on every change of the audio element's `src` (line 130) by next, previous or the end of a track on a list of two or more tracks (lines 72, 80, 132) reloads the element and calls `play()`, and the audio plays while the flag is false. Upload while a track plays clears the flag (src/App.tsx:39) but never pauses, and the audio element's `src` (line 130) is unchanged, so the audio keeps playing. Next or previous on a one-track list clears the flag but leaves the index, and so the audio element's `src` (line 130), unchanged (lines 71, 79), so the audio also keeps playing. Selecting a track sets the flag even if the later `play()` is rejected (lines 87, 95-97).
- Persistence: writing the playlist as JSON on every change, and parsing it at start-up. A saved value is modelled as either nothing (no entry or an empty string) or the list of tracks it parses to. A malformed saved string makes the source's `JSON.parse` throw, and that path is not modelled.
- Creation of object URLs for uploaded files: the url of a `Track` is an opaque string chosen outside the model.
- Progress and seek (`currentTime / duration * 100`), volume scaling and the volume effect: floating-point arithmetic with NaN cases. The `progress` field is kept only so the transitions can reset it to 0; `duration` and `volume` are not part of `State`, because no modelled transition changes them.
- Rendering, styles and the icon, except the facts the transitions rely on: the controls and audio element exist only for a non-empty playlist, and the list offers one entry per track.
- Transport.NextTrack and Transport.PrevTrack require a non-empty playlist. With no tracks, JavaScript's `% 0` yields NaN, but the buttons and the audio element that fire these handlers are not rendered then.
- Transport.Upload reads the emptiness test from the state of the last render and appends through a functional update. In a model of sequential events the two are the same state.
- DurationFormat.FormatDuration takes a whole number of seconds. The code floors `duration / 60` and `duration % 60` of a floating-point duration (src/App.tsx:147-148); for a finite duration d >= 0, floor(d / 60) = floor(d) / 60 and floor(d % 60) = floor(d) % 60, so taking the whole seconds first loses nothing. The NaN duration before metadata arrive, and exponent notation for numbers of 10^21 and more, are not modelled.

# REECAP Backprojection Explorer: the viewer's logic

The REECAP Backprojection Explorer is a single-page Streamlit dashboard. It
browses sequences of pre-rendered PNG frames kept in an S3 bucket. Under the
configured root prefix, every sub-folder is one "direction", an interpolation
path through a learned latent space. The viewer works in four steps:

- It lists the directions.
- It labels them anonymously as "Direction 1", "Direction 2", and so on.
- It loads the PNG frames of the direction the user picks. They are ordered
  by the number spelled by all the digits of their object keys, directory
  prefix included. So when the prefix holds a digit and the frame numbers are
  padded differently, "d1/f10.png" (key 110) sorts before "d1/f009.png"
  (key 1009).
- It shows one frame, chosen by a slider or by an autoplay refresh counter, at
  a width the user adjusts with two zoom buttons.

This project models the logic of `app.py` in Dafny, with the object store,
the image decoder and the widgets taken out:

- `Decimal` (decimal.dfy): reading a string of ASCII digits as a number
  (`int(...)`) and writing a number in decimal (`str(n)`, f-strings). Both
  directions of the round trip are proved.
- `Paths` (paths.dfy): `str.split("/")`, `"/".join`, `str.rstrip("/")` and the
  idiom `split("/")[-1]`. Split and join are proved to be inverses.
- `StableSort` (stable_sort.dfy): Python's `sorted(s, key=f)` for a
  natural-number key. It is written as an insertion sort and proved to be a
  permutation, ordered by key and stable. It is also proved to be the only
  arrangement with those three properties, so it agrees with Python's `sorted`
  on every input.
- `FrameKeys` (frame_keys.dfy): the frame sort key, the `.png` filter and the
  frame-loading loop of `load_images`.
- `Directions` (directions.dfy): `list_directions`, the ordering Python uses for
  strings, and the `anon_map` labelling.
- `Session` (session.dfy): the `zoom` / `play_mode` session state, as the class
  `SessionState`, whose methods the buttons call. A pure state machine
  (`Step`, `Run`) specifies those methods and carries the lemmas about every
  sequence of presses.
- `Playback` (playback.dfy): the frame index in play mode and slider mode, and
  the frame caption.
- `Viewer` (viewer.dfy): one run of the script, from the listing to what
  `st.image` is given, with the two "show an error and stop" guards as error
  results. After the guards, the run handles its button press on the session
  object, and the frame index and the width read the session after that press.

The parts that are not modelled become parameters:

- The S3 listing results: `prefixes` (the CommonPrefixes under the root), and
  `listing` (the keys under a prefix).
- `get_object` plus PIL decoding: the function `fetch`.
- The radio widget's pick: `choice`.
- The button this rerun reports as pressed: `pressed`.
- The refresh counter: `count`, an arbitrary natural number.
- The slider: a function `slider`. Given the range 0..hi, it returns a value in
  that range.

## Model

| member | source | states |
|---|---|---|
| FrameKeys.Digits | app.py:45 | `"".join(filter(str.isdigit, x))`: the result holds only digits and is no longer than x (DigitsAppend gives its contents). |
| FrameKeys.SortKey | app.py:45 | The sort key `int(... or 0)`, as a natural number. Its meaning is stated by SortKeyMeaning and SortKeyConcat. |
| FrameKeys.SortKeyMeaning | app.py:45 | The sort key of a key is the number denoted by all its digits, concatenated in order. It is 0 when the key has no digits. |
| FrameKeys.SortKeyConcat | app.py:45 | The digits of the whole key count, prefix included. The key of `a + b` is key(a) shifted left by the digit count of b, plus key(b). |
| FrameKeys.PrefixDigitsReorder | app.py:45 | Digits in the directory count too: "d1/f10.png" has key 110 and "d1/f009.png" has key 1009, so frame 10 sorts before frame 9. |
| FrameKeys.SortKeyOfNumberedFrame | app.py:45 | A frame named prefix + str(n) + extension sorts as n, when prefix and extension hold no digits. |
| FrameKeys.DigitsAppend | app.py:45 | `filter(str.isdigit, ·)` distributes over concatenation. So it keeps exactly the digits, in order. |
| Decimal.LeadingZeros | app.py:45 | `int` ignores leading zeros: prefixing a numeral with "0" does not change its value. |
| FrameKeys.SortKeyLeadingZero | app.py:45 | After a digit-free prefix, an extra "0" before the number leaves the sort key unchanged, so "f07.png" and "f7.png" tie. |
| Decimal.Value | app.py:45 | `int(ds)` of a digit string: the value is below 10 to the length of ds. ValueOfShow and ShowOfValue tie it to Show. |
| Decimal.Show | app.py:63 | `str(n)`: a non-empty digit string with no leading zero. |
| Decimal.ValueOfShow | app.py:63 | Reading back the decimal numeral of n gives n. The labels "Direction {i+1}" therefore name distinct numbers. |
| Decimal.ShowOfValue | app.py:137 | Writing the value of a numeral that has no leading zero gives the numeral back. This is the other direction of the round trip. |
| FrameKeys.IsPng | app.py:44 | `key.endswith(".png")`, case-sensitive: the key has at least 4 characters and its last 4 are ".png". |
| FrameKeys.PngKeys | app.py:44 | Every key the filter keeps ends in ".png". |
| FrameKeys.PngKeysCount | app.py:44 | Each listed key ending in ".png" is kept exactly as often as it is listed. No other key is kept. |
| FrameKeys.PngKeysAppend | app.py:44 | The filter keeps listing order. It distributes over concatenation. |
| StableSort.SortBy | app.py:43-46 | Python's `sorted(s, key=f)` as an insertion sort. It returns as many elements as it is given; the lemmas below state the rest. |
| StableSort.SortByPermutes | app.py:43-46 | `sorted` returns a permutation of its input. |
| StableSort.SortBySorted | app.py:43-46 | `sorted` orders by non-decreasing key. |
| StableSort.SortByStable | app.py:43-46 | Elements with equal keys keep their input order. |
| StableSort.SortByIsTheStableSort | app.py:43-46 | Any arrangement that is ordered by key and stable is the result of SortBy. The model is exactly the stable sort. |
| FrameKeys.FrameOrder | app.py:43-46 | The `keys` list of `load_images`: the ".png" keys, stably sorted by SortKey. FrameOrderSpec states what it holds. |
| FrameKeys.FrameOrderSpec | app.py:43-46 | The frame list holds the listed ".png" keys, each as often as listed, and nothing else. It is ordered by non-decreasing sort key, with ties kept in listing order. |
| FrameKeys.FrameOrderUnique | app.py:43-46 | Any list that is ordered by sort key and keeps the listing order of ties is the frame list. |
| FrameKeys.LoadImages | app.py:48-53 | The loop returns one frame per ".png" key, in frame order. Frame i is captioned with its key's last "/" segment and holds its key's fetched image. |
| Paths.Split | app.py:52 | `s.split("/")`: always at least one piece. |
| Paths.SplitPiecesPlain | app.py:52 | No piece of `s.split("/")` contains "/". |
| Paths.JoinSplit | app.py:52 | `"/".join(s.split("/")) == s`. |
| Paths.SplitJoin | app.py:52 | Splitting a join of "/"-free segments gives the segments back. |
| Paths.LastSegmentSpec | app.py:52 | `s.split("/")[-1]` has no "/". It is a suffix of s that is either all of s or starts right after a "/". |
| Paths.LastSegment | app.py:52 | `s.split("/")[-1]`. LastSegmentSpec says which part of s it is. |
| Paths.RStrip | app.py:35 | `rstrip("/")` returns a prefix of s that does not end in "/". Everything it removes is "/". |
| Directions.DirName | app.py:35 | `p.rstrip("/").split("/")[-1]`. DirNameSpec says which part of p it is. |
| Directions.DirNameSpec | app.py:35 | A direction name is the last segment of the prefix after its trailing "/" are gone. It has no "/", ends the stripped prefix, and is empty only when the prefix is all "/". |
| Directions.Names | app.py:34-35 | There is one name per common prefix, in listing order, each being DirName of its prefix. |
| Directions.LexLe | app.py:36 | Python's <= on str: a is a prefix of b, or a's character is smaller at the first difference. LexLeTotal, LexLeTransitive and LexLeAntisymmetric make it a total order. |
| Directions.LexLeTotal | app.py:36 | Python's string order is total. |
| Directions.LexLeTransitive | app.py:36 | Python's string order is transitive. |
| Directions.LexLeAntisymmetric | app.py:36 | Python's string order is antisymmetric. |
| Directions.SortNames | app.py:36 | `sorted(dirs)` on strings: as many names as it is given; SortNamesSpec states the rest. |
| Directions.SortNamesSpec | app.py:36 | `sorted(dirs)` is an ascending permutation of the names. |
| Directions.ListDirections | app.py:31-36 | `list_directions` returns one name per common prefix, none containing "/", in ascending order, permuting the extracted names. |
| Directions.ListDirectionsUnique | app.py:36 | Any ascending permutation of the names is the result of `list_directions`. |
| Directions.Label | app.py:63 | `f"Direction {i+1}"`. LabelInjective says distinct positions give distinct labels. |
| Directions.LabelInjective | app.py:63 | Distinct positions get distinct labels. |
| Directions.AnonMap | app.py:63 | The keys of `anon_map` are exactly "Direction 1" .. "Direction n". |
| Directions.AnonMapLookup | app.py:63 | Label i+1 maps to `dirs[i]`. No later entry overwrites an earlier one. |
| Directions.AnonMapSize | app.py:63 | `anon_map` has exactly n entries, so labels and positions are in bijection. |
| Directions.Options | app.py:69-74 | The radio options are n distinct labels in insertion order: option i is "Direction i+1". Their set is the key set of `anon_map`, and option i maps to `dirs[i]`. |
| Directions.SelectedDir | app.py:75 | Looking up the picked option gives the direction at the picked position. |
| Session.ZoomedOut | app.py:105-106 | "–" keeps the zoom at or above 400 and never above 1600 when it started within. It never increases the zoom, and at 400 it changes nothing. |
| Session.ZoomedIn | app.py:108-109 | "+" keeps the zoom at or below 1600 and not below 400 when it started within. It never decreases the zoom, and at 1600 it changes nothing. |
| Session.ZoomStepsUndo | app.py:105-109 | Away from the bounds, one "+" undoes one "–", and one "–" undoes one "+". |
| Session.Step | app.py:97-109 | A rerun's button handling keeps the zoom on the grid 400, 500, .., 1600. |
| Session.RunStaysReachable | app.py:88-109 | After any sequence of presses, the zoom stays in [400, 1600] in steps of 100. |
| Session.SessionZoomBounded | app.py:88-109 | From the initial 800, no sequence of presses takes the zoom outside [400, 1600]. |
| Session.RunPlayMode | app.py:90-103 | `play_mode` is on exactly when the play button was pressed an odd number of times, counted from its starting value. |
| Session.RunZoomUnchanged | app.py:97-103 | Presses other than "–" and "+" leave the zoom unchanged. |
| Session.SessionState.constructor | app.py:88-91 | The session starts at zoom 800 with play_mode off. |
| Session.SessionState.ZoomOut | app.py:105-106 | The new zoom is max(z-100, 400). `play_mode` is unchanged, and the zoom grid is preserved. |
| Session.SessionState.ZoomIn | app.py:108-109 | The new zoom is min(z+100, 1600). `play_mode` is unchanged, and the zoom grid is preserved. |
| Session.SessionState.TogglePlay | app.py:98-103 | The play/pause button flips `play_mode` and leaves the zoom unchanged. |
| Session.SessionState.Press | app.py:97-109 | One rerun's button press moves the session fields exactly as Step does. |
| Playback.FrameIndex | app.py:116-129 | With n >= 1, the index is in [0, n-1]. It is count % n while playing and the slider value otherwise. |
| Playback.AutoplayAdvances | app.py:118-119 | Each refresh tick advances autoplay by one frame, wrapping from the last frame to the first. |
| Playback.FrameCaption | app.py:137 | The caption f-string: the label, then a space, a vertical bar and " Frame ", then str(frame_idx+1), "/" and str(len(frames)). FrameCaptionReadsBack reads its numbers back. |
| Playback.FrameCaptionReadsBack | app.py:137 | The caption's "i/n" reads back as frame number idx+1, with 1 <= idx+1 <= n, over the frame count n. |
| Viewer.DirPrefix | app.py:41 | `f"{PREFIX}{direction}/"`, the prefix listed for a direction. |
| Viewer.Render | app.py:58-139 | With no directions, the result is the first error. With no ".png" keys for the picked direction, it is the second error. In both cases the session is unchanged. Otherwise the session moves as Step says for this run's press. The image of frame `FrameIndex` of the frame order is shown, with that index computed from the new play_mode. The label is "Direction choice+1", and the width is the new zoom, which lies in [400, 1600] when the session was reachable. |

## Left out

- All S3 access (`boto3.client`, `list_objects_v2`, `get_object`) and the
  secrets it is configured from. The listings are inputs, and fetching an
  object is the `fetch` parameter. The model does not capture listing
  pagination beyond the first response, or fetch errors.
- PIL image decoding and copying: this is a foreign library. The image type is
  a type parameter.
- Streamlit page setup, titles, columns, the footer HTML, `st.cache_resource`
  and `st.error`. `st.stop()` is modelled as the `Err` results of
  `Viewer.Render`.
- `st_autorefresh` timing, the `int(1000 / speed)` interval and the `limit` on
  the counter. The counter is an arbitrary natural number, and the speed slider
  has no effect on the model.
- The session dictionary's "is the key present" tests. They are modelled as the
  constructor, which stands for the first run.
- Session.SessionState.Press: the model assumes one button press per rerun,
  which is what a Streamlit click produces.
- FrameKeys.SortKey: only the ASCII digits '0'..'9' are modelled.
  `str.isdigit` also accepts other Unicode digits, which `int` may accept or
  reject. Python's big integers are unbounded, like Dafny's. CPython 3.11
  and later refuse `int()` of a string of more than 4300 digits. That limit
  cannot be reached here, because an S3 object key is at most 1024 bytes.
- Directions.LexLe: Python compares strings by code point. It is modelled as
  the lexicographic order of Dafny characters, with no normalisation or case
  folding.
- Playback.FrameIndex: the slider is assumed to return a value within its
  range [0, len(frames)-1], as the widget promises. How a value persisted from
  another direction is clamped is not modelled.
- data/make_mp4.py is not part of this model. It is an offline conversion
  script that reads files, encodes with imageio, calls `pdb.set_trace()`, and
  sorts with `int(os.path.splitext(x)[0])`, which raises on non-numeric names.

/** One run of the viewer script (app.py:58-139) with the object store, the
    image decoder and the widgets replaced by parameters: discover the
    directions, resolve the picked label, load its frames, handle this rerun's
    button press on the session, pick the frame index and build what st.image
    is given. */
module Viewer {
  import opened Paths
  import opened FrameKeys
  import opened Directions
  import opened Playback
  import opened Session

  /** The two guards that show an error and stop the script (app.py:59-61, 81-83). */
  datatype Error = NoDirections | NoFrames(dir: string)

  datatype Result<T> = Ok(value: T) | Err(error: Error)

  /** What st.image receives: the image, its caption and its width, with the
      frame position and count the caption is made from. */
  datatype Screen<Img> = Screen(
    selectedLabel: string, image: Img, caption: string, width: int, frameIdx: nat, frameCount: nat)

  /** f"{PREFIX}{direction}/": the prefix whose objects are listed for a direction. */
  function DirPrefix(root: string, dir: string): (p: string) {
    root + dir + [Sep]
  }

  /** prefixes: the CommonPrefixes listed under root; choice: the position of
      the radio option picked; listing: the keys listed under a prefix; fetch:
      get_object and decode; session: st.session_state, as left by the
      previous run (or fresh on the first run); pressed: the button this rerun
      reports; count: the refresh counter; slider: the value the slider
      returns when offered 0 .. hi. The two guards stop the script before the
      session is touched; otherwise the press is handled first and the frame
      index and the width read the session after it. */
  method Render<Img>(
    root: string, prefixes: seq<string>, choice: nat, listing: string -> seq<string>,
    fetch: string -> Img, session: SessionState, pressed: Button, count: nat, slider: nat -> nat)
    returns (r: Result<Screen<Img>>)
    requires prefixes != [] ==> choice < |prefixes|
    requires forall hi: nat :: slider(hi) <= hi
    modifies session
    ensures prefixes == [] <==> r == Err(NoDirections)
    ensures r.Err? ==> session.Snapshot() == old(session.Snapshot())
    ensures prefixes != [] ==>
      var dir := ListDirections(prefixes)[choice];
      var keys := FrameOrder(listing(DirPrefix(root, dir)));
      (keys == [] <==> r == Err(NoFrames(dir))) &&
      (keys != [] ==>
        var v := Step(old(session.Snapshot()), pressed);
        var idx := FrameIndex(v.playMode, count, slider(|keys| - 1), |keys|);
        session.Snapshot() == v &&
        r == Ok(Screen(Label(choice), fetch(keys[idx]), FrameCaption(Label(choice), idx, |keys|),
                       v.zoom, idx, |keys|)))
    ensures r.Ok? ==> 1 <= r.value.frameIdx + 1 <= r.value.frameCount
    ensures r.Ok? && old(Reachable(session.Snapshot())) ==> MinZoom <= r.value.width <= MaxZoom
  {
    var dirs := ListDirections(prefixes);
    if |dirs| == 0 {
      return Err(NoDirections);
    }
    var selectedLabel := Options(dirs)[choice];
    var selectedDir := SelectedDir(dirs, choice);
    var frames := LoadImages(listing(DirPrefix(root, selectedDir)), fetch);
    if |frames| == 0 {
      return Err(NoFrames(selectedDir));
    }
    session.Press(pressed);
    var n := |frames|;
    var frameIdx := FrameIndex(session.playMode, count, slider(n - 1), n);
    var shown := frames[frameIdx];
    r := Ok(Screen(selectedLabel, shown.image, FrameCaption(selectedLabel, frameIdx, n), session.zoom, frameIdx, n));
  }
}

/** The viewer's session state (app.py:88-109): a display width changed by the
    two zoom buttons and a play/pause flag flipped by the play button. Streamlit
    keeps these two fields across reruns of the script; each rerun handles at
    most one button press. */
module Session {

  const InitialZoom: int := 800
  const MinZoom: int := 400
  const MaxZoom: int := 1600
  const ZoomStep: int := 100

  /** The "–" button: max(z - 100, 400). */
  function ZoomedOut(z: int): (r: int)
    ensures MinZoom <= r
    ensures z <= MaxZoom ==> r <= MaxZoom
    ensures z >= MinZoom ==> r <= z
    ensures z == MinZoom ==> r == z
  {
    if z - ZoomStep >= MinZoom then z - ZoomStep else MinZoom
  }

  /** The "+" button: min(z + 100, 1600). */
  function ZoomedIn(z: int): (r: int)
    ensures r <= MaxZoom
    ensures z >= MinZoom ==> r >= MinZoom
    ensures z <= MaxZoom ==> r >= z
    ensures z == MaxZoom ==> r == z
  {
    if z + ZoomStep <= MaxZoom then z + ZoomStep else MaxZoom
  }

  /** Away from the bounds, one step in undoes one step out and back. */
  lemma ZoomStepsUndo(z: int)
    requires MinZoom <= z <= MaxZoom && z % ZoomStep == 0
    ensures z > MinZoom ==> ZoomedIn(ZoomedOut(z)) == z
    ensures z < MaxZoom ==> ZoomedOut(ZoomedIn(z)) == z
  {
  }

  /** The buttons a rerun can report as pressed (Other: a rerun caused by
      anything else, such as the slider or the refresh timer). */
  datatype Button = PlayButton | MinusButton | PlusButton | Other

  datatype View = View(zoom: int, playMode: bool)

  const Initial: View := View(InitialZoom, false)

  /** The zoom values a session can hold: 400 to 1600 in steps of 100. */
  predicate Reachable(v: View) {
    MinZoom <= v.zoom <= MaxZoom && v.zoom % ZoomStep == 0
  }

  /** One rerun's button handling (app.py:97-109). The play button shows
      "Pause" while playing and "Play sequence" otherwise; either way it flips
      the flag. */
  function Step(v: View, b: Button): (w: View)
    ensures Reachable(v) ==> Reachable(w)
  {
    match b
    case PlayButton => v.(playMode := !v.playMode)
    case MinusButton => v.(zoom := ZoomedOut(v.zoom))
    case PlusButton => v.(zoom := ZoomedIn(v.zoom))
    case Other => v
  }

  /** The state after a sequence of reruns. */
  function Run(v: View, bs: seq<Button>): (w: View)
    decreases |bs|
  {
    if bs == [] then v else Run(Step(v, bs[0]), bs[1..])
  }

  function PlayPresses(bs: seq<Button>): (n: nat) {
    if bs == [] then 0 else (if bs[0] == PlayButton then 1 else 0) + PlayPresses(bs[1..])
  }

  function ZoomPresses(bs: seq<Button>): (n: nat) {
    if bs == [] then 0
    else (if bs[0] == MinusButton || bs[0] == PlusButton then 1 else 0) + ZoomPresses(bs[1..])
  }

  /** Whatever the user presses, the zoom stays in [400, 1600] on the 100 grid. */
  lemma {:induction false} RunStaysReachable(v: View, bs: seq<Button>)
    requires Reachable(v)
    ensures Reachable(Run(v, bs))
    decreases |bs|
  {
    if bs != [] {
      RunStaysReachable(Step(v, bs[0]), bs[1..]);
    }
  }

  lemma SessionZoomBounded(bs: seq<Button>)
    ensures MinZoom <= Run(Initial, bs).zoom <= MaxZoom
  {
    RunStaysReachable(Initial, bs);
  }

  /** The session is playing exactly when the play button was pressed an odd
      number of times. */
  lemma {:induction false} RunPlayMode(v: View, bs: seq<Button>)
    ensures Run(v, bs).playMode == (v.playMode != (PlayPresses(bs) % 2 == 1))
    decreases |bs|
  {
    if bs != [] {
      RunPlayMode(Step(v, bs[0]), bs[1..]);
    }
  }

  /** Only the zoom buttons change the zoom. */
  lemma {:induction false} RunZoomUnchanged(v: View, bs: seq<Button>)
    requires ZoomPresses(bs) == 0
    ensures Run(v, bs).zoom == v.zoom
    decreases |bs|
  {
    if bs != [] {
      RunZoomUnchanged(Step(v, bs[0]), bs[1..]);
    }
  }

  /** st.session_state's zoom and play_mode entries. */
  class SessionState {
    var zoom: int
    var playMode: bool

    function Snapshot(): View
      reads this
    {
      View(zoom, playMode)
    }

    /** First run of the script: zoom 800, not playing (app.py:88-91). */
    constructor ()
      ensures Snapshot() == Initial && Reachable(Snapshot())
    {
      zoom := InitialZoom;
      playMode := false;
    }

    method ZoomOut()
      modifies this
      ensures zoom == ZoomedOut(old(zoom)) && playMode == old(playMode)
      ensures old(Reachable(Snapshot())) ==> Reachable(Snapshot())
    {
      zoom := ZoomedOut(zoom);
    }

    method ZoomIn()
      modifies this
      ensures zoom == ZoomedIn(old(zoom)) && playMode == old(playMode)
      ensures old(Reachable(Snapshot())) ==> Reachable(Snapshot())
    {
      zoom := ZoomedIn(zoom);
    }

    method TogglePlay()
      modifies this
      ensures playMode == !old(playMode) && zoom == old(zoom)
    {
      if playMode {
        playMode := false;
      } else {
        playMode := true;
      }
    }

    /** The button handling of one rerun (app.py:97-109). */
    method Press(b: Button)
      modifies this
      ensures Snapshot() == Step(old(Snapshot()), b)
      ensures old(Reachable(Snapshot())) ==> Reachable(Snapshot())
    {
      match b
      case PlayButton => TogglePlay();
      case MinusButton => ZoomOut();
      case PlusButton => ZoomIn();
      case Other =>
    }
  }
}

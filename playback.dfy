/** Which frame is shown and how it is captioned (app.py:116-137). With n
    frames (n >= 1: an empty direction stops the script earlier), autoplay
    shows frame count % n of the refresh counter, and otherwise the slider
    offers 0 .. n-1. */
module Playback {
  import opened Decimal
  import opened Paths

  /** frame_idx: count % len(frames) while playing, the slider value otherwise.
      The slider widget only returns values in its range [0, n - 1]. */
  function FrameIndex(playMode: bool, count: nat, slider: nat, n: nat): (idx: nat)
    requires n >= 1
    requires !playMode ==> slider < n
    ensures idx < n
    ensures playMode ==> idx == count % n
    ensures !playMode ==> idx == slider
  {
    if playMode then count % n else slider
  }

  lemma {:induction false} MulAtLeast(k: int, n: int)
    requires k >= 1 && n >= 1
    ensures k * n >= n
  {
    if k > 1 {
      MulAtLeast(k - 1, n);
      assert k * n == (k - 1) * n + n;
    }
  }

  /** Euclidean division has one remainder: a == q * n + r with 0 <= r < n fixes r. */
  lemma ModUnique(a: int, n: int, q: int, r: int)
    requires n >= 1 && 0 <= r < n && a == q * n + r
    ensures a % n == r
  {
    var q', r' := a / n, a % n;
    assert a == q' * n + r';
    var d := q - q';
    assert d * n == q * n - q' * n;
    assert d * n == r' - r;
    if d > 0 {
      MulAtLeast(d, n);
    } else if d < 0 {
      MulAtLeast(-d, n);
    }
  }

  /** Each tick of the refresh counter moves autoplay one frame on, wrapping
      from the last frame back to the first. */
  lemma AutoplayAdvances(count: nat, n: nat)
    requires n >= 1
    ensures FrameIndex(true, count + 1, 0, n) == (FrameIndex(true, count, 0, n) + 1) % n
  {
    var q, r := count / n, count % n;
    assert count == q * n + r;
    if r + 1 < n {
      ModUnique(count + 1, n, q, r + 1);
      ModUnique(r + 1, n, 0, r + 1);
    } else {
      assert count + 1 == (q + 1) * n + 0;
      ModUnique(count + 1, n, q + 1, 0);
      ModUnique(r + 1, n, 1, 0);
    }
  }

  /** The caption under the image: f"{label} | Frame {frame_idx+1}/{len(frames)}". */
  function FrameCaption(selectedLabel: string, idx: nat, n: nat): (caption: string) {
    selectedLabel + " | Frame " + Show(idx + 1) + "/" + Show(n)
  }

  lemma DigitsHaveNoSep(s: string)
    requires AllDigits(s)
    ensures Sep !in s
  {
  }

  /** The "i/n" at the end of the caption reads back as the frame number
      idx + 1, between 1 and n, over the frame count n. */
  lemma FrameCaptionReadsBack(selectedLabel: string, idx: nat, n: nat)
    requires idx < n
    ensures var c, head := FrameCaption(selectedLabel, idx, n), selectedLabel + " | Frame ";
      head <= c &&
      var parts := Split(c[|head|..]);
      |parts| == 2 && AllDigits(parts[0]) && AllDigits(parts[1]) &&
      Value(parts[0]) == idx + 1 && 1 <= Value(parts[0]) <= Value(parts[1]) == n
  {
    var head := selectedLabel + " | Frame ";
    var c := FrameCaption(selectedLabel, idx, n);
    var parts := [Show(idx + 1), Show(n)];
    assert c == head + Join(parts);
    assert c[|head|..] == Join(parts);
    DigitsHaveNoSep(Show(idx + 1));
    DigitsHaveNoSep(Show(n));
    SplitJoin(parts);
    ValueOfShow(idx + 1);
    ValueOfShow(n);
  }
}

/** Object keys as '/'-separated paths: Python's str.split("/"), "/".join,
    str.rstrip("/") and the "last segment" idiom split("/")[-1]. */
module Paths {

  const Sep: char := '/'

  /** s.split("/"): the maximal runs between separators, always at least one
      (the empty string splits to [""]). Built from the end, one character at
      a time. */
  function Split(s: string): (parts: seq<string>)
    ensures |parts| >= 1
  {
    if s == [] then [[]]
    else
      var init := Split(s[..|s| - 1]);
      var c := s[|s| - 1];
      if c == Sep then init + [[]]
      else init[..|init| - 1] + [init[|init| - 1] + [c]]
  }

  /** No piece of a split contains the separator. */
  lemma {:induction false} SplitPiecesPlain(s: string)
    ensures forall i :: 0 <= i < |Split(s)| ==> Sep !in Split(s)[i]
  {
    if s != [] {
      SplitPiecesPlain(s[..|s| - 1]);
    }
  }

  /** "/".join(parts) */
  function Join(parts: seq<string>): (s: string)
    requires |parts| >= 1
  {
    if |parts| == 1 then parts[0]
    else Join(parts[..|parts| - 1]) + [Sep] + parts[|parts| - 1]
  }

  /** Joining the pieces of a split gives the original string back. */
  lemma {:induction false} JoinSplit(s: string)
    ensures Join(Split(s)) == s
  {
    if s != [] {
      var s' := s[..|s| - 1];
      var c := s[|s| - 1];
      var init := Split(s');
      JoinSplit(s');
      assert s == s' + [c];
      if c == Sep {
        var p := init + [[]];
        assert p[..|p| - 1] == init;
      } else {
        var m := |init|;
        var p := init[..m - 1] + [init[m - 1] + [c]];
        assert p[..|p| - 1] == init[..m - 1];
        if m > 1 {
          assert Join(init) == Join(init[..m - 1]) + [Sep] + init[m - 1];
          assert Join(p) == Join(init[..m - 1]) + [Sep] + (init[m - 1] + [c]);
        }
      }
    }
  }

  lemma SplitAppendChar(y: string, c: char)
    requires c != Sep
    ensures var sy := Split(y);
      Split(y + [c]) == sy[..|sy| - 1] + [sy[|sy| - 1] + [c]]
  {
    assert (y + [c])[..|y|] == y;
  }

  lemma {:induction false} SplitAppendPlain(x: string, p: string)
    requires Sep !in p
    ensures var sx := Split(x);
      Split(x + p) == sx[..|sx| - 1] + [sx[|sx| - 1] + p]
  {
    var sx := Split(x);
    var m := |sx|;
    if p == [] {
      assert x + p == x;
      assert sx[m - 1] + p == sx[m - 1];
      assert sx[..m - 1] + [sx[m - 1]] == sx;
    } else {
      var p' := p[..|p| - 1];
      var c := p[|p| - 1];
      assert p == p' + [c];
      assert Sep !in p' by {
        forall i | 0 <= i < |p'| ensures p'[i] != Sep {
          assert p'[i] == p[i];
        }
      }
      SplitAppendPlain(x, p');
      var y := x + p';
      assert x + p == y + [c];
      SplitAppendChar(y, c);
      var sy := Split(y);
      assert sy == sx[..m - 1] + [sx[m - 1] + p'];
      assert sy[..|sy| - 1] == sx[..m - 1];
      assert sy[|sy| - 1] + [c] == sx[m - 1] + p;
    }
  }

  lemma SplitAppendSep(x: string)
    ensures Split(x + [Sep]) == Split(x) + [[]]
  {
    assert (x + [Sep])[..|x|] == x;
  }

  /** Splitting a join of separator-free pieces gives the pieces back. */
  lemma {:induction false} SplitJoin(parts: seq<string>)
    requires |parts| >= 1
    requires forall i :: 0 <= i < |parts| ==> Sep !in parts[i]
    ensures Split(Join(parts)) == parts
  {
    var n := |parts|;
    if n == 1 {
      SplitAppendPlain([], parts[0]);
      assert [] + parts[0] == parts[0];
    } else {
      var init := parts[..n - 1];
      SplitJoin(init);
      var j := Join(init);
      SplitAppendSep(j);
      SplitAppendPlain(j + [Sep], parts[n - 1]);
      assert Join(parts) == (j + [Sep]) + parts[n - 1];
      var sp := Split(j + [Sep]);
      assert sp == init + [[]];
      assert sp[..|sp| - 1] == init;
      assert [] + parts[n - 1] == parts[n - 1];
      assert parts == init + [parts[n - 1]];
    }
  }

  /** key.split("/")[-1] */
  function LastSegment(s: string): (r: string) {
    var parts := Split(s);
    parts[|parts| - 1]
  }

  /** The last segment is the separator-free suffix of s that is either all of s
      or starts just after a separator: the text after the last '/'. */
  lemma {:induction false} LastSegmentSpec(s: string)
    ensures var r := LastSegment(s);
      Sep !in r && |r| <= |s| && s[|s| - |r|..] == r &&
      (|r| == |s| || s[|s| - |r| - 1] == Sep)
  {
    if s != [] {
      var s' := s[..|s| - 1];
      var c := s[|s| - 1];
      LastSegmentSpec(s');
      var init := Split(s');
      if c == Sep {
        assert LastSegment(s) == [];
      } else {
        assert LastSegment(s) == LastSegment(s') + [c];
        assert s == s' + [c];
      }
    }
  }

  /** s.rstrip("/"): all trailing separators removed. */
  function RStrip(s: string): (r: string)
    ensures |r| <= |s| && r == s[..|r|]
    ensures r == [] || r[|r| - 1] != Sep
    ensures forall i :: |r| <= i < |s| ==> s[i] == Sep
  {
    if s != [] && s[|s| - 1] == Sep then RStrip(s[..|s| - 1]) else s
  }
}

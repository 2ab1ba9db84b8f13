/** Direction discovery and labelling (app.py:30-36, 58-75): the common
    prefixes under the root become bare directory names, sorted as Python
    sorts strings, and are shown to the user as "Direction 1" .. "Direction n". */
module Directions {
  import opened Decimal
  import opened Paths

  // ---------------------------------------------------------------------------
  // Directory names
  // ---------------------------------------------------------------------------

  /** p.rstrip("/").split("/")[-1] */
  function DirName(p: string): (d: string) {
    LastSegment(RStrip(p))
  }

  /** A direction name is the last segment of the prefix once its trailing '/'
      are gone: it has no '/', it ends the stripped prefix, and it is empty only
      when the prefix is nothing but '/'. */
  lemma DirNameSpec(p: string)
    ensures var s, d := RStrip(p), DirName(p);
      Sep !in d && |d| <= |s| && s[|s| - |d|..] == d &&
      (|d| == |s| || s[|s| - |d| - 1] == Sep) &&
      (d == [] <==> forall i :: 0 <= i < |p| ==> p[i] == Sep)
  {
    LastSegmentSpec(RStrip(p));
  }

  // ---------------------------------------------------------------------------
  // Python's ordering of str: lexicographic by character code
  // ---------------------------------------------------------------------------

  predicate LexLe(a: string, b: string) {
    a == [] || (b != [] && (a[0] < b[0] || (a[0] == b[0] && LexLe(a[1..], b[1..]))))
  }

  lemma {:induction false} LexLeTotal(a: string, b: string)
    ensures LexLe(a, b) || LexLe(b, a)
  {
    if a != [] && b != [] && a[0] == b[0] {
      LexLeTotal(a[1..], b[1..]);
    }
  }

  lemma {:induction false} LexLeTransitive(a: string, b: string, c: string)
    requires LexLe(a, b) && LexLe(b, c)
    ensures LexLe(a, c)
  {
    if a != [] && a[0] == b[0] && b[0] == c[0] {
      LexLeTransitive(a[1..], b[1..], c[1..]);
    }
  }

  lemma {:induction false} LexLeAntisymmetric(a: string, b: string)
    requires LexLe(a, b) && LexLe(b, a)
    ensures a == b
  {
    if a != [] {
      LexLeAntisymmetric(a[1..], b[1..]);
      assert a == [a[0]] + a[1..] && b == [b[0]] + b[1..];
    }
  }

  predicate NamesSorted(s: seq<string>) {
    forall i, j :: 0 <= i < j < |s| ==> LexLe(s[i], s[j])
  }

  function InsertName(x: string, t: seq<string>): (r: seq<string>)
    ensures |r| == |t| + 1
  {
    if t == [] then [x]
    else if LexLe(x, t[0]) then [x] + t
    else [t[0]] + InsertName(x, t[1..])
  }

  /** sorted(names) */
  function SortNames(s: seq<string>): (r: seq<string>)
    ensures |r| == |s|
  {
    if s == [] then [] else InsertName(s[0], SortNames(s[1..]))
  }

  lemma {:induction false} InsertNamePermutes(x: string, t: seq<string>)
    ensures multiset(InsertName(x, t)) == multiset{x} + multiset(t)
  {
    if t != [] && !LexLe(x, t[0]) {
      InsertNamePermutes(x, t[1..]);
      assert t == [t[0]] + t[1..];
    }
  }

  lemma ConsNamesSorted(y: string, t: seq<string>)
    requires NamesSorted(t)
    requires forall j :: 0 <= j < |t| ==> LexLe(y, t[j])
    ensures NamesSorted([y] + t)
  {
    var r := [y] + t;
    forall i, j | 0 <= i < j < |r| ensures LexLe(r[i], r[j]) {
      assert r[j] == t[j - 1];
      if i > 0 {
        assert r[i] == t[i - 1];
      }
    }
  }

  lemma NameBelowMember(x: string, t: seq<string>, z: string)
    requires t != [] && NamesSorted(t) && LexLe(t[0], x)
    requires z in multiset{x} + multiset(t[1..])
    ensures LexLe(t[0], z)
  {
    if z != x {
      assert z in multiset(t[1..]);
      var m :| 0 <= m < |t[1..]| && t[1..][m] == z;
      assert t[m + 1] == z;
    }
  }

  lemma {:induction false} InsertNameSorted(x: string, t: seq<string>)
    requires NamesSorted(t)
    ensures NamesSorted(InsertName(x, t))
  {
    if t != [] {
      if LexLe(x, t[0]) {
        forall j | 0 <= j < |t| ensures LexLe(x, t[j]) {
          if j > 0 {
            LexLeTransitive(x, t[0], t[j]);
          }
        }
        ConsNamesSorted(x, t);
      } else {
        LexLeTotal(x, t[0]);
        var tail := InsertName(x, t[1..]);
        NamesSortedTail(t);
        InsertNameSorted(x, t[1..]);
        InsertNamePermutes(x, t[1..]);
        forall j | 0 <= j < |tail| ensures LexLe(t[0], tail[j]) {
          assert tail[j] in multiset(tail);
          NameBelowMember(x, t, tail[j]);
        }
        ConsNamesSorted(t[0], tail);
      }
    }
  }

  /** sorted(names) is an ascending rearrangement of names. */
  lemma {:induction false} SortNamesSpec(s: seq<string>)
    ensures multiset(SortNames(s)) == multiset(s)
    ensures NamesSorted(SortNames(s))
  {
    if s != [] {
      SortNamesSpec(s[1..]);
      InsertNamePermutes(s[0], SortNames(s[1..]));
      InsertNameSorted(s[0], SortNames(s[1..]));
      assert s == [s[0]] + s[1..];
    }
  }

  lemma NamesSortedTail(s: seq<string>)
    requires s != [] && NamesSorted(s)
    ensures NamesSorted(s[1..])
  {
    forall p, q | 0 <= p < q < |s[1..]| ensures LexLe(s[1..][p], s[1..][q]) {
      assert s[1..][p] == s[p + 1] && s[1..][q] == s[q + 1];
    }
  }

  lemma HeadIsLeastName(s: seq<string>, x: string)
    requires NamesSorted(s) && x in s
    ensures LexLe(s[0], x)
  {
    var i :| 0 <= i < |s| && s[i] == x;
    if i == 0 {
      LexLeTotal(x, x);
    }
  }

  lemma SameHeadSameTails(a: seq<string>, b: seq<string>)
    requires a != [] && b != [] && a[0] == b[0] && multiset(a) == multiset(b)
    ensures multiset(a[1..]) == multiset(b[1..])
  {
    assert a == [a[0]] + a[1..] && b == [b[0]] + b[1..];
    assert multiset(a) == multiset{a[0]} + multiset(a[1..]);
    assert multiset(b) == multiset{b[0]} + multiset(b[1..]);
    assert multiset(a[1..]) == multiset(a) - multiset{a[0]};
    assert multiset(b[1..]) == multiset(b) - multiset{b[0]};
  }

  /** Ascending order of strings is unique: two ascending rearrangements of the
      same names are the same list. */
  lemma {:induction false} SortedNamesUnique(a: seq<string>, b: seq<string>)
    requires NamesSorted(a) && NamesSorted(b) && multiset(a) == multiset(b)
    ensures a == b
    decreases |a|
  {
    assert |multiset(a)| == |a| && |multiset(b)| == |b|;
    if a != [] {
      assert b[0] in multiset(a) && a[0] in multiset(b);
      HeadIsLeastName(a, b[0]);
      HeadIsLeastName(b, a[0]);
      LexLeAntisymmetric(a[0], b[0]);
      SameHeadSameTails(a, b);
      NamesSortedTail(a);
      NamesSortedTail(b);
      SortedNamesUnique(a[1..], b[1..]);
      assert a == [a[0]] + a[1..] && b == [b[0]] + b[1..];
    }
  }

  // ---------------------------------------------------------------------------
  // list_directions
  // ---------------------------------------------------------------------------

  /** [p.rstrip("/").split("/")[-1] for p in prefixes] */
  function Names(prefixes: seq<string>): (names: seq<string>)
    ensures |names| == |prefixes|
    ensures forall i :: 0 <= i < |prefixes| ==> names[i] == DirName(prefixes[i])
  {
    if prefixes == [] then [] else [DirName(prefixes[0])] + Names(prefixes[1..])
  }

  /** list_directions (app.py:31-36) on the CommonPrefixes of the listing: one
      name per prefix, none containing '/', in ascending order. */
  function ListDirections(prefixes: seq<string>): (dirs: seq<string>)
    ensures |dirs| == |prefixes|
    ensures multiset(dirs) == multiset(Names(prefixes))
    ensures NamesSorted(dirs)
    ensures forall i :: 0 <= i < |dirs| ==> Sep !in dirs[i]
  {
    var names := Names(prefixes);
    SortNamesSpec(names);
    AllNamesPlain(prefixes);
    var dirs := SortNames(names);
    assert forall i :: 0 <= i < |dirs| ==> dirs[i] in multiset(names);
    dirs
  }

  /** list_directions returns the one ascending arrangement of the names. */
  lemma ListDirectionsUnique(prefixes: seq<string>, r: seq<string>)
    requires NamesSorted(r) && multiset(r) == multiset(Names(prefixes))
    ensures r == ListDirections(prefixes)
  {
    SortedNamesUnique(r, ListDirections(prefixes));
  }

  lemma AllNamesPlain(prefixes: seq<string>)
    ensures forall x :: x in multiset(Names(prefixes)) ==> Sep !in x
  {
    forall x | x in multiset(Names(prefixes)) ensures Sep !in x {
      var i :| 0 <= i < |prefixes| && Names(prefixes)[i] == x;
      DirNameSpec(prefixes[i]);
    }
  }

  // ---------------------------------------------------------------------------
  // Anonymised labels
  // ---------------------------------------------------------------------------

  /** f"Direction {i+1}" */
  function Label(i: nat): (l: string) {
    "Direction " + Show(i + 1)
  }

  lemma LabelInjective(i: nat, j: nat)
    requires Label(i) == Label(j)
    ensures i == j
  {
    assert Label(i)[10..] == Show(i + 1);
    assert Label(j)[10..] == Show(j + 1);
    ShowInjective(i + 1, j + 1);
  }

  /** {f"Direction {i+1}": d for i, d in enumerate(dirs)}, built entry by entry
      as the comprehension does. */
  function AnonMap(dirs: seq<string>): (m: map<string, string>)
    ensures m.Keys == set i | 0 <= i < |dirs| :: Label(i)
  {
    if dirs == [] then map[]
    else AnonMap(dirs[..|dirs| - 1])[Label(|dirs| - 1) := dirs[|dirs| - 1]]
  }

  /** Label i+1 maps to dirs[i]: no later entry overwrites an earlier one. */
  lemma {:induction false} AnonMapLookup(dirs: seq<string>, i: nat)
    requires i < |dirs|
    ensures Label(i) in AnonMap(dirs) && AnonMap(dirs)[Label(i)] == dirs[i]
  {
    var n := |dirs|;
    if i < n - 1 {
      var init := dirs[..n - 1];
      AnonMapLookup(init, i);
      assert init[i] == dirs[i];
      assert Label(i) != Label(n - 1) by {
        if Label(i) == Label(n - 1) {
          LabelInjective(i, n - 1);
        }
      }
      assert AnonMap(dirs) == AnonMap(init)[Label(n - 1) := dirs[n - 1]];
    }
  }

  /** There are exactly as many labels as directions: labelling is a bijection
      between "Direction 1".."Direction n" and the positions of dirs. */
  lemma {:induction false} AnonMapSize(dirs: seq<string>)
    ensures |AnonMap(dirs)| == |dirs|
  {
    var n := |dirs|;
    if n > 0 {
      AnonMapSize(dirs[..n - 1]);
      var m := AnonMap(dirs[..n - 1]);
      if Label(n - 1) in m {
        var i :| 0 <= i < n - 1 && Label(i) == Label(n - 1);
        LabelInjective(i, n - 1);
      }
      assert AnonMap(dirs).Keys == m.Keys + {Label(n - 1)};
    }
  }

  /** list(anon_map.keys()): the radio options, one per direction, in the
      order the comprehension inserted them; option i is the label of dirs[i]. */
  function Options(dirs: seq<string>): (labels: seq<string>)
    ensures |labels| == |dirs|
    ensures forall i :: 0 <= i < |labels| ==> labels[i] == Label(i)
    ensures (set l | l in labels) == AnonMap(dirs).Keys
    ensures forall i, j :: 0 <= i < j < |labels| ==> labels[i] != labels[j]
    ensures forall i :: 0 <= i < |labels| ==> labels[i] in AnonMap(dirs) && AnonMap(dirs)[labels[i]] == dirs[i]
  {
    var labels := seq(|dirs|, i requires 0 <= i < |dirs| => Label(i));
    LabelsAreKeys(dirs, labels);
    assert forall i, j :: 0 <= i < j < |labels| ==> labels[i] != labels[j] by {
      forall i, j | 0 <= i < j < |labels| ensures labels[i] != labels[j] {
        if labels[i] == labels[j] {
          LabelInjective(i, j);
        }
      }
    }
    assert forall i :: 0 <= i < |labels| ==> labels[i] in AnonMap(dirs) && AnonMap(dirs)[labels[i]] == dirs[i] by {
      forall i | 0 <= i < |labels| ensures labels[i] in AnonMap(dirs) && AnonMap(dirs)[labels[i]] == dirs[i] {
        AnonMapLookup(dirs, i);
      }
    }
    labels
  }

  lemma LabelsAreKeys(dirs: seq<string>, labels: seq<string>)
    requires |labels| == |dirs| && forall i :: 0 <= i < |labels| ==> labels[i] == Label(i)
    ensures (set l | l in labels) == AnonMap(dirs).Keys
  {
    var keys := AnonMap(dirs).Keys;
    forall l | l in labels ensures l in keys {
      var i :| 0 <= i < |labels| && labels[i] == l;
    }
    forall l | l in keys ensures l in labels {
      var i :| 0 <= i < |dirs| && Label(i) == l;
      assert labels[i] == l;
    }
  }

  /** selected_dir = anon_map[selected_label] (app.py:75), for the option the
      user picked: the picked position's direction. */
  function SelectedDir(dirs: seq<string>, choice: nat): (d: string)
    requires choice < |dirs|
    ensures d == dirs[choice]
  {
    var picked := Options(dirs)[choice];
    AnonMap(dirs)[picked]
  }
}

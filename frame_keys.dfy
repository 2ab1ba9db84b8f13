/** Frame discovery in load_images (app.py:38-53): keep the listed object keys
    that end in ".png", order them by the number spelled by all the digits of
    the key, and pair each with its file name as caption. */
module FrameKeys {
  import opened Decimal
  import opened Paths
  import opened StableSort

  // ---------------------------------------------------------------------------
  // The sort key
  // ---------------------------------------------------------------------------

  /** "".join(filter(str.isdigit, s)): the digits of s, in order. */
  function Digits(s: string): (ds: string)
    ensures AllDigits(ds) && |ds| <= |s|
  {
    if s == [] then [] else (if IsDigit(s[0]) then [s[0]] else []) + Digits(s[1..])
  }

  /** Digits is a filter: it distributes over concatenation. */
  lemma {:induction false} DigitsAppend(a: string, b: string)
    ensures Digits(a + b) == Digits(a) + Digits(b)
  {
    if a == [] {
      assert a + b == b;
    } else {
      assert (a + b)[0] == a[0];
      assert (a + b)[1..] == a[1..] + b;
      DigitsAppend(a[1..], b);
    }
  }

  lemma {:induction false} DigitsOfDigits(s: string)
    requires AllDigits(s)
    ensures Digits(s) == s
  {
    if s != [] {
      DigitsOfDigits(s[1..]);
    }
  }

  lemma {:induction false} DigitsOfNoDigits(s: string)
    requires NoDigits(s)
    ensures Digits(s) == []
  {
    if s != [] {
      DigitsOfNoDigits(s[1..]);
    }
  }

  /** The sort key of app.py:45, int("".join(filter(str.isdigit, x)) or 0):
      the number the digits denote, 0 when there are none. The digits of the
      whole key count, directory prefix included. */
  function SortKey(key: string): (k: nat) {
    var ds := Digits(key);
    if ds == [] then 0 else Value(ds)
  }

  /** The key is the value of the concatenated digits, and 0 for a digit-free key. */
  lemma SortKeyMeaning(key: string)
    ensures SortKey(key) == Value(Digits(key))
    ensures NoDigits(key) ==> SortKey(key) == 0
  {
    if NoDigits(key) {
      DigitsOfNoDigits(key);
    }
  }

  /** The digits of two pieces are concatenated before being read as a number. */
  lemma SortKeyConcat(a: string, b: string)
    ensures SortKey(a + b) == SortKey(a) * Pow10(|Digits(b)|) + SortKey(b)
  {
    DigitsAppend(a, b);
    ValueAppend(Digits(a), Digits(b));
    SortKeyMeaning(a);
    SortKeyMeaning(b);
    SortKeyMeaning(a + b);
  }

  /** A frame numbered n under a digit-free prefix and extension sorts as n. */
  lemma SortKeyOfNumberedFrame(prefix: string, n: nat, ext: string)
    requires NoDigits(prefix) && NoDigits(ext)
    ensures SortKey(prefix + Show(n) + ext) == n
  {
    DigitsAppend(prefix, Show(n));
    DigitsAppend(prefix + Show(n), ext);
    DigitsOfNoDigits(prefix);
    DigitsOfNoDigits(ext);
    DigitsOfDigits(Show(n));
    ValueOfShow(n);
    SortKeyMeaning(prefix + Show(n) + ext);
    assert Digits(prefix + Show(n) + ext) == Show(n);
  }

  /** int() ignores leading zeros: after a digit-free prefix, an extra "0" in
      front of the number does not change the key, so "f07.png" and "f7.png"
      tie. */
  lemma SortKeyLeadingZero(prefix: string, rest: string)
    requires NoDigits(prefix)
    ensures SortKey(prefix + "0" + rest) == SortKey(prefix + rest)
  {
    DigitsAppend(prefix, "0");
    DigitsAppend(prefix + "0", rest);
    DigitsAppend(prefix, rest);
    DigitsOfNoDigits(prefix);
    assert Digits("0") == "0";
    assert Digits(prefix + "0" + rest) == "0" + Digits(rest);
    assert Digits(prefix + rest) == Digits(rest);
    LeadingZeros(Digits(rest));
    assert Value("0" + []) == 0;
  }

  lemma DigitValuesUsed()
    ensures Value("110") == 110 && Value("1009") == 1009
  {
    assert "110"[..2] == "11" && "11"[..1] == "1" && "1"[..0] == [];
    assert "1009"[..3] == "100" && "100"[..2] == "10" && "10"[..1] == "1";
  }

  /** Under the directory "d1/", frame "f" + n + ".png" sorts as the number "1" + n. */
  lemma SortKeyUnderD1(n: string)
    requires AllDigits(n)
    ensures AllDigits("1" + n) && SortKey("d1/f" + n + ".png") == Value("1" + n)
  {
    DigitsAppend("d1/f", n);
    DigitsAppend("d1/f" + n, ".png");
    DigitsOfDigits(n);
    assert Digits("d1/f") == "1" && Digits(".png") == [];
    assert Digits("d1/f" + n + ".png") == "1" + n;
  }

  /** The directory's digit joins the frame number: with frame numbers padded
      differently, frame 10 sorts before frame 9. */
  lemma PrefixDigitsReorder()
    ensures SortKey("d1/f" + "10" + ".png") == 110 < 1009 == SortKey("d1/f" + "009" + ".png")
  {
    SortKeyUnderD1("10");
    SortKeyUnderD1("009");
    assert "1" + "10" == "110" && "1" + "009" == "1009";
    DigitValuesUsed();
  }

  // ---------------------------------------------------------------------------
  // Keeping the PNG keys
  // ---------------------------------------------------------------------------

  /** key.endswith(".png"), case-sensitive. */
  predicate IsPng(key: string) {
    |key| >= 4 && key[|key| - 4..] == ".png"
  }

  /** [k for k in listing if k.endswith(".png")] */
  function PngKeys(listing: seq<string>): (keys: seq<string>)
    ensures forall i :: 0 <= i < |keys| ==> IsPng(keys[i])
  {
    if listing == [] then []
    else (if IsPng(listing[0]) then [listing[0]] else []) + PngKeys(listing[1..])
  }

  /** Every PNG key of the listing is kept, as often as it is listed, and
      nothing else is: the filter adds and drops nothing it should not. */
  lemma {:induction false} PngKeysCount(listing: seq<string>, x: string)
    ensures multiset(PngKeys(listing))[x] == if IsPng(x) then multiset(listing)[x] else 0
  {
    if listing != [] {
      PngKeysCount(listing[1..], x);
      assert listing == [listing[0]] + listing[1..];
    }
  }

  /** The filter keeps listing order: it distributes over concatenation. */
  lemma {:induction false} PngKeysAppend(a: seq<string>, b: seq<string>)
    ensures PngKeys(a + b) == PngKeys(a) + PngKeys(b)
  {
    if a == [] {
      assert a + b == b;
    } else {
      assert (a + b)[0] == a[0];
      assert (a + b)[1..] == a[1..] + b;
      PngKeysAppend(a[1..], b);
    }
  }

  // ---------------------------------------------------------------------------
  // The frame list
  // ---------------------------------------------------------------------------

  /** The keys load_images fetches, in the order it fetches them (app.py:43-46). */
  function FrameOrder(listing: seq<string>): (keys: seq<string>) {
    SortBy(PngKeys(listing), SortKey)
  }

  /** The frame list holds exactly the PNG keys of the listing, each as often as
      listed, by non-decreasing sort key, with ties in listing order; and it is
      the only list that does. */
  lemma FrameOrderSpec(listing: seq<string>)
    ensures forall x :: multiset(FrameOrder(listing))[x] ==
                        (if IsPng(x) then multiset(listing)[x] else 0)
    ensures |FrameOrder(listing)| == |PngKeys(listing)|
    ensures Sorted(FrameOrder(listing), SortKey)
    ensures forall k: nat :: WithKey(FrameOrder(listing), SortKey, k) == WithKey(PngKeys(listing), SortKey, k)
  {
    var keys := PngKeys(listing);
    SortByPermutes(keys, SortKey);
    SortBySorted(keys, SortKey);
    forall x ensures multiset(FrameOrder(listing))[x] ==
                     (if IsPng(x) then multiset(listing)[x] else 0) {
      PngKeysCount(listing, x);
    }
    forall k: nat ensures WithKey(FrameOrder(listing), SortKey, k) == WithKey(keys, SortKey, k) {
      SortByStable(keys, SortKey, k);
    }
  }

  /** Any list ordered by sort key that keeps the listing order of the PNG keys
      sharing a sort key is the frame order: Python's sorted is stable. */
  lemma FrameOrderUnique(listing: seq<string>, r: seq<string>)
    requires Sorted(r, SortKey)
    requires forall k: nat :: WithKey(r, SortKey, k) == WithKey(PngKeys(listing), SortKey, k)
    ensures r == FrameOrder(listing)
  {
    SortByIsTheStableSort(PngKeys(listing), SortKey, r);
  }

  /** A loaded frame: the file name shown as its caption and the decoded image. */
  datatype Frame<Img> = Frame(caption: string, image: Img)

  /** The loop of load_images (app.py:48-52): fetch each key in frame order and
      append (key.split("/")[-1], image). Fetching and decoding the object are
      the parameter fetch. */
  method LoadImages<Img>(listing: seq<string>, fetch: string -> Img)
    returns (frames: seq<Frame<Img>>)
    ensures |frames| == |FrameOrder(listing)| == |PngKeys(listing)|
    ensures forall i :: 0 <= i < |frames| ==>
      frames[i] == Frame(LastSegment(FrameOrder(listing)[i]), fetch(FrameOrder(listing)[i]))
  {
    var keys := FrameOrder(listing);
    frames := [];
    for i := 0 to |keys|
      invariant |frames| == i
      invariant forall j :: 0 <= j < i ==> frames[j] == Frame(LastSegment(keys[j]), fetch(keys[j]))
    {
      var key := keys[i];
      frames := frames + [Frame(LastSegment(key), fetch(key))];
    }
  }
}

/** The solid-colour heuristic: sample the four corners of the source image
    and keep the most frequent colour, as `Counter(corners).most_common(1)`
    does. A `Counter` keeps its keys in first-encounter order and
    `most_common(1)` keeps the first key of highest count, so ties go to the
    corner met first. */
module CornerColor {
  import opened Pixels

  /** How often `c` occurs in `s` (the count a `Counter` stores for `c`). */
  function Count(s: seq<Color>, c: Color): nat {
    multiset(s)[c]
  }

  /** The position of the first occurrence of `c` in `s`. */
  function FirstIndex(s: seq<Color>, c: Color): (k: nat)
    requires c in s
    ensures k < |s| && s[k] == c
    ensures forall j :: 0 <= j < k ==> s[j] != c
  {
    if s[0] == c then 0 else 1 + FirstIndex(s[1..], c)
  }

  /** `c` is the colour `most_common(1)` must return for `s`: it occurs in
      `s`, no element of `s` occurs more often, and every element met before
      the first `c` occurs strictly less often. */
  predicate IsFirstMode(s: seq<Color>, c: Color) {
    && c in s
    && (forall j :: 0 <= j < |s| ==> Count(s, s[j]) <= Count(s, c))
    && (forall j :: 0 <= j < FirstIndex(s, c) ==> Count(s, s[j]) < Count(s, c))
  }

  lemma FirstIndexSnoc(p: seq<Color>, c: Color)
    ensures forall d :: d in p ==> FirstIndex(p + [c], d) == FirstIndex(p, d)
    ensures c !in p ==> FirstIndex(p + [c], c) == |p|
  {
    var q := p + [c];
    forall d | d in p
      ensures FirstIndex(q, d) == FirstIndex(p, d)
    {
      var k, k0 := FirstIndex(q, d), FirstIndex(p, d);
      assert q[k0] == d;
      assert p[k] == d;
    }
    assert forall j :: 0 <= j < |p| ==> q[j] == p[j];
  }

  /** The distinct elements of `s` in first-encounter order: the key order
      of `Counter(s)`. */
  function Keys(s: seq<Color>): (k: seq<Color>)
    ensures forall c :: c in k <==> c in s
    ensures forall a, b :: 0 <= a < b < |k| ==> FirstIndex(s, k[a]) < FirstIndex(s, k[b])
    decreases |s|
  {
    if s == [] then []
    else
      var p, c := s[..|s| - 1], s[|s| - 1];
      assert s == p + [c];
      var kp := Keys(p);
      FirstIndexSnoc(p, c);
      if c in kp then kp else kp + [c]
  }

  /** The index of the first key of highest count: `max(keys, key=count)`
      walks the keys left to right and replaces its candidate only by a key
      of strictly greater count. */
  function FirstMaxIndex(keys: seq<Color>, s: seq<Color>): (m: nat)
    requires |keys| > 0
    ensures m < |keys|
    ensures forall i :: 0 <= i < |keys| ==> Count(s, keys[i]) <= Count(s, keys[m])
    ensures forall i :: 0 <= i < m ==> Count(s, keys[i]) < Count(s, keys[m])
    decreases |keys|
  {
    if |keys| == 1 then 0
    else
      var last := |keys| - 1;
      var m := FirstMaxIndex(keys[..last], s);
      if Count(s, keys[last]) > Count(s, keys[m]) then last else m
  }

  /** Key order follows first-occurrence order, read backwards. */
  lemma KeysOrderReflected(s: seq<Color>, a: nat, b: nat)
    requires a < |Keys(s)| && b < |Keys(s)|
    requires FirstIndex(s, Keys(s)[a]) < FirstIndex(s, Keys(s)[b])
    ensures a < b
  {
  }

  lemma KeysMaxIsFirstMode(s: seq<Color>, k: seq<Color>, m: nat)
    requires |s| > 0 && k == Keys(s) && |k| > 0 && m == FirstMaxIndex(k, s)
    ensures IsFirstMode(s, k[m])
  {
    var c := k[m];
    forall j | 0 <= j < |s|
      ensures Count(s, s[j]) <= Count(s, c)
    {
      assert s[j] in k;
      var a :| 0 <= a < |k| && k[a] == s[j];
    }
    forall j | 0 <= j < FirstIndex(s, c)
      ensures Count(s, s[j]) < Count(s, c)
    {
      var d := s[j];
      assert d in k;
      var a :| 0 <= a < |k| && k[a] == d;
      assert FirstIndex(s, d) <= j;
      KeysOrderReflected(s, a, m);
    }
  }

  /** `Counter(s).most_common(1)[0][0]`. */
  function MostCommon(s: seq<Color>): (c: Color)
    requires |s| > 0
    ensures IsFirstMode(s, c)
  {
    var k := Keys(s);
    assert s[0] in k;
    var m := FirstMaxIndex(k, s);
    KeysMaxIsFirstMode(s, k, m);
    k[m]
  }

  /** At most one colour satisfies `IsFirstMode`, so it pins the result of
      `MostCommon` down completely. */
  lemma FirstModeUnique(s: seq<Color>, c: Color, d: Color)
    requires IsFirstMode(s, c) && IsFirstMode(s, d)
    ensures c == d
  {
    var kc, kd := FirstIndex(s, c), FirstIndex(s, d);
    assert Count(s, s[kc]) == Count(s, s[kd]) by {
      assert Count(s, s[kc]) <= Count(s, d);
      assert Count(s, s[kd]) <= Count(s, c);
    }
  }

  /** The first element wins exactly when nothing outnumbers it. */
  lemma FirstWinsUnlessOutnumbered(s: seq<Color>)
    requires |s| > 0
    ensures MostCommon(s) == s[0] <==> forall j :: 0 <= j < |s| ==> Count(s, s[j]) <= Count(s, s[0])
  {
    if forall j :: 0 <= j < |s| ==> Count(s, s[j]) <= Count(s, s[0]) {
      assert FirstIndex(s, s[0]) == 0;
      assert IsFirstMode(s, s[0]);
      FirstModeUnique(s, MostCommon(s), s[0]);
    }
  }

  /** The four sampled corners in the order top-left, top-right, bottom-left,
      bottom-right. */
  function Corners(img: Raster): (s: seq<Color>)
    requires img.Valid() && img.width > 0 && img.height > 0
    ensures |s| == 4
    ensures forall k :: 0 <= k < 4 ==>
      s[k] == img.At(if k % 2 == 0 then 0 else img.width - 1, if k < 2 then 0 else img.height - 1)
  {
    [ img.At(0, 0), img.At(img.width - 1, 0),
      img.At(0, img.height - 1), img.At(img.width - 1, img.height - 1) ]
  }

  /** The solid background colour: the most frequent corner colour, ties
      going to the corner met first. */
  function ExtractBackgroundColor(img: Raster): (c: Color)
    requires img.Valid() && img.width > 0 && img.height > 0
    ensures c in Corners(img)
    ensures forall j :: 0 <= j < 4 ==> Count(Corners(img), Corners(img)[j]) <= Count(Corners(img), c)
    ensures forall j :: 0 <= j < FirstIndex(Corners(img), c) ==>
              Count(Corners(img), Corners(img)[j]) < Count(Corners(img), c)
  {
    MostCommon(Corners(img))
  }

  /** Four distinct corner colours give the top-left one. */
  lemma DistinctCornersGiveTopLeft(img: Raster)
    requires img.Valid() && img.width > 0 && img.height > 0
    requires var s := Corners(img);
      s[0] != s[1] && s[0] != s[2] && s[0] != s[3] && s[1] != s[2] && s[1] != s[3] && s[2] != s[3]
    ensures ExtractBackgroundColor(img) == img.At(0, 0)
  {
    var s := Corners(img);
    FirstWinsUnlessOutnumbered(s);
    forall j | 0 <= j < 4 ensures Count(s, s[j]) == 1 {
      assert s == [s[0], s[1], s[2], s[3]];
    }
  }

  /** A top-left colour repeated at the bottom-left always wins: no other
      colour can occur more than twice among four corners. */
  lemma RepeatedTopLeftWins(img: Raster)
    requires img.Valid() && img.width > 0 && img.height > 0
    requires img.At(0, 0) == img.At(0, img.height - 1)
    ensures ExtractBackgroundColor(img) == img.At(0, 0)
  {
    var s := Corners(img);
    FirstWinsUnlessOutnumbered(s);
    assert s == [s[0], s[1], s[0], s[3]];
    assert Count(s, s[0]) >= 2;
    forall j | 0 <= j < 4 ensures Count(s, s[j]) <= Count(s, s[0]) {
      if s[j] != s[0] {
        assert Count(s, s[j]) <= 2;
      }
    }
  }

  /** Corners red, green, red, blue give red (the majority colour). */
  lemma MajorityCornerExample()
    ensures MostCommon([RGB(255, 0, 0), RGB(0, 255, 0), RGB(255, 0, 0), RGB(0, 0, 255)]) == RGB(255, 0, 0)
  {
    var red, green, blue := RGB(255, 0, 0), RGB(0, 255, 0), RGB(0, 0, 255);
    var s := [red, green, red, blue];
    FirstWinsUnlessOutnumbered(s);
    assert Count(s, red) == 2;
    assert Count(s, green) == 1;
    assert Count(s, blue) == 1;
  }
}

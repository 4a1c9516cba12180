/**
 Preview-size selection: `CompareSizesByArea` and `chooseOptimalSize`, plus the
 clamp of the display size that produces the bounds `chooseOptimalSize` is
 called with.
 */
module Sizes {
  import opened JvmInt

  /** `android.util.Size`: two `Int` sides. */
  datatype Size = Size(width: Int32, height: Int32)

  /** The exact area; `Compare` shows the source's 64-bit products never lose it. */
  function Area(s: Size): int
  {
    s.width * s.height
  }

  const MAX_PREVIEW_WIDTH: Int32 := 1920
  const MAX_PREVIEW_HEIGHT: Int32 := 1080

  /** A product of two `Int`s lies strictly inside the `Long` range, with room for one subtraction. */
  lemma ProductBounds(a: Int32, b: Int32)
    ensures -0x4000_0000_0000_0000 < a * b <= 0x4000_0000_0000_0000
  {
    var x: nat, y: nat := Abs(a), Abs(b);
    assert a * b == x * y || a * b == -(x * y);
    ProductMonotone(x, 0x8000_0000, y);
    ProductMonotone(y, 0x8000_0000, 0x8000_0000);
    if a >= 0 && b < 0 {
      // a non-negative factor is at most 2^31 - 1
      ProductMonotone(x, 0x7FFF_FFFF, y);
      ProductMonotone(y, 0x8000_0000, 0x7FFF_FFFF);
    } else if a < 0 && b >= 0 {
      ProductMonotone(y, 0x7FFF_FFFF, x);
      ProductMonotone(x, 0x8000_0000, 0x7FFF_FFFF);
    }
  }

  lemma ProductMonotone(x: nat, bound: nat, y: nat)
    requires x <= bound
    ensures x * y <= bound * y
  {
    assert bound * y == x * y + (bound - x) * y;
  }

  /**
   `CompareSizesByArea.compare`: the sign of the difference of the two areas,
   each computed as `Long * Int` and subtracted as `Long`. Neither the products
   nor the difference wrap, so the result is the sign of the exact difference.
   */
  function Compare(lhs: Size, rhs: Size): (r: int)
    ensures r == -1 || r == 0 || r == 1
    ensures r == -1 <==> Area(lhs) < Area(rhs)
    ensures r == 0 <==> Area(lhs) == Area(rhs)
    ensures r == 1 <==> Area(lhs) > Area(rhs)
  {
    ProductBounds(lhs.width, lhs.height);
    ProductBounds(rhs.width, rhs.height);
    Signum(Wrap64(Wrap64(lhs.width * lhs.height) - Wrap64(rhs.width * rhs.height)))
  }

  /** The comparator is antisymmetric, as `java.util.Comparator` demands. */
  lemma CompareAntisymmetric(a: Size, b: Size)
    ensures Compare(a, b) == -Compare(b, a)
  {
  }

  /** ... and transitive, so `Collections.min` and `max` are well defined on it. */
  lemma CompareTransitive(a: Size, b: Size, c: Size)
    requires Compare(a, b) <= 0 && Compare(b, c) <= 0
    ensures Compare(a, c) <= 0
  {
  }

  /** The arguments of `chooseOptimalSize` other than the list of choices. */
  datatype Target = Target(
    textureViewWidth: Int32,
    textureViewHeight: Int32,
    maxWidth: Int32,
    maxHeight: Int32,
    aspectRatio: Size)

  /**
   The first filter: within the maximum bounds and of the requested aspect
   ratio, the latter tested as `option.height == option.width * h / w` in
   `Int` arithmetic (wrapping product, truncating quotient).
   */
  predicate Qualifies(option: Size, t: Target)
    requires t.aspectRatio.width != 0
  {
    && option.width <= t.maxWidth
    && option.height <= t.maxHeight
    && option.height == Div32(Wrap32(option.width * t.aspectRatio.height), t.aspectRatio.width)
  }

  /** The second test: at least as large as the texture view. */
  predicate Covers(option: Size, t: Target)
  {
    option.width >= t.textureViewWidth && option.height >= t.textureViewHeight
  }

  /** The `bigEnough` list after visiting `cs`: qualifying options that cover the view, in order. */
  function BigEnough(cs: seq<Size>, t: Target): seq<Size>
    requires t.aspectRatio.width != 0
  {
    if cs == [] then []
    else
      var last := cs[|cs| - 1];
      BigEnough(cs[..|cs| - 1], t) + (if Qualifies(last, t) && Covers(last, t) then [last] else [])
  }

  /** The `notBigEnough` list after visiting `cs`: qualifying options that do not cover the view. */
  function NotBigEnough(cs: seq<Size>, t: Target): seq<Size>
    requires t.aspectRatio.width != 0
  {
    if cs == [] then []
    else
      var last := cs[|cs| - 1];
      NotBigEnough(cs[..|cs| - 1], t) + (if Qualifies(last, t) && !Covers(last, t) then [last] else [])
  }

  lemma {:induction false} BigEnoughMembers(cs: seq<Size>, t: Target)
    requires t.aspectRatio.width != 0
    ensures forall s :: s in BigEnough(cs, t) <==> s in cs && Qualifies(s, t) && Covers(s, t)
  {
    if cs != [] {
      var init := cs[..|cs| - 1];
      BigEnoughMembers(init, t);
      assert cs == init + [cs[|cs| - 1]];
    }
  }

  lemma {:induction false} NotBigEnoughMembers(cs: seq<Size>, t: Target)
    requires t.aspectRatio.width != 0
    ensures forall s :: s in NotBigEnough(cs, t) <==> s in cs && Qualifies(s, t) && !Covers(s, t)
  {
    if cs != [] {
      var init := cs[..|cs| - 1];
      NotBigEnoughMembers(init, t);
      assert cs == init + [cs[|cs| - 1]];
    }
  }

  /**
   `Collections.min(list, CompareSizesByArea())`: the JDK keeps the current
   candidate and replaces it only by a strictly smaller element, so the result
   is the first element of least area.
   */
  method MinByArea(xs: seq<Size>) returns (m: Size)
    requires |xs| > 0
    ensures m in xs
    ensures forall s :: s in xs ==> Area(m) <= Area(s)
    ensures exists k :: 0 <= k < |xs| && xs[k] == m && forall j :: 0 <= j < k ==> Area(m) < Area(xs[j])
  {
    m := xs[0];
    ghost var k := 0;
    for i := 1 to |xs|
      invariant 0 <= k < i && xs[k] == m
      invariant forall j :: 0 <= j < i ==> Area(m) <= Area(xs[j])
      invariant forall j :: 0 <= j < k ==> Area(m) < Area(xs[j])
    {
      if Compare(xs[i], m) < 0 {
        m, k := xs[i], i;
      }
    }
  }

  /** `Collections.max(list, CompareSizesByArea())`: the first element of greatest area. */
  method MaxByArea(xs: seq<Size>) returns (m: Size)
    requires |xs| > 0
    ensures m in xs
    ensures forall s :: s in xs ==> Area(s) <= Area(m)
    ensures exists k :: 0 <= k < |xs| && xs[k] == m && forall j :: 0 <= j < k ==> Area(xs[j]) < Area(m)
  {
    m := xs[0];
    ghost var k := 0;
    for i := 1 to |xs|
      invariant 0 <= k < i && xs[k] == m
      invariant forall j :: 0 <= j < i ==> Area(xs[j]) <= Area(m)
      invariant forall j :: 0 <= j < k ==> Area(xs[j]) < Area(m)
    {
      if Compare(xs[i], m) > 0 {
        m, k := xs[i], i;
      }
    }
  }

  /**
   `chooseOptimalSize`: among the choices within the bounds and of the
   aspect ratio, the smallest that covers the texture view; failing that the
   largest that does not; failing that `choices[0]`.
   An empty `choices` makes the source throw at `choices[0]`, and a zero
   aspect width makes it throw at the division: both are preconditions here.
   */
  method ChooseOptimalSize(choices: seq<Size>, t: Target) returns (r: Size)
    requires |choices| > 0
    requires t.aspectRatio.width != 0
    ensures r in choices
    ensures (exists i :: 0 <= i < |choices| && Qualifies(choices[i], t) && Covers(choices[i], t)) ==>
      && Qualifies(r, t) && Covers(r, t)
      && forall s :: s in choices && Qualifies(s, t) && Covers(s, t) ==> Area(r) <= Area(s)
    ensures (forall i :: 0 <= i < |choices| ==> !(Qualifies(choices[i], t) && Covers(choices[i], t))) &&
            (exists i :: 0 <= i < |choices| && Qualifies(choices[i], t)) ==>
      && Qualifies(r, t) && !Covers(r, t)
      && forall s :: s in choices && Qualifies(s, t) ==> Area(s) <= Area(r)
    ensures (forall i :: 0 <= i < |choices| ==> !Qualifies(choices[i], t)) ==> r == choices[0]
  {
    var bigEnough: seq<Size> := [];
    var notBigEnough: seq<Size> := [];
    for i := 0 to |choices|
      invariant bigEnough == BigEnough(choices[..i], t)
      invariant notBigEnough == NotBigEnough(choices[..i], t)
    {
      var option := choices[i];
      assert choices[..i + 1][..i] == choices[..i];
      if Qualifies(option, t) {
        if Covers(option, t) {
          bigEnough := bigEnough + [option];
        } else {
          notBigEnough := notBigEnough + [option];
        }
      }
    }
    assert choices[..|choices|] == choices;
    BigEnoughMembers(choices, t);
    NotBigEnoughMembers(choices, t);
    if |bigEnough| > 0 {
      r := MinByArea(bigEnough);
    } else if |notBigEnough| > 0 {
      r := MaxByArea(notBigEnough);
      forall s | s in choices && Qualifies(s, t) ensures Area(s) <= Area(r) {
        assert s !in bigEnough;
      }
    } else {
      r := choices[0];
    }
  }

  /**
   The bounds handed to `chooseOptimalSize` in `setUpCameraOutputs`: the
   texture view and display sizes, transposed when the display and sensor
   disagree, with the maximum clamped to what Camera2 guarantees.
   */
  function PreviewTarget(swapped: bool, width: Int32, height: Int32,
                         displayX: Int32, displayY: Int32, largest: Size): (t: Target)
    ensures t.aspectRatio == largest
    ensures t.textureViewWidth == (if swapped then height else width)
    ensures t.textureViewHeight == (if swapped then width else height)
    ensures t.maxWidth <= MAX_PREVIEW_WIDTH && t.maxHeight <= MAX_PREVIEW_HEIGHT
    ensures t.maxWidth <= (if swapped then displayY else displayX)
    ensures t.maxHeight <= (if swapped then displayX else displayY)
    ensures t.maxWidth == MAX_PREVIEW_WIDTH || t.maxWidth == (if swapped then displayY else displayX)
    ensures t.maxHeight == MAX_PREVIEW_HEIGHT || t.maxHeight == (if swapped then displayX else displayY)
  {
    var maxPreviewWidth := if swapped then displayY else displayX;
    var maxPreviewHeight := if swapped then displayX else displayY;
    Target(
      if swapped then height else width,
      if swapped then width else height,
      if maxPreviewWidth > MAX_PREVIEW_WIDTH then MAX_PREVIEW_WIDTH else maxPreviewWidth,
      if maxPreviewHeight > MAX_PREVIEW_HEIGHT then MAX_PREVIEW_HEIGHT else maxPreviewHeight,
      largest)
  }

  /** Every size that passes the first filter respects the Camera2 preview limits. */
  lemma QualifiedWithinPreviewLimits(option: Size, swapped: bool, width: Int32, height: Int32,
                                     displayX: Int32, displayY: Int32, largest: Size)
    requires largest.width != 0
    requires Qualifies(option, PreviewTarget(swapped, width, height, displayX, displayY, largest))
    ensures option.width <= MAX_PREVIEW_WIDTH && option.height <= MAX_PREVIEW_HEIGHT
  {
  }
}

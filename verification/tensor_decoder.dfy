/** The tensor decoder of `ToImage` (UwpMl/MainPage.xaml.cs): every element
    `f` of a single-channel tensor becomes the opaque grey pixel
    `(v, v, v, 255)` with `v = Convert.ToByte(f * 255)`. The element is not
    clamped first, so an element outside the byte range throws. */
module TensorDecoder {
  import opened Numeric

  /** The alpha byte of every decoded pixel: fully opaque. */
  const Opaque: byte := 255

  /** Every element of the tensor, scaled by 255, is a value
      `Convert.ToByte` accepts. */
  predicate Displayable(t: seq<real>) {
    forall i :: 0 <= i < |t| ==> InByteRange(t[i] * 255.0)
  }

  /** The lambda `ToImage` passes to `SelectMany`: one tensor element
      becomes one opaque grey pixel, or throws `OverflowException`. */
  function GrayPixel(f: real): (r: Result<seq<byte>>)
    ensures r.Ok? <==> InByteRange(f * 255.0)
    ensures r.Throw? ==> r.exception == OverflowException
    ensures r.Ok? ==> && |r.value| == 4
                      && IsHalfEvenRounding(f * 255.0, r.value[0])
                      && r.value[1] == r.value[0] && r.value[2] == r.value[0]
                      && r.value[3] == Opaque
  {
    match ConvertToByte(f * 255.0)
    case Ok(v) => Ok([v, v, v, Opaque])
    case Throw(e) => Throw(e)
  }

  /** The reference definition of the decoded grey image: byte `j` is the
      alpha byte 255 at offset 3 of a pixel and the rounded grey level of
      element `j / 4` elsewhere. */
  function GrayImage(t: seq<real>): (pixels: seq<byte>)
    requires Displayable(t)
    ensures |pixels| == 4 * |t|
    ensures forall j :: 0 <= j < |pixels| && j % 4 != 3 ==> IsHalfEvenRounding(t[j / 4] * 255.0, pixels[j])
  {
    seq(4 * |t|, j requires 0 <= j < 4 * |t| =>
      if j % 4 == 3 then Opaque else RoundToByte(t[j / 4] * 255.0))
  }

  /** The grey image of a non-empty tensor is the grey pixel of its first
      element followed by the grey image of the rest. */
  lemma GrayImageCons(t: seq<real>)
    requires Displayable(t) && |t| > 0
    ensures GrayPixel(t[0]).Ok?
    ensures GrayImage(t) == GrayPixel(t[0]).value + GrayImage(t[1..])
  {
    var g, px, g' := GrayImage(t), GrayPixel(t[0]).value, GrayImage(t[1..]);
    HalfEvenRoundingIsUnique(t[0] * 255.0, px[0]);
    HalfEvenRoundingIsUnique(t[0] * 255.0, RoundToByte(t[0] * 255.0));
    forall j | 0 <= j < |g|
      ensures g[j] == (px + g')[j]
    {
      if j >= 4 {
        var j' := j - 4;
        assert j' / 4 == j / 4 - 1 && j' % 4 == j % 4;
        assert t[1..][j' / 4] == t[j / 4];
      }
    }
  }

  /** The pixel buffer `ToImage` builds: the grey pixels of the elements
      in input order, four bytes per element; the first element that does
      not convert aborts the whole buffer with `OverflowException`. */
  function ToImagePixels(t: seq<real>): (r: Result<seq<byte>>)
    ensures r.Ok? <==> Displayable(t)
    ensures r.Throw? ==> r.exception == OverflowException
    ensures r.Ok? ==> r.value == GrayImage(t)
    decreases |t|
  {
    if t == [] then Ok([])
    else
      match GrayPixel(t[0])
      case Throw(e) => Throw(e)
      case Ok(px) =>
        match ToImagePixels(t[1..])
        case Throw(e) => Throw(e)
        case Ok(rest) =>
          GrayImageCons(t);
          Ok(px + rest)
  }

  /** Pixel `k` of the grey image: three equal grey bytes, then 255. */
  lemma GrayImagePixel(t: seq<real>, k: nat)
    requires Displayable(t) && k < |t|
    ensures var g := GrayImage(t);
      && g[4 * k + 3] == Opaque
      && g[4 * k] == g[4 * k + 1] == g[4 * k + 2]
      && IsHalfEvenRounding(t[k] * 255.0, g[4 * k])
  {
    var g := GrayImage(t);
    assert (4 * k) / 4 == k && (4 * k + 1) / 4 == k && (4 * k + 2) / 4 == k && (4 * k + 3) / 4 == k;
    assert g[4 * k] == RoundToByte(t[k] * 255.0);
  }

  /** A decodable tensor has four bytes per element: every fourth byte is
      the opaque alpha 255, and the other three bytes of pixel `k` are the
      grey level of element `k`, `k * 255` rounded half to even. */
  lemma ToImageLayout(t: seq<real>)
    requires Displayable(t)
    ensures ToImagePixels(t).Ok?
    ensures |ToImagePixels(t).value| == 4 * |t|
    ensures forall k :: 0 <= k < |t| ==>
      var px := ToImagePixels(t).value;
      && px[4 * k + 3] == Opaque
      && px[4 * k] == px[4 * k + 1] == px[4 * k + 2]
      && IsHalfEvenRounding(t[k] * 255.0, px[4 * k])
  {
    var g := GrayImage(t);
    assert ToImagePixels(t) == Ok(g);
    forall k | 0 <= k < |t|
      ensures && g[4 * k + 3] == Opaque
              && g[4 * k] == g[4 * k + 1] == g[4 * k + 2]
              && IsHalfEvenRounding(t[k] * 255.0, g[4 * k])
    {
      GrayImagePixel(t, k);
    }
  }

  /** Every element clamped to the unit interval. */
  function ClampAll(t: seq<real>): (c: seq<real>)
    ensures |c| == |t|
    ensures forall i :: 0 <= i < |t| ==> 0.0 <= c[i] <= 1.0
  {
    seq(|t|, i requires 0 <= i < |t| => Clamp01(t[i]))
  }

  /** The grey image with every element first clamped to [0, 1]. `ToImage`
      does not clamp, so the two agree only where no element overflows. */
  function ClampedGrayImage(t: seq<real>): (pixels: seq<byte>)
    ensures |pixels| == 4 * |t|
  {
    assert Displayable(ClampAll(t));
    GrayImage(ClampAll(t))
  }

  /** A tensor of probabilities (every element in [0, 1]) decodes without
      overflow, to exactly its clamped grey image. */
  lemma ToImageOfProbabilities(t: seq<real>)
    requires forall i :: 0 <= i < |t| ==> 0.0 <= t[i] <= 1.0
    ensures ToImagePixels(t) == Ok(ClampedGrayImage(t))
  {
    var c := ClampAll(t);
    forall i | 0 <= i < |t|
      ensures c[i] == t[i]
    {
    }
    assert c == t;
    ToImageOfClamped(t);
  }

  /** A tensor clamped to [0, 1] before it is passed to `ToImage` always
      decodes, to its clamped grey image. */
  lemma ToImageOfClamped(t: seq<real>)
    ensures ToImagePixels(ClampAll(t)) == Ok(ClampedGrayImage(t))
  {
    assert Displayable(ClampAll(t));
  }

  /** An element that converts without overflow has the same grey level as
      its clamped value: below 0 it lies within half a level of 0, above 1
      within half a level of 255. */
  lemma ClampKeepsGrayLevel(f: real)
    requires InByteRange(f * 255.0)
    ensures InByteRange(Clamp01(f) * 255.0)
    ensures RoundToByte(f * 255.0) == RoundToByte(Clamp01(f) * 255.0)
  {
    var c := Clamp01(f);
    HalfEvenRoundingIsUnique(f * 255.0, RoundToByte(f * 255.0));
    HalfEvenRoundingIsUnique(c * 255.0, RoundToByte(c * 255.0));
    if f < 0.0 {
      assert IsHalfEvenRounding(f * 255.0, 0);
      HalfEvenRoundingIsUnique(f * 255.0, 0);
      RoundHalfEvenOfInteger(0);
    } else if f > 1.0 {
      assert IsHalfEvenRounding(f * 255.0, 255);
      HalfEvenRoundingIsUnique(f * 255.0, 255);
      RoundHalfEvenOfInteger(255);
    }
  }

  /** Clamping the tensor before `ToImage` changes its result exactly when
      `ToImage` would throw: for a decodable tensor the clamp is invisible. */
  lemma ClampChangesOnlyOverflow(t: seq<real>)
    ensures ToImagePixels(ClampAll(t)) == ToImagePixels(t) <==> Displayable(t)
  {
    var c := ClampAll(t);
    assert Displayable(c);
    if Displayable(t) {
      var g, gc := GrayImage(t), GrayImage(c);
      forall j | 0 <= j < |g|
        ensures g[j] == gc[j]
      {
        if j % 4 != 3 {
          ClampKeepsGrayLevel(t[j / 4]);
          HalfEvenRoundingIsUnique(t[j / 4] * 255.0, g[j]);
          HalfEvenRoundingIsUnique(t[j / 4] * 255.0, RoundToByte(t[j / 4] * 255.0));
          HalfEvenRoundingIsUnique(c[j / 4] * 255.0, gc[j]);
          HalfEvenRoundingIsUnique(c[j / 4] * 255.0, RoundToByte(c[j / 4] * 255.0));
        }
      }
      assert g == gc;
    }
  }

  /** An element above 1 by more than half a grey level is not clamped and
      makes `ToImage` throw, as does one below 0 by more than half a level. */
  lemma ToImageOverflows()
    ensures ToImagePixels([0.5, 1.01]) == Throw(OverflowException)
    ensures ToImagePixels([-0.01]) == Throw(OverflowException)
  {
    assert !InByteRange([0.5, 1.01][1] * 255.0);
    assert !InByteRange([-0.01][0] * 255.0);
  }

  /** A value of exactly 1 decodes to (255, 255, 255, 255) and a value of
      exactly 0 to (0, 0, 0, 255). */
  lemma ToImageOfExtremes()
    ensures ToImagePixels([1.0, 0.0]) == Ok([255, 255, 255, 255, 0, 0, 0, 255])
  {
    RoundToByteOfByte(255);
    RoundToByteOfByte(0);
    var t := [1.0, 0.0];
    assert Displayable(t);
    var g := GrayImage(t);
    assert g == [RoundToByte(255.0), RoundToByte(255.0), RoundToByte(255.0), 255,
                 RoundToByte(0.0), RoundToByte(0.0), RoundToByte(0.0), 255];
  }
}

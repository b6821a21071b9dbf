/** The mask compositor of `ApplyTensorAsMask` and `ToBlendedImage`
    (UwpMl/MainPage.xaml.cs): an RGBA byte buffer and a single-channel mask
    become a premultiplied BGRA buffer in which pixels whose clamped mask
    value does not exceed the cutoff are fully transparent. */
module MaskCompositor {
  import opened Numeric

  /** The four zero bytes of a fully transparent, premultiplied pixel. */
  const Transparent: seq<byte> := [0, 0, 0, 0]

  /** The iterations of `for (i = 0; i < len; i += 4)`: one per pixel,
      counting a trailing partial pixel. */
  function PixelCount(len: nat): (n: nat)
    ensures 4 * n >= len
    ensures n > 0 ==> 4 * (n - 1) < len
  {
    (len + 3) / 4
  }

  /** The alpha of pixel `k`: its mask value clamped to [0, 1]. */
  function Alpha(mask: seq<real>, k: nat): (a: real)
    requires k < |mask|
    ensures 0.0 <= a <= 1.0
  {
    Clamp01(mask[k])
  }

  /** Pixel `k` is kept when its alpha exceeds the cutoff. */
  predicate Kept(mask: seq<real>, cutoff: real, k: nat)
    requires k < |mask|
  {
    Alpha(mask, k) > cutoff
  }

  /** Processing pixel `k` throws `IndexOutOfRangeException`: the mask has
      no element `k`, or the pixel is kept and its byte `4k + 2` lies past
      the end of the buffer. A pixel that is not kept reads no data byte.
      A read past the end of the buffer can only happen at a trailing
      partial pixel of one or two bytes. */
  predicate Faults(data: seq<byte>, mask: seq<real>, cutoff: real, k: nat)
    ensures k < PixelCount(|data|) && k < |mask| && Faults(data, mask, cutoff, k) ==>
      && k == PixelCount(|data|) - 1
      && (|data| % 4 == 1 || |data| % 4 == 2)
  {
    k >= |mask| || (Kept(mask, cutoff, k) && 4 * k + 2 >= |data|)
  }

  /** No pixel of the buffer faults. */
  predicate Completes(data: seq<byte>, mask: seq<real>, cutoff: real) {
    forall k :: 0 <= k < PixelCount(|data|) ==> !Faults(data, mask, cutoff, k)
  }

  /** A byte scaled by an alpha in [0, 1] stays within [0, byte]. */
  lemma ScaledByteInRange(b: byte, a: real)
    requires 0.0 <= a <= 1.0
    ensures 0.0 <= b as real * a <= b as real
    ensures InByteRange(b as real * a)
  {
  }

  /** A colour byte premultiplied by alpha rounds to at most the alpha byte. */
  lemma PremultipliedBounded(b: byte, a: real)
    requires 0.0 <= a <= 1.0
    ensures InByteRange(b as real * a) && InByteRange(a * 255.0)
    ensures RoundToByte(b as real * a) <= RoundToByte(a * 255.0)
  {
    ScaledByteInRange(b, a);
    assert b as real * a <= 255.0 * a;
    RoundToByteMonotone(b as real * a, a * 255.0);
  }

  /** A kept pixel holds the blue, green and red bytes, in that order,
      each premultiplied by alpha and rounded half to even, then the alpha
      byte `a * 255`; no colour byte exceeds the alpha byte. */
  function PremultipliedBgra(red: byte, green: byte, blue: byte, a: real): (px: seq<byte>)
    requires 0.0 <= a <= 1.0
    ensures |px| == 4
    ensures IsHalfEvenRounding(blue as real * a, px[0])
    ensures IsHalfEvenRounding(green as real * a, px[1])
    ensures IsHalfEvenRounding(red as real * a, px[2])
    ensures IsHalfEvenRounding(a * 255.0, px[3])
    ensures px[0] <= px[3] && px[1] <= px[3] && px[2] <= px[3]
  {
    PremultipliedBounded(red, a);
    PremultipliedBounded(green, a);
    PremultipliedBounded(blue, a);
    [RoundToByte(blue as real * a), RoundToByte(green as real * a),
     RoundToByte(red as real * a), RoundToByte(a * 255.0)]
  }

  /** The four output bytes of pixel `k`: premultiplied BGRA when the pixel
      is kept, transparent otherwise. */
  function MaskedPixel(data: seq<byte>, mask: seq<real>, cutoff: real, k: nat): (px: seq<byte>)
    requires k < PixelCount(|data|) && !Faults(data, mask, cutoff, k)
    ensures |px| == 4
    ensures !Kept(mask, cutoff, k) ==> px == Transparent
    ensures Kept(mask, cutoff, k) ==> IsHalfEvenRounding(Alpha(mask, k) * 255.0, px[3])
  {
    if Kept(mask, cutoff, k) then
      PremultipliedBgra(data[4 * k], data[4 * k + 1], data[4 * k + 2], Alpha(mask, k))
    else
      Transparent
  }

  /** The buffer has a mask element for every pixel, and its trailing
      partial pixel, if it has only one or two bytes, is not kept. */
  predicate MaskCovers(data: seq<byte>, mask: seq<real>, cutoff: real) {
    && PixelCount(|data|) <= |mask|
    && (|data| % 4 == 1 || |data| % 4 == 2 ==> !Kept(mask, cutoff, PixelCount(|data|) - 1))
  }

  /** No pixel faults exactly when the mask covers the buffer. */
  lemma CompletesIffMaskCovers(data: seq<byte>, mask: seq<real>, cutoff: real)
    ensures Completes(data, mask, cutoff) <==> MaskCovers(data, mask, cutoff)
  {
    var n := PixelCount(|data|);
    if Completes(data, mask, cutoff) && n > 0 {
      assert !Faults(data, mask, cutoff, n - 1);
    }
    if MaskCovers(data, mask, cutoff) {
      forall k | 0 <= k < n
        ensures !Faults(data, mask, cutoff, k)
      {
      }
    }
  }

  /** The reference definition of the composite: the masked pixels in
      order, or `IndexOutOfRangeException` when the mask does not cover
      the buffer. */
  function Composite(data: seq<byte>, mask: seq<real>, cutoff: real): (r: Result<seq<byte>>)
    ensures r.Ok? <==> MaskCovers(data, mask, cutoff)
    ensures r.Throw? ==> r.exception == IndexOutOfRangeException
    ensures r.Ok? ==> |r.value| == 4 * PixelCount(|data|)
  {
    CompletesIffMaskCovers(data, mask, cutoff);
    if Completes(data, mask, cutoff) then
      Ok(seq(4 * PixelCount(|data|), j requires 0 <= j < 4 * PixelCount(|data|) =>
        MaskedPixel(data, mask, cutoff, j / 4)[j % 4]))
    else
      Throw(IndexOutOfRangeException)
  }

  /** `out` holds the masked pixels `0 .. k - 1`, none of which faults. */
  predicate ComposedPrefix(out: seq<byte>, data: seq<byte>, mask: seq<real>, cutoff: real, k: nat) {
    && k <= PixelCount(|data|)
    && |out| == 4 * k
    && (forall k' :: 0 <= k' < k ==> !Faults(data, mask, cutoff, k'))
    && (forall j :: 0 <= j < 4 * k ==> out[j] == MaskedPixel(data, mask, cutoff, j / 4)[j % 4])
  }

  /** Appending the masked pixel `k` extends a composed prefix by one pixel. */
  lemma ComposedPrefixStep(out: seq<byte>, data: seq<byte>, mask: seq<real>, cutoff: real, k: nat)
    requires ComposedPrefix(out, data, mask, cutoff, k)
    requires k < PixelCount(|data|) && !Faults(data, mask, cutoff, k)
    ensures ComposedPrefix(out + MaskedPixel(data, mask, cutoff, k), data, mask, cutoff, k + 1)
  {
    var px := MaskedPixel(data, mask, cutoff, k);
    var out' := out + px;
    forall j | 0 <= j < 4 * (k + 1)
      ensures out'[j] == MaskedPixel(data, mask, cutoff, j / 4)[j % 4]
    {
      if j >= 4 * k {
        assert j / 4 == k && j % 4 == j - 4 * k;
      }
    }
  }

  /** A composed prefix of every pixel is the composite. */
  lemma ComposedPrefixComplete(out: seq<byte>, data: seq<byte>, mask: seq<real>, cutoff: real)
    requires ComposedPrefix(out, data, mask, cutoff, PixelCount(|data|))
    ensures Composite(data, mask, cutoff) == Ok(out)
  {
    assert Completes(data, mask, cutoff);
    var c := Composite(data, mask, cutoff).value;
    assert |c| == |out|;
    forall j | 0 <= j < |c|
      ensures c[j] == out[j]
    {
    }
    assert c == out;
    assert Composite(data, mask, cutoff).Ok?;
  }

  /** `ApplyTensorAsMask`: one pass over the buffer in steps of four bytes,
      emitting four bytes per step. */
  method ApplyTensorAsMask(data: seq<byte>, mask: seq<real>, cutoff: real) returns (r: Result<seq<byte>>)
    ensures r == Composite(data, mask, cutoff)
    ensures r.Ok? <==> Completes(data, mask, cutoff)
    ensures r.Ok? <==> MaskCovers(data, mask, cutoff)
    ensures r.Throw? ==> r.exception == IndexOutOfRangeException
    ensures r.Ok? ==> |r.value| == 4 * PixelCount(|data|)
  {
    var out: seq<byte> := [];
    var i := 0;
    var k := 0;
    while i < |data|
      invariant i == 4 * k
      invariant ComposedPrefix(out, data, mask, cutoff, k)
    {
      if k >= |mask| {
        assert Faults(data, mask, cutoff, k);
        return Throw(IndexOutOfRangeException);
      }
      var alpha := Clamp01(mask[k]);
      var px: seq<byte>;
      if alpha > cutoff {
        if i + 2 >= |data| {
          assert Faults(data, mask, cutoff, k);
          return Throw(IndexOutOfRangeException);
        }
        px := PremultipliedBgra(data[i + 0], data[i + 1], data[i + 2], alpha);
      } else {
        px := Transparent;
      }
      ComposedPrefixStep(out, data, mask, cutoff, k);
      out := out + px;
      i := i + 4;
      k := k + 1;
    }
    ComposedPrefixComplete(out, data, mask, cutoff);
    r := Ok(out);
  }

  /** Byte `c` of pixel `k` of a completed composite is byte `c` of the
      masked pixel `k`. */
  lemma CompositeByte(data: seq<byte>, mask: seq<real>, cutoff: real, k: nat, c: nat)
    requires Completes(data, mask, cutoff) && k < PixelCount(|data|) && c < 4
    ensures Composite(data, mask, cutoff).Ok?
    ensures |Composite(data, mask, cutoff).value| == 4 * PixelCount(|data|)
    ensures Composite(data, mask, cutoff).value[4 * k + c] == MaskedPixel(data, mask, cutoff, k)[c]
  {
    assert (4 * k + c) / 4 == k && (4 * k + c) % 4 == c;
  }

  /** For a buffer of whole pixels the composite completes exactly when
      the mask has an element for every pixel, and then it is as long as
      the buffer. */
  lemma CompositeOfPixelBuffer(data: seq<byte>, mask: seq<real>, cutoff: real)
    requires |data| % 4 == 0
    ensures Completes(data, mask, cutoff) <==> |mask| >= |data| / 4
    ensures Composite(data, mask, cutoff).Ok? <==> |mask| >= |data| / 4
    ensures Composite(data, mask, cutoff).Ok? ==> |Composite(data, mask, cutoff).value| == |data|
  {
    var n := PixelCount(|data|);
    assert n == |data| / 4;
    if |mask| < n {
      assert Faults(data, mask, cutoff, |mask|);
    } else {
      forall k | 0 <= k < n
        ensures !Faults(data, mask, cutoff, k)
      {
        assert 4 * k + 2 < |data|;
      }
    }
  }

  /** The masked pixel `k`: four zero bytes when its clamped mask value is
      at most the cutoff, the premultiplied BGRA of its colour bytes
      otherwise. */
  lemma MaskedPixelMeaning(data: seq<byte>, mask: seq<real>, cutoff: real, k: nat)
    requires k < PixelCount(|data|) && !Faults(data, mask, cutoff, k)
    ensures k < |mask|
    ensures Clamp01(mask[k]) <= cutoff ==> MaskedPixel(data, mask, cutoff, k) == Transparent
    ensures Clamp01(mask[k]) > cutoff ==>
      && 4 * k + 2 < |data|
      && MaskedPixel(data, mask, cutoff, k)
         == PremultipliedBgra(data[4 * k], data[4 * k + 1], data[4 * k + 2], Clamp01(mask[k]))
  {
  }

  /** A pixel whose mask value is at least 1, under any cutoff below 1, is
      the input pixel with red and blue swapped and an opaque alpha byte. */
  lemma OpaquePixelSwapsRedAndBlue(data: seq<byte>, mask: seq<real>, cutoff: real, k: nat)
    requires Completes(data, mask, cutoff) && k < PixelCount(|data|)
    requires k < |mask| && mask[k] >= 1.0 && cutoff < 1.0
    ensures 4 * k + 2 < |data|
    ensures MaskedPixel(data, mask, cutoff, k) == [data[4 * k + 2], data[4 * k + 1], data[4 * k], 255]
  {
    assert !Faults(data, mask, cutoff, k);
    var px := MaskedPixel(data, mask, cutoff, k);
    MaskedPixelMeaning(data, mask, cutoff, k);
    HalfEvenRoundingIsUnique(data[4 * k + 2] as real, px[0]);
    HalfEvenRoundingIsUnique(data[4 * k + 1] as real, px[1]);
    HalfEvenRoundingIsUnique(data[4 * k] as real, px[2]);
    HalfEvenRoundingIsUnique(255.0, px[3]);
    RoundHalfEvenOfInteger(data[4 * k + 2]);
    RoundHalfEvenOfInteger(data[4 * k + 1]);
    RoundHalfEvenOfInteger(data[4 * k]);
    RoundHalfEvenOfInteger(255);
  }

  /** Raising the cutoff never makes a completed composite fault, and every
      pixel either stays as it was or becomes transparent. */
  lemma RaisingCutoffOnlyHides(data: seq<byte>, mask: seq<real>, c1: real, c2: real)
    requires c1 <= c2 && Completes(data, mask, c1)
    ensures Completes(data, mask, c2)
    ensures forall k :: 0 <= k < PixelCount(|data|) ==>
      || MaskedPixel(data, mask, c2, k) == MaskedPixel(data, mask, c1, k)
      || MaskedPixel(data, mask, c2, k) == Transparent
  {
    forall k | 0 <= k < PixelCount(|data|)
      ensures !Faults(data, mask, c2, k)
    {
      assert !Faults(data, mask, c1, k);
    }
  }

  /** The number of pixels among the first `n` whose alpha exceeds the cutoff. */
  function KeptCount(mask: seq<real>, cutoff: real, n: nat): (c: nat)
    requires n <= |mask|
    ensures c <= n
    ensures c == 0 <==> forall k :: 0 <= k < n ==> !Kept(mask, cutoff, k)
    ensures c == n <==> forall k :: 0 <= k < n ==> Kept(mask, cutoff, k)
  {
    if n == 0 then 0
    else KeptCount(mask, cutoff, n - 1) + (if Kept(mask, cutoff, n - 1) then 1 else 0)
  }

  /** Raising the cutoff never increases the number of kept pixels. */
  lemma {:induction false} KeptCountMonotone(mask: seq<real>, c1: real, c2: real, n: nat)
    requires c1 <= c2 && n <= |mask|
    ensures KeptCount(mask, c2, n) <= KeptCount(mask, c1, n)
  {
    if n > 0 {
      KeptCountMonotone(mask, c1, c2, n - 1);
    }
  }

  /** The number of pixels among the first `n` of a buffer whose alpha byte
      is not zero: the pixels that are not fully transparent. */
  function VisibleCount(pixels: seq<byte>, n: nat): (c: nat)
    requires 4 * n <= |pixels|
    ensures c <= n
    ensures c == 0 <==> forall k :: 0 <= k < n ==> pixels[4 * k + 3] == 0
  {
    if n == 0 then 0
    else VisibleCount(pixels, n - 1) + (if pixels[4 * (n - 1) + 3] != 0 then 1 else 0)
  }

  /** A buffer whose every alpha byte equals the other's or is zero has at
      most as many visible pixels. */
  lemma {:induction false} VisibleCountPointwise(p1: seq<byte>, p2: seq<byte>, n: nat)
    requires 4 * n <= |p1| && 4 * n <= |p2|
    requires forall k :: 0 <= k < n ==> p2[4 * k + 3] == p1[4 * k + 3] || p2[4 * k + 3] == 0
    ensures VisibleCount(p2, n) <= VisibleCount(p1, n)
  {
    if n > 0 {
      VisibleCountPointwise(p1, p2, n - 1);
      assert p2[4 * (n - 1) + 3] == p1[4 * (n - 1) + 3] || p2[4 * (n - 1) + 3] == 0;
    }
  }

  /** Raising the cutoff never increases the number of non-transparent
      pixels of the composite. */
  lemma RaisingCutoffShowsFewer(data: seq<byte>, mask: seq<real>, c1: real, c2: real)
    requires c1 <= c2 && Completes(data, mask, c1)
    ensures Composite(data, mask, c1).Ok? && Composite(data, mask, c2).Ok?
    ensures var n := PixelCount(|data|);
      VisibleCount(Composite(data, mask, c2).value, n) <= VisibleCount(Composite(data, mask, c1).value, n)
  {
    RaisingCutoffOnlyHides(data, mask, c1, c2);
    var n := PixelCount(|data|);
    var o1, o2 := Composite(data, mask, c1).value, Composite(data, mask, c2).value;
    forall k | 0 <= k < n
      ensures o2[4 * k + 3] == o1[4 * k + 3] || o2[4 * k + 3] == 0
    {
      CompositeByte(data, mask, c1, k, 3);
      CompositeByte(data, mask, c2, k, 3);
    }
    VisibleCountPointwise(o1, o2, n);
  }

  /** A pixel of a completed composite whose alpha byte is not zero is a
      kept pixel. */
  lemma VisiblePixelIsKept(data: seq<byte>, mask: seq<real>, cutoff: real, k: nat)
    requires Completes(data, mask, cutoff) && k < PixelCount(|data|)
    ensures k < |mask|
    ensures Composite(data, mask, cutoff).Ok?
    ensures |Composite(data, mask, cutoff).value| == 4 * PixelCount(|data|)
    ensures Composite(data, mask, cutoff).value[4 * k + 3] != 0 ==> Kept(mask, cutoff, k)
  {
    assert !Faults(data, mask, cutoff, k);
    CompositeByte(data, mask, cutoff, k, 3);
    MaskedPixelMeaning(data, mask, cutoff, k);
  }

  /** A buffer whose visible pixels are all kept has no more visible
      pixels among its first `n` than kept ones. */
  lemma {:induction false} VisibleCountBelowKept(out: seq<byte>, mask: seq<real>, cutoff: real, n: nat)
    requires 4 * n <= |out| && n <= |mask|
    requires forall k :: 0 <= k < n && out[4 * k + 3] != 0 ==> Kept(mask, cutoff, k)
    ensures VisibleCount(out, n) <= KeptCount(mask, cutoff, n)
  {
    if n > 0 {
      VisibleCountBelowKept(out, mask, cutoff, n - 1);
      assert out[4 * (n - 1) + 3] != 0 ==> Kept(mask, cutoff, n - 1);
    }
  }

  /** The visible pixels of a completed composite are no more than its
      kept pixels. */
  lemma VisibleAreKept(data: seq<byte>, mask: seq<real>, cutoff: real)
    requires Completes(data, mask, cutoff)
    ensures PixelCount(|data|) <= |mask|
    ensures Composite(data, mask, cutoff).Ok?
    ensures var n := PixelCount(|data|);
      VisibleCount(Composite(data, mask, cutoff).value, n) <= KeptCount(mask, cutoff, n)
  {
    var n := PixelCount(|data|);
    var out := Composite(data, mask, cutoff).value;
    if n > 0 {
      assert !Faults(data, mask, cutoff, n - 1);
    }
    forall k | 0 <= k < n && out[4 * k + 3] != 0
      ensures Kept(mask, cutoff, k)
    {
      VisiblePixelIsKept(data, mask, cutoff, k);
    }
    VisibleCountBelowKept(out, mask, cutoff, n);
  }

  /** The cutoff `ToBlendedImage` passes. */
  const BlendCutoff: real := 0.0

  /** `ToBlendedImage`'s buffer: the composite under cutoff 0. */
  function BlendedImage(data: seq<byte>, mask: seq<real>): (r: Result<seq<byte>>)
    ensures r.Ok? <==>
      && PixelCount(|data|) <= |mask|
      && (|data| % 4 == 1 || |data| % 4 == 2 ==> mask[PixelCount(|data|) - 1] <= 0.0)
    ensures r.Throw? ==> r.exception == IndexOutOfRangeException
    ensures r.Ok? ==> |r.value| == 4 * PixelCount(|data|)
  {
    Composite(data, mask, BlendCutoff)
  }

  /** Under the cutoff of `ToBlendedImage` a pixel is kept exactly when its
      mask value is positive; a mask value of 0 or less gives four zero
      bytes, a fully transparent pixel. */
  lemma BlendedImageKeepsPositiveMask(data: seq<byte>, mask: seq<real>, k: nat)
    requires Completes(data, mask, BlendCutoff) && k < PixelCount(|data|)
    ensures k < |mask|
    ensures Kept(mask, BlendCutoff, k) <==> mask[k] > 0.0
    ensures BlendedImage(data, mask).Ok?
    ensures |BlendedImage(data, mask).value| == 4 * PixelCount(|data|)
    ensures mask[k] <= 0.0 ==>
      forall j :: 4 * k <= j < 4 * k + 4 ==> BlendedImage(data, mask).value[j] == 0
  {
    assert !Faults(data, mask, BlendCutoff, k);
    forall j | 4 * k <= j < 4 * k + 4
      ensures BlendedImage(data, mask).value[j] == MaskedPixel(data, mask, BlendCutoff, k)[j - 4 * k]
    {
      CompositeByte(data, mask, BlendCutoff, k, j - 4 * k);
    }
  }

  /** Half of the colour (10, 20, 30): BGRA bytes 15, 10, 5 and the alpha
      byte 128, since 127.5 rounds to the even 128. */
  lemma PremultipliedAtHalf()
    ensures PremultipliedBgra(10, 20, 30, 0.5) == [15, 10, 5, 128]
  {
    var px := PremultipliedBgra(10, 20, 30, 0.5);
    HalfEvenRoundingIsUnique(15.0, px[0]);
    HalfEvenRoundingIsUnique(10.0, px[1]);
    HalfEvenRoundingIsUnique(5.0, px[2]);
    HalfEvenRoundingIsUnique(127.5, px[3]);
    HalfEvenRoundingIsUnique(127.5, 128);
    RoundHalfEvenOfInteger(15);
    RoundHalfEvenOfInteger(10);
    RoundHalfEvenOfInteger(5);
  }

  /** A completed composite of a two-pixel buffer is its two masked
      pixels, one after the other. */
  lemma CompositeOfTwoPixels(data: seq<byte>, mask: seq<real>, cutoff: real)
    requires |data| == 8 && Completes(data, mask, cutoff)
    ensures Composite(data, mask, cutoff)
            == Ok(MaskedPixel(data, mask, cutoff, 0) + MaskedPixel(data, mask, cutoff, 1))
  {
    var out := Composite(data, mask, cutoff).value;
    var px := MaskedPixel(data, mask, cutoff, 0) + MaskedPixel(data, mask, cutoff, 1);
    forall j | 0 <= j < 8
      ensures out[j] == px[j]
    {
      if j < 4 {
        CompositeByte(data, mask, cutoff, 0, j);
      } else {
        CompositeByte(data, mask, cutoff, 1, j - 4);
      }
    }
    assert out == px;
  }

  /** A 2 x 1 image with mask values 0.5 and 0 under cutoff 0: the first
      pixel is kept at half alpha, premultiplied and in BGRA order, the
      second is fully transparent. */
  lemma BlendedTwoPixels()
    ensures BlendedImage([10, 20, 30, 40, 50, 60, 70, 80], [0.5, 0.0])
            == Ok([15, 10, 5, 128, 0, 0, 0, 0])
  {
    var data, mask := [10, 20, 30, 40, 50, 60, 70, 80], [0.5, 0.0];
    CompositeOfPixelBuffer(data, mask, BlendCutoff);
    MaskedPixelMeaning(data, mask, BlendCutoff, 0);
    MaskedPixelMeaning(data, mask, BlendCutoff, 1);
    PremultipliedAtHalf();
    CompositeOfTwoPixels(data, mask, BlendCutoff);
    assert Clamp01(mask[0]) == 0.5 && Clamp01(mask[1]) == 0.0;
    assert MaskedPixel(data, mask, BlendCutoff, 0) == [15, 10, 5, 128];
    assert MaskedPixel(data, mask, BlendCutoff, 1) == Transparent;
    assert [15, 10, 5, 128] + Transparent == [15, 10, 5, 128, 0, 0, 0, 0];
  }

  /** A kept pixel can still come out fully transparent: a mask value of
      0.001 passes the cutoff 0, but every product rounds to 0, including
      the alpha byte 0.255. */
  lemma KeptButTransparent()
    ensures Kept([0.001], BlendCutoff, 0)
    ensures BlendedImage([1, 2, 3, 4], [0.001]) == Ok([0, 0, 0, 0])
  {
    var data, mask := [1, 2, 3, 4], [0.001];
    CompositeOfPixelBuffer(data, mask, BlendCutoff);
    MaskedPixelMeaning(data, mask, BlendCutoff, 0);
    var px := MaskedPixel(data, mask, BlendCutoff, 0);
    HalfEvenRoundingIsUnique(0.003, px[0]);
    HalfEvenRoundingIsUnique(0.002, px[1]);
    HalfEvenRoundingIsUnique(0.001, px[2]);
    HalfEvenRoundingIsUnique(0.255, px[3]);
    HalfEvenRoundingIsUnique(0.003, 0);
    HalfEvenRoundingIsUnique(0.002, 0);
    HalfEvenRoundingIsUnique(0.001, 0);
    HalfEvenRoundingIsUnique(0.255, 0);
    assert px == [0, 0, 0, 0];
    var out := BlendedImage(data, mask).value;
    CompositeByte(data, mask, BlendCutoff, 0, 0);
    CompositeByte(data, mask, BlendCutoff, 0, 1);
    CompositeByte(data, mask, BlendCutoff, 0, 2);
    CompositeByte(data, mask, BlendCutoff, 0, 3);
    assert out == px;
  }
}

/** The tensor encoder of `TensorBrg` (UwpMl/MainPage.xaml.cs): an
    interleaved RGBA byte buffer becomes a planar sequence of normalised
    samples in plane order B, R, G, with the alpha byte dropped. */
module TensorEncoder {
  import opened Numeric

  /** Tensor plane `p` reads byte `PlaneOffsets[p]` of every 4-byte pixel:
      plane 0 the blue byte (2), plane 1 the red byte (0), plane 2 the
      green byte (1). The alpha byte (3) is read by no plane. */
  const PlaneOffsets: seq<nat> := [2, 0, 1]

  /** The byte offset inside a pixel that is alpha. */
  const AlphaOffset: nat := 3

  /** The normalised sample plane `p` emits for byte `b`: the intensity
      `b / 255` less the plane's mean, over the plane's standard deviation.
      The (mean, standard deviation) pairs are (0.406, 0.225) for plane B,
      (0.485, 0.229) for plane R and (0.456, 0.224) for plane G. */
  function Sample(b: byte, p: nat): (s: real)
    requires p < 3
    ensures Unnormalize(s, p) == b as real
  {
    var x := b as real / 255.0;
    if p == 0 then (x - 0.406) / 0.225
    else if p == 1 then (x - 0.485) / 0.229
    else (x - 0.456) / 0.224
  }

  /** The number of indices `offset, offset + 4, offset + 8, ...` below
      `len`: the iterations of a `for (i = offset; i < len; i += 4)` loop. */
  function StrideCount(len: nat, offset: nat): (c: nat)
    ensures offset + 4 * c >= len
    ensures c > 0 ==> offset + 4 * (c - 1) < len
  {
    if len <= offset then 0 else (len - offset + 3) / 4
  }

  /** Plane `p` of the tensor: one sample per stride of its byte offset. */
  function Plane(bytes: seq<byte>, p: nat): (s: seq<real>)
    requires p < 3
    ensures |s| == StrideCount(|bytes|, PlaneOffsets[p])
    ensures forall k :: 0 <= k < |s| ==> Unnormalize(s[k], p) == bytes[PlaneOffsets[p] + 4 * k] as real
  {
    var off := PlaneOffsets[p];
    seq(StrideCount(|bytes|, off), k requires 0 <= k < StrideCount(|bytes|, off) => Sample(bytes[off + 4 * k], p))
  }

  /** The reference definition of the encoded tensor: plane 0, then
      plane 1, then plane 2. */
  function Encode(bytes: seq<byte>): (t: seq<real>)
    ensures |t| == StrideCount(|bytes|, 2) + StrideCount(|bytes|, 0) + StrideCount(|bytes|, 1)
  {
    Plane(bytes, 0) + Plane(bytes, 1) + Plane(bytes, 2)
  }

  /** One of the three loops of `TensorBrg`: append plane `p` to `acc`. */
  method AppendPlane(bytes: seq<byte>, p: nat, acc: seq<real>) returns (r: seq<real>)
    requires p < 3
    ensures r == acc + Plane(bytes, p)
  {
    var off := PlaneOffsets[p];
    r := acc;
    var i := off;
    var k := 0;
    while i < |bytes|
      invariant i == off + 4 * k
      invariant k <= StrideCount(|bytes|, off)
      invariant r == acc + Plane(bytes, p)[..k]
    {
      r := r + [Sample(bytes[i], p)];
      i := i + 4;
      k := k + 1;
    }
    assert Plane(bytes, p)[..k] == Plane(bytes, p);
  }

  /** A buffer of whole 4-byte pixels. */
  predicate IsPixelBuffer(bytes: seq<byte>) {
    |bytes| % 4 == 0
  }

  /** `TensorBrg`: the planes B, R, G, each produced by its own loop. Every
      loop runs once per stride of its byte offset; for a buffer of `n`
      whole pixels the tensor has `3 * n` samples, laid out plane-major,
      and sample `k` of each plane comes from pixel `k`. */
  method TensorBrg(bytes: seq<byte>) returns (t: seq<real>)
    ensures t == Encode(bytes)
    ensures |t| == StrideCount(|bytes|, 2) + StrideCount(|bytes|, 0) + StrideCount(|bytes|, 1)
    ensures IsPixelBuffer(bytes) ==> var n := |bytes| / 4;
      && |t| == 3 * n
      && (forall k :: 0 <= k < n ==> t[k] == Sample(bytes[4 * k + 2], 0))
      && (forall k :: 0 <= k < n ==> t[n + k] == Sample(bytes[4 * k + 0], 1))
      && (forall k :: 0 <= k < n ==> t[2 * n + k] == Sample(bytes[4 * k + 1], 2))
  {
    t := AppendPlane(bytes, 0, []);
    assert t == Plane(bytes, 0);
    t := AppendPlane(bytes, 1, t);
    t := AppendPlane(bytes, 2, t);
    if IsPixelBuffer(bytes) {
      EncodeLayout(bytes);
    }
  }

  /** In a buffer of `n` whole pixels every byte offset has `n` strides. */
  lemma PixelBufferStrides(len: nat, offset: nat)
    requires len % 4 == 0 && offset < 4
    ensures StrideCount(len, offset) == len / 4
  {
  }

  /** A buffer of `n` whole pixels encodes to `3 * n` samples. */
  lemma EncodeLength(bytes: seq<byte>)
    requires IsPixelBuffer(bytes)
    ensures |Encode(bytes)| == 3 * (|bytes| / 4)
  {
    PixelBufferStrides(|bytes|, 2);
    PixelBufferStrides(|bytes|, 0);
    PixelBufferStrides(|bytes|, 1);
  }

  /** The plane-major layout of the encoded tensor of whole pixels. */
  lemma EncodeLayout(bytes: seq<byte>)
    requires IsPixelBuffer(bytes)
    ensures var n := |bytes| / 4;
      && |Encode(bytes)| == 3 * n
      && (forall k :: 0 <= k < n ==> Encode(bytes)[k] == Sample(bytes[4 * k + 2], 0))
      && (forall k :: 0 <= k < n ==> Encode(bytes)[n + k] == Sample(bytes[4 * k + 0], 1))
      && (forall k :: 0 <= k < n ==> Encode(bytes)[2 * n + k] == Sample(bytes[4 * k + 1], 2))
  {
    var n := |bytes| / 4;
    PixelBufferStrides(|bytes|, 2);
    PixelBufferStrides(|bytes|, 0);
    PixelBufferStrides(|bytes|, 1);
    var b, r, g := Plane(bytes, 0), Plane(bytes, 1), Plane(bytes, 2);
    var t := Encode(bytes);
    assert t == b + r + g;
    forall k | 0 <= k < n
      ensures t[k] == Sample(bytes[4 * k + 2], 0)
      ensures t[n + k] == Sample(bytes[4 * k + 0], 1)
      ensures t[2 * n + k] == Sample(bytes[4 * k + 1], 2)
    {
      assert t[k] == b[k];
      assert t[n + k] == r[k];
      assert t[2 * n + k] == g[k];
    }
  }

  /** Each plane's sample is strictly increasing in its byte, since every
      plane's standard deviation is positive. */
  lemma SampleStrictlyIncreasing(b1: byte, b2: byte, p: nat)
    requires p < 3 && b1 < b2
    ensures Sample(b1, p) < Sample(b2, p)
  {
  }

  /** Two buffers that differ at most in their alpha bytes. */
  predicate SameColours(a: seq<byte>, b: seq<byte>) {
    && |a| == |b|
    && forall i :: 0 <= i < |a| && i % 4 != AlphaOffset ==> a[i] == b[i]
  }

  /** A single plane never reads an alpha byte. */
  lemma PlaneIgnoresAlpha(a: seq<byte>, b: seq<byte>, p: nat)
    requires SameColours(a, b) && p < 3
    ensures Plane(a, p) == Plane(b, p)
  {
    var off := PlaneOffsets[p];
    var pa, pb := Plane(a, p), Plane(b, p);
    assert |pa| == |pb|;
    forall k | 0 <= k < |pa|
      ensures pa[k] == pb[k]
    {
      var i := off + 4 * k;
      assert i % 4 == off;
      assert a[i] == b[i];
    }
  }

  /** The encoder never reads an alpha byte: changing only alpha bytes
      leaves the tensor unchanged. */
  lemma EncodeIgnoresAlpha(a: seq<byte>, b: seq<byte>)
    requires SameColours(a, b)
    ensures Encode(a) == Encode(b)
  {
    PlaneIgnoresAlpha(a, b, 0);
    PlaneIgnoresAlpha(a, b, 1);
    PlaneIgnoresAlpha(a, b, 2);
  }

  /** The inverse of the normalisation of plane `p`: the byte value a
      sample stands for. `Sample` promises it recovers the byte. */
  function Unnormalize(x: real, p: nat): real
    requires p < 3
  {
    if p == 0 then (x * 0.225 + 0.406) * 255.0
    else if p == 1 then (x * 0.229 + 0.485) * 255.0
    else (x * 0.224 + 0.456) * 255.0
  }

  /** Every sample of `s` unnormalises, with plane `p`'s parameters, to a
      value `Convert.ToByte` accepts. */
  predicate PlaneRestorable(s: seq<real>, p: nat)
    requires p < 3
  {
    forall i :: 0 <= i < |s| ==> InByteRange(Unnormalize(s[i], p))
  }

  /** A tensor of three planes of `n` samples that unnormalise to bytes. */
  predicate Restorable(t: seq<real>, n: nat) {
    && |t| == 3 * n
    && PlaneRestorable(t[..n], 0)
    && PlaneRestorable(t[n..2 * n], 1)
    && PlaneRestorable(t[2 * n..], 2)
  }

  /** The alpha byte of every pixel of a buffer of whole pixels. */
  function Alphas(bytes: seq<byte>): (a: seq<byte>)
    requires IsPixelBuffer(bytes)
  {
    seq(|bytes| / 4, k requires 0 <= k < |bytes| / 4 => bytes[4 * k + AlphaOffset])
  }

  /** Interleave the B, R and G planes and the alpha bytes back into RGBA
      pixels, undoing the normalisation of every sample. */
  function RestorePixels(b: seq<real>, r: seq<real>, g: seq<real>, alphas: seq<byte>): (bytes: seq<byte>)
    requires |b| == |alphas| && |r| == |alphas| && |g| == |alphas|
    requires PlaneRestorable(b, 0) && PlaneRestorable(r, 1) && PlaneRestorable(g, 2)
    ensures |bytes| == 4 * |alphas|
  {
    if alphas == [] then []
    else
      [RoundToByte(Unnormalize(r[0], 1)), RoundToByte(Unnormalize(g[0], 2)),
       RoundToByte(Unnormalize(b[0], 0)), alphas[0]]
      + RestorePixels(b[1..], r[1..], g[1..], alphas[1..])
  }

  /** The decoding direction of the encoder: split the tensor into its
      planes B, R, G, undo the normalisation, put every sample back at its
      byte offset and reinsert the given alpha bytes. */
  function Restore(t: seq<real>, alphas: seq<byte>): (bytes: seq<byte>)
    requires Restorable(t, |alphas|)
    ensures |bytes| == 4 * |alphas|
  {
    var n := |alphas|;
    RestorePixels(t[..n], t[n..2 * n], t[2 * n..], alphas)
  }

  /** Every sample of an encoded plane unnormalises to its own byte. */
  lemma PlaneRestorableOfEncode(bytes: seq<byte>, p: nat)
    requires p < 3
    ensures PlaneRestorable(Plane(bytes, p), p)
  {
    var s := Plane(bytes, p);
    forall i | 0 <= i < |s|
      ensures InByteRange(Unnormalize(s[i], p))
    {
    }
  }

  /** Dropping the first pixel of a buffer drops the first sample of
      every plane. */
  lemma PlaneTail(bytes: seq<byte>, p: nat)
    requires p < 3 && |bytes| >= 4
    ensures |Plane(bytes, p)| >= 1
    ensures Plane(bytes, p)[0] == Sample(bytes[PlaneOffsets[p]], p)
    ensures Plane(bytes, p)[1..] == Plane(bytes[4..], p)
  {
    var off := PlaneOffsets[p];
    var s, s' := Plane(bytes, p), Plane(bytes[4..], p);
    assert |s'| == |s| - 1;
    forall k | 0 <= k < |s'|
      ensures s[1..][k] == s'[k]
    {
      assert bytes[4..][off + 4 * k] == bytes[off + 4 * (k + 1)];
    }
  }

  /** Dropping the first pixel of a buffer drops its first alpha byte. */
  lemma AlphasTail(bytes: seq<byte>)
    requires IsPixelBuffer(bytes) && |bytes| >= 4
    ensures |Alphas(bytes)| >= 1
    ensures Alphas(bytes)[0] == bytes[3]
    ensures Alphas(bytes)[1..] == Alphas(bytes[4..])
  {
    var a, a' := Alphas(bytes), Alphas(bytes[4..]);
    assert |a'| == |a| - 1;
    forall k | 0 <= k < |a'|
      ensures a[1..][k] == a'[k]
    {
      assert bytes[4..][4 * k + 3] == bytes[4 * (k + 1) + 3];
    }
  }

  /** The first restored pixel of an encoded buffer is its first pixel. */
  lemma FirstPixelRestores(bytes: seq<byte>)
    requires IsPixelBuffer(bytes) && |bytes| >= 4
    ensures PlaneRestorable(Plane(bytes, 0), 0)
    ensures PlaneRestorable(Plane(bytes, 1), 1)
    ensures PlaneRestorable(Plane(bytes, 2), 2)
    ensures |Plane(bytes, 0)| >= 1 && |Plane(bytes, 1)| >= 1 && |Plane(bytes, 2)| >= 1
    ensures [RoundToByte(Unnormalize(Plane(bytes, 1)[0], 1)),
             RoundToByte(Unnormalize(Plane(bytes, 2)[0], 2)),
             RoundToByte(Unnormalize(Plane(bytes, 0)[0], 0)),
             bytes[3]] == bytes[..4]
  {
    PlaneRestorableOfEncode(bytes, 0);
    PlaneRestorableOfEncode(bytes, 1);
    PlaneRestorableOfEncode(bytes, 2);
    PlaneTail(bytes, 0);
    PlaneTail(bytes, 1);
    PlaneTail(bytes, 2);
    RoundToByteOfByte(bytes[0]);
    RoundToByteOfByte(bytes[1]);
    RoundToByteOfByte(bytes[2]);
  }

  /** Interleaving the encoded planes of a buffer of whole pixels with its
      alpha bytes gives back the buffer. */
  lemma {:induction false} RestorePixelsOfPlanes(bytes: seq<byte>)
    requires IsPixelBuffer(bytes)
    ensures |Plane(bytes, 0)| == |Alphas(bytes)|
    ensures |Plane(bytes, 1)| == |Alphas(bytes)|
    ensures |Plane(bytes, 2)| == |Alphas(bytes)|
    ensures PlaneRestorable(Plane(bytes, 0), 0)
    ensures PlaneRestorable(Plane(bytes, 1), 1)
    ensures PlaneRestorable(Plane(bytes, 2), 2)
    ensures RestorePixels(Plane(bytes, 0), Plane(bytes, 1), Plane(bytes, 2), Alphas(bytes)) == bytes
    decreases |bytes|
  {
    if |bytes| < 4 {
      assert bytes == [];
    } else {
      var rest := bytes[4..];
      var b, r, g, a := Plane(bytes, 0), Plane(bytes, 1), Plane(bytes, 2), Alphas(bytes);
      FirstPixelRestores(bytes);
      PlaneTail(bytes, 0);
      PlaneTail(bytes, 1);
      PlaneTail(bytes, 2);
      AlphasTail(bytes);
      RestorePixelsOfPlanes(rest);
      var head := [RoundToByte(Unnormalize(r[0], 1)), RoundToByte(Unnormalize(g[0], 2)),
                   RoundToByte(Unnormalize(b[0], 0)), a[0]];
      assert RestorePixels(b, r, g, a) == head + RestorePixels(b[1..], r[1..], g[1..], a[1..]);
      assert RestorePixels(b[1..], r[1..], g[1..], a[1..]) == rest;
      assert bytes == bytes[..4] + rest;
    }
  }

  /** Encoding a buffer of whole pixels, then undoing the normalisation and
      the plane permutation, recovers every colour byte; with the alpha
      bytes put back it recovers the whole buffer. */
  lemma EncodeRoundTrip(bytes: seq<byte>)
    requires IsPixelBuffer(bytes)
    ensures Restorable(Encode(bytes), |bytes| / 4)
    ensures Restore(Encode(bytes), Alphas(bytes)) == bytes
  {
    var n := |bytes| / 4;
    RestorePixelsOfPlanes(bytes);
    var b, r, g := Plane(bytes, 0), Plane(bytes, 1), Plane(bytes, 2);
    var t := Encode(bytes);
    assert t == b + r + g;
    assert t[..n] == b && t[n..2 * n] == r && t[2 * n..] == g;
  }

  /** A single pixel (R, G, B, A) = (10, 20, 30, 255) encodes to the
      normalised blue, red and green bytes, in that order. */
  lemma EncodeSinglePixel()
    ensures Encode([10, 20, 30, 255]) == [Sample(30, 0), Sample(10, 1), Sample(20, 2)]
  {
  }
}

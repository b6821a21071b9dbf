# UwpMl pixel/tensor transcoding, modelled in Dafny

The UwpMl sample app runs a segmentation network over a picture the user
picks from a file. It does so in three steps:

- it turns the picture's RGBA bytes into a normalised planar tensor
  (`TensorBrg`);
- it turns a single-channel output tensor back into a grey image (the
  per-element lambda of `ToImage`);
- it cuts the picture out with the network's mask (`ApplyTensorAsMask`,
  called by `ToBlendedImage` with the cutoff 0).

This project models those transforms as pure functions over Dafny
sequences and proves what they compute.

- `numeric.dfy` (module `Numeric`): the byte type, and the two exceptions
  the transforms can raise as a `Result`. It also models `Math.Clamp` to
  [0, 1] and the conversion `Convert.ToByte` applies to a floating-point
  value: round half to even, then throw `OverflowException` unless the
  rounded value is 0..255. The accepted range is therefore exactly
  [-0.5, 255.5).
- `tensor_encoder.dfy` (module `TensorEncoder`): `TensorBrg` as a method
  of three loops, each appending one plane. It is proved equal to the
  reference definition `Encode`. Also proved:
  - the plane-major B, R, G layout;
  - that alpha bytes are never read;
  - the round trip back to the RGBA buffer.
- `tensor_decoder.dfy` (module `TensorDecoder`): the `ToImage` pixel
  buffer. Each element becomes `(v, v, v, 255)`, or the whole buffer
  throws. It is related to the same decoding applied to a clamped tensor.
- `mask_compositor.dfy` (module `MaskCompositor`): `ApplyTensorAsMask` as a
  loop that emits four bytes per pixel step. It is proved equal to the
  reference definition `Composite`. Its faults are modelled, and proved to
  happen exactly when:
  - a mask shorter than the pixel count;
  - a kept pixel whose byte `4k + 2` is past the end of the buffer.

  Also proved: premultiplied BGRA output, the effect of the cutoff, and the
  `ToBlendedImage` cutoff of 0.

`ToImage` (UwpMl/MainPage.xaml.cs:137) does not clamp a tensor element
before it scales it by 255, so `ToImagePixels` throws for an element outside
[-0.5/255, 255.5/255). `ClampedGrayImage` is the grey image with every element
first clamped to [0, 1]. `ClampChangesOnlyOverflow` proves that clamping first
changes the result exactly when `ToImage` would throw.

## Model

| member | source | states |
|---|---|---|
| Numeric.ConvertToByte | UwpMl/MainPage.xaml.cs:137 | `Convert.ToByte` of a floating-point value succeeds exactly when the argument lies in [-0.5, 255.5). The byte is then the half-even rounding of the argument; otherwise the result is `OverflowException`. |
| Numeric.RoundHalfEven | UwpMl/MainPage.xaml.cs:166-169 | The rounding `Convert.ToByte` applies is within 0.5 of its argument, and on an exact tie it is the even integer. |
| Numeric.RoundToByte | UwpMl/MainPage.xaml.cs:137 | The byte `Convert.ToByte` returns for an argument it accepts is the half-even rounding of that argument. |
| Numeric.RoundToByteMonotone | UwpMl/MainPage.xaml.cs:166-169 | Converting two accepted values to bytes preserves their order. |
| Numeric.RoundToByteOfByte | UwpMl/MainPage.xaml.cs:166-169 | A whole byte value converts back to the same byte. |
| Numeric.Clamp01 | UwpMl/MainPage.xaml.cs:162 | `Math.Clamp(x, 0, 1)`: the result lies in [0, 1], equals x inside the interval, and is 0 below it and 1 above it. |
| TensorEncoder.StrideCount | UwpMl/MainPage.xaml.cs:111 | A `for (i = off; i < len; i += 4)` loop runs c times: the last index is below len and the next one is not. |
| TensorEncoder.Sample | UwpMl/MainPage.xaml.cs:113-125 | A sample is `(b / 255 - mean) / std` with its plane's constants: (0.406, 0.225) for B, (0.485, 0.229) for R, (0.456, 0.224) for G. Undoing it, `(s * std + mean) * 255`, gives back exactly the byte b. |
| TensorEncoder.Plane | UwpMl/MainPage.xaml.cs:111-127 | Plane p has one sample per iteration of its loop, and sample k stands for the byte at offset `PlaneOffsets[p] + 4k`. |
| TensorEncoder.Encode | UwpMl/MainPage.xaml.cs:108-128 | The reference tensor is as long as the three loops' iteration counts together. |
| TensorEncoder.AppendPlane | UwpMl/MainPage.xaml.cs:111-115 | One plane loop appends, in order, one normalised sample for every fourth byte from its offset, and nothing else. |
| TensorEncoder.TensorBrg | UwpMl/MainPage.xaml.cs:108-128 | The tensor is plane B (offset 2), then plane R (offset 0), then plane G (offset 1). Each plane is as long as its loop's iteration count, for any buffer length. For n whole pixels the tensor holds 3n samples, and sample k of each plane comes from pixel k. |
| TensorEncoder.EncodeLayout | UwpMl/MainPage.xaml.cs:110-127 | For n whole pixels: element k is pixel k's blue byte, element n + k its red byte and element 2n + k its green byte. Each is normalised with its plane's mean and standard deviation. |
| TensorEncoder.EncodeLength | UwpMl/MainPage.xaml.cs:111-127 | A buffer of n whole pixels encodes to 3n samples. |
| TensorEncoder.SampleStrictlyIncreasing | UwpMl/MainPage.xaml.cs:113-125 | Every plane's normalisation is strictly increasing in the byte, so distinct bytes give distinct samples. |
| TensorEncoder.EncodeIgnoresAlpha | UwpMl/MainPage.xaml.cs:108-128 | Two buffers that differ only in alpha bytes encode to the same tensor: no loop reads offset 3. |
| TensorEncoder.PlaneIgnoresAlpha | UwpMl/MainPage.xaml.cs:111-115 | A single plane loop gives the same samples for buffers that differ only in alpha bytes. |
| TensorEncoder.RestorePixelsOfPlanes | UwpMl/MainPage.xaml.cs:108-128 | Interleaving the three encoded planes with the alpha bytes, in R, G, B, A order, gives back the original buffer. The B/R/G permutation is inverted. |
| TensorEncoder.EncodeRoundTrip | UwpMl/MainPage.xaml.cs:108-128 | For a buffer of whole pixels, the tensor splits into three planes that unnormalise to bytes. Restoring it with the original alpha bytes reproduces the buffer exactly. |
| TensorEncoder.EncodeSinglePixel | UwpMl/MainPage.xaml.cs:110-127 | The pixel (R, G, B, A) = (10, 20, 30, 255) encodes to [B-sample of 30, R-sample of 10, G-sample of 20]. |
| TensorDecoder.GrayPixel | UwpMl/MainPage.xaml.cs:135-139 | An element f gives four bytes exactly when f * 255 is in byte range. The bytes are three equal grey bytes (f * 255 rounded half to even) and then alpha 255. Otherwise the result is `OverflowException`. |
| TensorDecoder.GrayImage | UwpMl/MainPage.xaml.cs:132-140 | The grey image of a decodable tensor has four bytes per element. Every byte except the alpha byte of each pixel is the element scaled by 255 and rounded half to even. |
| TensorDecoder.ToImagePixels | UwpMl/MainPage.xaml.cs:132-140 | The buffer exists exactly when every element is displayable; otherwise the result is `OverflowException`. When it exists it is the element-wise grey image, four bytes per element, in input order. |
| TensorDecoder.ToImageLayout | UwpMl/MainPage.xaml.cs:132-140 | A displayable tensor of m elements gives 4m bytes. For pixel k, the first three bytes are equal and are element k scaled by 255 and rounded half to even; the alpha byte is 255. |
| TensorDecoder.GrayImageCons | UwpMl/MainPage.xaml.cs:134-139 | `SelectMany` concatenation: the image of a tensor is its first element's pixel followed by the image of the rest. |
| TensorDecoder.ToImageOfProbabilities | UwpMl/MainPage.xaml.cs:132-140 | A tensor with every element in [0, 1] never throws. Its image equals the clamped decoding. |
| TensorDecoder.ToImageOfClamped | UwpMl/MainPage.xaml.cs:132-140 | Decoding a tensor clamped to [0, 1] always succeeds, and gives the clamped decoding. |
| TensorDecoder.ClampKeepsGrayLevel | UwpMl/MainPage.xaml.cs:137 | An element that converts without overflow gets the same grey level as its value clamped to [0, 1]. Below 0 it rounds to 0, and above 1 it rounds to 255. |
| TensorDecoder.ClampChangesOnlyOverflow | UwpMl/MainPage.xaml.cs:132-140 | Clamping the tensor to [0, 1] before decoding leaves the result unchanged exactly when the unclamped decoding does not throw. |
| TensorDecoder.ToImageOverflows | UwpMl/MainPage.xaml.cs:137 | The elements are not clamped. [0.5, 1.01] and [-0.01] both throw `OverflowException`. |
| TensorDecoder.ToImageOfExtremes | UwpMl/MainPage.xaml.cs:137-138 | [1, 0] decodes to a white opaque pixel followed by a black opaque pixel. |
| MaskCompositor.PixelCount | UwpMl/MainPage.xaml.cs:160 | The `i += 4` loop runs once per pixel, counting a trailing partial pixel. |
| MaskCompositor.Faults | UwpMl/MainPage.xaml.cs:162-166 | Pixel k faults when mask element k is missing (:162), or when it is kept and byte 4k + 2 is past the end (:166). When the mask element exists, a fault can only happen at a trailing partial pixel of one or two bytes. |
| MaskCompositor.CompletesIffMaskCovers | UwpMl/MainPage.xaml.cs:160-166 | No pixel faults exactly when the mask has an element for every pixel and a trailing one- or two-byte partial pixel is not kept. |
| MaskCompositor.PremultipliedBgra | UwpMl/MainPage.xaml.cs:166-169 | A kept pixel holds, in order: blue × alpha, green × alpha, red × alpha (each rounded half to even), then alpha × 255. No colour byte exceeds the alpha byte. |
| MaskCompositor.MaskedPixel | UwpMl/MainPage.xaml.cs:162-177 | The four bytes for pixel k. A pixel that is not kept gives four zeros. A kept pixel's alpha byte is its clamped mask value × 255, rounded half to even. |
| MaskCompositor.Composite | UwpMl/MainPage.xaml.cs:156-180 | The reference composite succeeds exactly when the mask covers the buffer, with four bytes per loop step. Otherwise it raises `IndexOutOfRangeException`. |
| MaskCompositor.ApplyTensorAsMask | UwpMl/MainPage.xaml.cs:156-180 | The output equals the reference composite. It completes exactly when no pixel faults (the mask has no element for the pixel, or the pixel is kept and its byte 4k + 2 is past the end), that is, exactly when the mask covers the buffer; a fault raises `IndexOutOfRangeException`; success gives four bytes per loop step. |
| MaskCompositor.CompositeOfPixelBuffer | UwpMl/MainPage.xaml.cs:158-162 | For whole pixels, the composite completes exactly when the mask has an element for every pixel. The output is then as long as the input. |
| MaskCompositor.PremultipliedBounded | UwpMl/MainPage.xaml.cs:166-169 | A colour byte scaled by an alpha in [0, 1] converts without overflow, to at most the alpha byte. |
| MaskCompositor.CompositeByte | UwpMl/MainPage.xaml.cs:160-179 | Byte c of output pixel k is byte c of masked pixel k. |
| MaskCompositor.OpaquePixelSwapsRedAndBlue | UwpMl/MainPage.xaml.cs:164-169 | A mask value of at least 1, under any cutoff below 1, gives the input pixel with red and blue swapped and alpha 255. |
| MaskCompositor.RaisingCutoffOnlyHides | UwpMl/MainPage.xaml.cs:164-177 | Raising the cutoff never introduces a fault. Each pixel stays the same or becomes transparent. |
| MaskCompositor.KeptCount | UwpMl/MainPage.xaml.cs:164 | The number of kept pixels among the first n is 0 exactly when none is kept, and n exactly when all are kept. |
| MaskCompositor.VisibleCount | UwpMl/MainPage.xaml.cs:169-176 | The number of non-transparent pixels among the first n is 0 exactly when every alpha byte is 0. |
| MaskCompositor.KeptCountMonotone | UwpMl/MainPage.xaml.cs:164 | Raising the cutoff never increases the number of kept pixels. |
| MaskCompositor.VisibleCountPointwise | UwpMl/MainPage.xaml.cs:169-176 | A buffer whose alpha bytes each equal the other's or are zero has no more non-transparent pixels. |
| MaskCompositor.RaisingCutoffShowsFewer | UwpMl/MainPage.xaml.cs:164-177 | Raising the cutoff never increases the number of non-transparent output pixels. |
| MaskCompositor.VisiblePixelIsKept | UwpMl/MainPage.xaml.cs:164-177 | An output pixel with a non-zero alpha byte comes from a kept pixel. |
| MaskCompositor.VisibleCountBelowKept | UwpMl/MainPage.xaml.cs:164-177 | When every visible pixel is kept, there are no more visible pixels than kept ones. |
| MaskCompositor.VisibleAreKept | UwpMl/MainPage.xaml.cs:164-177 | A completed composite has no more non-transparent pixels than kept pixels. |
| MaskCompositor.CompositeOfTwoPixels | UwpMl/MainPage.xaml.cs:160-179 | The output for two whole pixels is the two masked pixels in order. |
| MaskCompositor.BlendedImage | UwpMl/MainPage.xaml.cs:184 | `ToBlendedImage`'s buffer succeeds exactly when the mask has an element for every pixel and a trailing one- or two-byte partial pixel has mask value at most 0. It then has four bytes per loop step. Otherwise it raises `IndexOutOfRangeException`. |
| MaskCompositor.BlendedImageKeepsPositiveMask | UwpMl/MainPage.xaml.cs:184 | Under `ToBlendedImage`'s cutoff of 0, a pixel is kept exactly when its mask value is positive. A mask value of 0 or less gives four zero bytes. |
| MaskCompositor.PremultipliedAtHalf | UwpMl/MainPage.xaml.cs:166-169 | The colour (10, 20, 30) at alpha 0.5 gives BGRA bytes 15, 10, 5, 128. 127.5 rounds to the even 128. |
| MaskCompositor.BlendedTwoPixels | UwpMl/MainPage.xaml.cs:184 | Two pixels with mask [0.5, 0] give [15, 10, 5, 128, 0, 0, 0, 0]. |
| MaskCompositor.KeptButTransparent | UwpMl/MainPage.xaml.cs:164-169 | A kept pixel can still be fully transparent. Mask value 0.001 passes cutoff 0, but every product, including the alpha byte 0.255, rounds to 0. |

## Left out

- `Button_Click` is not modelled. It covers the file picker, image decoding and scaling to 320 × 320, model loading, `EvaluateAsync` and the stopwatch. These are I/O, asynchronous work, or calls into the platform and into Windows ML.
- Writing pixel buffers into a `WriteableBitmap`, copying them into a `SoftwareBitmap` and displaying them are not modelled. These are platform display calls. Because of this, the stream write failing for a buffer larger than 320 × 320 × 4 bytes is not modelled either.
- Floating point is not modelled: samples and mask values are exact reals. `Convert.ToSingle`, the double-precision division, the single-precision products `f * 255` and `data[i] * alpha`, and the rounding of the means and standard deviations to binary are all left out. So is a NaN mask value, which fails `alpha > cutoff` and would therefore give a transparent pixel.
- The lazy `yield return` enumeration is modelled eagerly, as the whole sequence or the exception that aborts it. Both consumers (`ToArray` and the tensor constructor) enumerate fully, so a partial enumeration cannot be seen.

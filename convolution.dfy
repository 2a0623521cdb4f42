/** The gradient stencil of src/pages/index.tsx: `convolve` applies a 3x3 kernel
    to the byte at index `i` of an RGBA buffer with row stride `width*4` and
    pixel stride 4, reading its taps with JavaScript's `Array.prototype.at`. */
module Convolution {

  /** A channel value of a Uint8ClampedArray. */
  type Byte = x: int | 0 <= x < 256

  /** The horizontal and vertical Sobel kernels, row-major. */
  const KernelX: seq<int> := [-1, 0, 1, -2, 0, 2, -1, 0, 1]
  const KernelY: seq<int> := [1, 2, 1, 0, 0, 0, -1, -2, -1]

  /** Bytes per pixel: the column stride `c`. */
  const Channels: int := 4

  /** `s.at(k) || 0`: a negative index counts back from the end, and an index
      outside the buffer either way reads as 0 (undefined || 0). */
  function At(s: seq<int>, k: int): (r: int)
    ensures 0 <= k < |s| ==> r == s[k]
    ensures -|s| <= k < 0 ==> r == s[|s| + k]
    ensures (k >= |s| || k < -|s|) ==> r == 0
  {
    var relative := if k >= 0 then k else |s| + k;
    if 0 <= relative < |s| then s[relative] else 0
  }

  /** `convolve(i, pixels, kernel)` for a canvas `width` pixels wide. */
  function Convolve(i: int, pixels: seq<int>, width: int, kernel: seq<int>): (g: int)
    ensures |pixels| == 0 ==> g == 0
    ensures |kernel| == 0 ==> g == 0
  {
    var r := width * Channels;
    var c := Channels;
    At(pixels, i - r - c) * At(kernel, 0) +
    At(pixels, i - r + 0) * At(kernel, 1) +
    At(pixels, i - r + c) * At(kernel, 2) +
    At(pixels, i - 0 - c) * At(kernel, 3) +
    At(pixels, i - 0 + 0) * At(kernel, 4) +
    At(pixels, i - 0 + c) * At(kernel, 5) +
    At(pixels, i + r - c) * At(kernel, 6) +
    At(pixels, i + r + 0) * At(kernel, 7) +
    At(pixels, i + r + c) * At(kernel, 8)
  }

  /** Offset of kernel tap j (row-major over the 3x3 stencil) from the centre byte. */
  function TapOffset(width: int, j: int): int {
    Channels * ((j / 3 - 1) * width + (j % 3 - 1))
  }

  /** Tap j of the stencil: the byte at its offset times its weight. */
  function Tap(i: int, pixels: seq<int>, width: int, kernel: seq<int>, j: int): int {
    At(pixels, i + TapOffset(width, j)) * At(kernel, j)
  }

  /** The weighted sum of the first n taps, in kernel order: a reference
      definition of the stencil independent of the nine-term expression. */
  function StencilSum(i: int, pixels: seq<int>, width: int, kernel: seq<int>, n: nat): int {
    if n == 0 then 0
    else StencilSum(i, pixels, width, kernel, n - 1) + Tap(i, pixels, width, kernel, n - 1)
  }

  /** The nine offsets, tap by tap. */
  lemma TapOffsets(width: int)
    ensures TapOffset(width, 0) == -(width * Channels) - Channels
    ensures TapOffset(width, 1) == -(width * Channels)
    ensures TapOffset(width, 2) == -(width * Channels) + Channels
    ensures TapOffset(width, 3) == -Channels && TapOffset(width, 4) == 0 && TapOffset(width, 5) == Channels
    ensures TapOffset(width, 6) == width * Channels - Channels
    ensures TapOffset(width, 7) == width * Channels
    ensures TapOffset(width, 8) == width * Channels + Channels
  {
  }

  lemma ConvolveIsStencilSum(i: int, pixels: seq<int>, width: int, kernel: seq<int>)
    ensures Convolve(i, pixels, width, kernel) == StencilSum(i, pixels, width, kernel, 9)
  {
    var r, c := width * Channels, Channels;
    TapOffsets(width);
    var t0, t1, t2 := Tap(i, pixels, width, kernel, 0), Tap(i, pixels, width, kernel, 1), Tap(i, pixels, width, kernel, 2);
    var t3, t4, t5 := Tap(i, pixels, width, kernel, 3), Tap(i, pixels, width, kernel, 4), Tap(i, pixels, width, kernel, 5);
    var t6, t7, t8 := Tap(i, pixels, width, kernel, 6), Tap(i, pixels, width, kernel, 7), Tap(i, pixels, width, kernel, 8);
    assert Convolve(i, pixels, width, kernel) == t0 + t1 + t2 + t3 + t4 + t5 + t6 + t7 + t8 by {
      assert t0 == At(pixels, i - r - c) * At(kernel, 0);
      assert t1 == At(pixels, i - r + 0) * At(kernel, 1);
      assert t2 == At(pixels, i - r + c) * At(kernel, 2);
      assert t3 == At(pixels, i - 0 - c) * At(kernel, 3);
      assert t4 == At(pixels, i - 0 + 0) * At(kernel, 4);
      assert t5 == At(pixels, i - 0 + c) * At(kernel, 5);
      assert t6 == At(pixels, i + r - c) * At(kernel, 6);
      assert t7 == At(pixels, i + r + 0) * At(kernel, 7);
      assert t8 == At(pixels, i + r + c) * At(kernel, 8);
    }
    assert StencilSum(i, pixels, width, kernel, 1) == t0;
    assert StencilSum(i, pixels, width, kernel, 2) == t0 + t1;
    assert StencilSum(i, pixels, width, kernel, 3) == t0 + t1 + t2;
    assert StencilSum(i, pixels, width, kernel, 4) == t0 + t1 + t2 + t3;
    assert StencilSum(i, pixels, width, kernel, 5) == t0 + t1 + t2 + t3 + t4;
    assert StencilSum(i, pixels, width, kernel, 6) == t0 + t1 + t2 + t3 + t4 + t5;
    assert StencilSum(i, pixels, width, kernel, 7) == t0 + t1 + t2 + t3 + t4 + t5 + t6;
    assert StencilSum(i, pixels, width, kernel, 8) == t0 + t1 + t2 + t3 + t4 + t5 + t6 + t7;
  }

  predicate IsBytes(s: seq<int>) {
    forall k :: 0 <= k < |s| ==> 0 <= s[k] < 256
  }

  lemma AtByte(s: seq<int>, k: int)
    requires IsBytes(s)
    ensures 0 <= At(s, k) < 256
  {
  }

  /** The horizontal gradient with the weights of KernelX filled in. */
  lemma GradientX(i: int, pixels: seq<int>, width: int)
    ensures var r := width * Channels;
      Convolve(i, pixels, width, KernelX) ==
        - At(pixels, i - r - 4) + At(pixels, i - r + 4)
        - 2 * At(pixels, i - 4) + 2 * At(pixels, i + 4)
        - At(pixels, i + r - 4) + At(pixels, i + r + 4)
  {
    assert At(KernelX, 0) == -1 && At(KernelX, 1) == 0 && At(KernelX, 2) == 1;
    assert At(KernelX, 3) == -2 && At(KernelX, 4) == 0 && At(KernelX, 5) == 2;
    assert At(KernelX, 6) == -1 && At(KernelX, 7) == 0 && At(KernelX, 8) == 1;
  }

  /** The vertical gradient with the weights of KernelY filled in. */
  lemma GradientY(i: int, pixels: seq<int>, width: int)
    ensures var r := width * Channels;
      Convolve(i, pixels, width, KernelY) ==
        At(pixels, i - r - 4) + 2 * At(pixels, i - r) + At(pixels, i - r + 4)
        - At(pixels, i + r - 4) - 2 * At(pixels, i + r) - At(pixels, i + r + 4)
  {
    assert At(KernelY, 0) == 1 && At(KernelY, 1) == 2 && At(KernelY, 2) == 1;
    assert At(KernelY, 3) == 0 && At(KernelY, 4) == 0 && At(KernelY, 5) == 0;
    assert At(KernelY, 6) == -1 && At(KernelY, 7) == -2 && At(KernelY, 8) == -1;
  }

  /** With byte-valued pixels each kernel's positive and its negative weights sum
      to 4, so each gradient lies within 4 * 255 of zero. */
  lemma ConvolveBounded(i: int, pixels: seq<int>, width: int)
    requires IsBytes(pixels)
    ensures -1020 <= Convolve(i, pixels, width, KernelX) <= 1020
    ensures -1020 <= Convolve(i, pixels, width, KernelY) <= 1020
  {
    var r := width * Channels;
    AtByte(pixels, i - r - 4);
    AtByte(pixels, i - r);
    AtByte(pixels, i - r + 4);
    AtByte(pixels, i - 4);
    AtByte(pixels, i + 4);
    AtByte(pixels, i + r - 4);
    AtByte(pixels, i + r);
    AtByte(pixels, i + r + 4);
    GradientX(i, pixels, width);
    GradientY(i, pixels, width);
  }

  /** A tap at an index that is a multiple of 4 reads a red byte of an RGBA buffer,
      also when a negative index wraps round to the end. */
  lemma AtRedOnly(p: seq<int>, q: seq<int>, k: int)
    requires |p| == |q| && |p| % 4 == 0 && k % 4 == 0
    requires forall n :: 0 <= n < |p| && n % 4 == 0 ==> p[n] == q[n]
    ensures At(p, k) == At(q, k)
  {
    if -|p| <= k < 0 {
      assert (|p| + k) % 4 == 0;
    }
  }

  /** Moving a multiple of 4 by a multiple of 4 keeps it one. */
  lemma AlignedShift(i: int, k: int)
    requires i % 4 == 0
    ensures (i + 4 * k) % 4 == 0
  {
    assert i + 4 * k == 4 * (i / 4 + k);
  }

  lemma {:induction false} StencilSumReadsRedOnly(i: int, p: seq<int>, q: seq<int>, width: int, kernel: seq<int>, n: nat)
    requires |p| == |q| && |p| % 4 == 0 && i % 4 == 0 && n <= 9
    requires forall k :: 0 <= k < |p| && k % 4 == 0 ==> p[k] == q[k]
    ensures StencilSum(i, p, width, kernel, n) == StencilSum(i, q, width, kernel, n)
  {
    if n > 0 {
      StencilSumReadsRedOnly(i, p, q, width, kernel, n - 1);
      var j := n - 1;
      AlignedShift(i, (j / 3 - 1) * width + (j % 3 - 1));
      AtRedOnly(p, q, i + TapOffset(width, j));
      assert Tap(i, p, width, kernel, j) == Tap(i, q, width, kernel, j);
    }
  }

  /** For a pixel-aligned `i`, convolve depends on the red channel only: two
      buffers that agree on every red byte give the same gradient. */
  lemma ConvolveReadsRedOnly(i: int, p: seq<int>, q: seq<int>, width: int, kernel: seq<int>)
    requires |p| == |q| && |p| % 4 == 0 && i % 4 == 0
    requires forall k :: 0 <= k < |p| && k % 4 == 0 ==> p[k] == q[k]
    ensures Convolve(i, p, width, kernel) == Convolve(i, q, width, kernel)
  {
    ConvolveIsStencilSum(i, p, width, kernel);
    ConvolveIsStencilSum(i, q, width, kernel);
    StencilSumReadsRedOnly(i, p, q, width, kernel, 9);
  }
}

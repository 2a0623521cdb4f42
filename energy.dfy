/** The energy fill of `manipulatePixels`: one gradient-magnitude value per pixel,
    stored at the pixel's index `i/4` of a fresh energy buffer. */
module EnergyMap {
  import opened Extended
  import opened Convolution
  import Grid

  /** Math.sqrt of a non-negative integer, rounded down. */
  function ISqrt(n: nat): (r: nat)
    ensures r * r <= n < (r + 1) * (r + 1)
    decreases n
  {
    if n < 4 then (if n == 0 then 0 else 1)
    else
      var q := ISqrt(n / 4);
      SqrtDoubling(n, q);
      if (2 * q + 1) * (2 * q + 1) <= n then 2 * q + 1 else 2 * q
  }

  /** The root of n lies between twice the root of n / 4 and one more. */
  lemma SqrtDoubling(n: nat, q: nat)
    requires q * q <= n / 4 < (q + 1) * (q + 1)
    ensures (2 * q) * (2 * q) <= n < (2 * q + 2) * (2 * q + 2)
  {
    var m := n / 4;
    assert (2 * q) * (2 * q) == 4 * (q * q);
    assert (2 * q + 2) * (2 * q + 2) == 4 * ((q + 1) * (q + 1));
    assert 4 * m <= n < 4 * m + 4;
  }

  /** `Math.sqrt(dx ** 2 + dy ** 2)`, rounded down. */
  function Magnitude(dx: int, dy: int): nat {
    ISqrt(dx * dx + dy * dy)
  }

  /** The gradient magnitude at byte index i, rounded down. */
  function EnergyAt(pixels: seq<int>, width: int, i: int): (r: int)
    ensures r >= 0
  {
    var dx := Convolve(i, pixels, width, KernelX);
    var dy := Convolve(i, pixels, width, KernelY);
    Magnitude(dx, dy)
  }

  /** The energies of the first n pixels of a buffer `width` pixels wide. */
  function EnergyPrefix(pixels: seq<int>, width: nat, n: nat): (g: seq<int>)
    ensures |g| == n
  {
    if n == 0 then [] else EnergyPrefix(pixels, width, n - 1) + [EnergyAt(pixels, width, 4 * (n - 1))]
  }

  /** The energy grid of a `width` by `height` RGBA buffer, one value per pixel. */
  function EnergyGrid(pixels: seq<int>, width: nat, height: nat): (g: seq<int>)
    ensures |g| == width * height
  {
    EnergyPrefix(pixels, width, width * height)
  }

  lemma {:induction false} EnergyPrefixAt(pixels: seq<int>, width: nat, n: nat, p: int)
    requires 0 <= p < n
    ensures EnergyPrefix(pixels, width, n)[p] == EnergyAt(pixels, width, 4 * p)
  {
    if p < n - 1 {
      EnergyPrefixAt(pixels, width, n - 1, p);
    }
  }

  /** Pixel p of the grid holds the energy at its red byte 4 * p. */
  lemma EnergyGridAt(pixels: seq<int>, width: nat, height: nat, p: int)
    requires 0 <= p < width * height
    ensures EnergyGrid(pixels, width, height)[p] == EnergyAt(pixels, width, 4 * p)
  {
    EnergyPrefixAt(pixels, width, width * height, p);
  }

  lemma SquareBound(x: int, b: int)
    requires -b <= x <= b
    ensures x * x <= b * b
  {
    if x >= 0 {
      Grid.MulMonotone(x, b, x);
      Grid.MulMonotone(x, b, b);
    } else {
      Grid.MulMonotone(-x, b, -x);
      Grid.MulMonotone(-x, b, b);
    }
  }

  /** Every energy of a byte buffer is at most sqrt(2) * 1020, below 1443. */
  lemma EnergyBounded(pixels: seq<int>, width: int, i: int)
    requires IsBytes(pixels)
    ensures 0 <= EnergyAt(pixels, width, i) < 1443
  {
    var dx, dy := Convolve(i, pixels, width, KernelX), Convolve(i, pixels, width, KernelY);
    ConvolveBounded(i, pixels, width);
    SquareBound(dx, 1020);
    SquareBound(dy, 1020);
    var r := ISqrt(dx * dx + dy * dy);
    if r >= 1443 {
      Grid.MulMonotone(1443, r, r);
      Grid.MulMonotone(1443, r, 1443);
      assert false;
    }
  }

  /** The energy of a pixel depends on the red bytes of the buffer only. */
  lemma EnergyReadsRedOnly(p: seq<int>, q: seq<int>, width: int, i: int)
    requires |p| == |q| && |p| % 4 == 0 && i % 4 == 0
    requires forall k :: 0 <= k < |p| && k % 4 == 0 ==> p[k] == q[k]
    ensures EnergyAt(p, width, i) == EnergyAt(q, width, i)
  {
    ConvolveReadsRedOnly(i, p, q, width, KernelX);
    ConvolveReadsRedOnly(i, p, q, width, KernelY);
  }

  /** The wrapped-up cells of a grid of integer energies. */
  function Lift(e: seq<int>): (g: seq<Cell>)
    ensures |g| == |e| && forall j :: 0 <= j < |e| ==> g[j] == Fin(e[j])
  {
    seq(|e|, j requires 0 <= j < |e| => Fin(e[j]))
  }

  /** The value one turn of the fill loop computes is the grid's energy of
      its pixel, and it is stored at that pixel's index. */
  lemma FillStep(px: seq<int>, width: nat, height: nat, i: int, written: nat, value: int)
    requires i == 4 * written && written < width * height
    requires value == Magnitude(Convolve(i, px, width, KernelX), Convolve(i, px, width, KernelY))
    ensures i / 4 == written && value == EnergyGrid(px, width, height)[written]
  {
    EnergyGridAt(px, width, height, written);
  }

  /** Writing the next cell of a prefix that agrees with `target` extends the agreement. */
  lemma PrefixExtend(before: seq<Cell>, after: seq<Cell>, target: seq<Cell>, n: nat, x: Cell)
    requires n < |before| && n < |target| && after == before[n := x]
    requires before[..n] == target[..n] && target[n] == x
    ensures after[..n + 1] == target[..n + 1]
  {
    assert after[..n + 1] == before[..n] + [x];
    assert target[..n + 1] == target[..n] + [x];
  }

  /** The loop over byte indices i = 0, 4, 8, ... writes energy[i/4] once for every
      pixel; the buffer starts zeroed, like a new Float32Array. */
  method BuildEnergy(pixels: array<Byte>, width: nat, height: nat) returns (energy: array<Cell>)
    requires pixels.Length == 4 * (width * height)
    ensures fresh(energy)
    ensures energy[..] == Lift(EnergyGrid(pixels[..], width, height))
  {
    ghost var px := pixels[..];
    ghost var grid := EnergyGrid(px, width, height);
    energy := new Cell[width * height](_ => Fin(0));
    var i := 0;
    ghost var written := 0;
    while i < pixels.Length
      invariant i == 4 * written && 0 <= written <= energy.Length
      invariant pixels[..] == px
      invariant energy[..written] == Lift(grid)[..written]
    {
      var dx := Convolve(i, pixels[..], width, KernelX);
      var dy := Convolve(i, pixels[..], width, KernelY);
      var value := Magnitude(dx, dy);
      FillStep(px, width, height, i, written, value);
      ghost var before := energy[..];
      energy[i / 4] := Fin(value);
      PrefixExtend(before, energy[..], Lift(grid), written, Fin(value));
      i := i + 4;
      written := written + 1;
    }
    assert energy[..] == energy[..written];
  }
}

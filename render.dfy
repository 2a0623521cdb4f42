/** The render loop of `manipulatePixels`: every pixel becomes opaque red when
    its energy cell is -inf and otherwise an opaque grey whose level is the
    cell's value normalised between `min` and `max` and scaled to 0..255. */
module Render {
  import opened Extended
  import opened Convolution
  import Grid

  /** A number stored into a Uint8ClampedArray: clamped to 0..255. */
  function ClampByte(x: int): (b: Byte)
    ensures 0 <= x <= 255 ==> b == x
    ensures x < 0 ==> b == 0
    ensures x > 255 ==> b == 255
  {
    if x < 0 then 0 else if x > 255 then 255 else x
  }

  /** Math.floor(a / b) for b != 0. Dafny's `/` is Euclidean, which is floor
      division for a positive divisor. */
  function FloorDiv(a: int, b: int): int
    requires b != 0
  {
    if b > 0 then a / b else (-a) / (-b)
  }

  /** The byte stored for `Math.floor((e - min) / (max - min) * 255)`, with the
      IEEE rules for infinities: an infinite min or max makes the quotient NaN or
      zero, and both store 0; min == max divides by zero, giving +inf (stored
      as 255) above min, NaN (stored as 0) at min, and -inf (stored as 0) below. */
  function GreyLevel(e: int, min: Ext, max: Ext): (level: Byte)
    ensures !(min.Fin? && max.Fin?) ==> level == 0
    ensures min.Fin? && max.Fin? && min.v == max.v ==> (level == 255 <==> e > min.v) && (level == 0 <==> e <= min.v)
    ensures min.Fin? && max.Fin? && min.v < max.v && e <= min.v ==> level == 0
    ensures min.Fin? && max.Fin? && min.v < max.v && max.v <= e ==> level == 255
  {
    if min.Fin? && max.Fin? then
      if min.v == max.v then (if e > min.v then 255 else 0)
      else if min.v < max.v then
        QuotientEnds((e - min.v) * 255, max.v - min.v);
        ClampByte(FloorDiv((e - min.v) * 255, max.v - min.v))
      else ClampByte(FloorDiv((e - min.v) * 255, max.v - min.v))
    else 0
  }

  /** A quotient by a positive divisor stays at or below 0 for a numerator at
      or below 0, and reaches 255 once the numerator reaches 255 divisors. */
  lemma QuotientEnds(a: int, d: int)
    requires d > 0
    ensures a <= 0 ==> a / d <= 0
    ensures 255 * d <= a ==> 255 <= a / d
  {
    if a <= 0 {
      DivMonotone(a, 0, d);
    }
    if 255 * d <= a {
      DivMonotone(255 * d, a, d);
      DivExact(255, d);
    }
  }

  const Red: seq<Byte> := [255, 0, 0, 255]

  function Grey(level: Byte): seq<Byte> {
    [level, level, level, 255]
  }

  /** The four bytes `pixels.set` writes for one energy cell. */
  function PixelFor(cell: Cell, min: Ext, max: Ext): (px: seq<Byte>)
    ensures |px| == 4
  {
    if cell == NegInf then Red else Grey(GreyLevel(cell.v, min, max))
  }

  /** A pixel is red exactly for a -inf cell; any other cell gives an opaque
      pixel with equal red, green and blue. */
  lemma PixelForRedIffMarked(cell: Cell, min: Ext, max: Ext)
    ensures PixelFor(cell, min, max) == Red <==> cell == NegInf
    ensures cell != NegInf ==> exists level: Byte :: PixelFor(cell, min, max) == Grey(level)
    ensures PixelFor(cell, min, max)[3] == 255
  {
    if cell != NegInf {
      var level := GreyLevel(cell.v, min, max);
      assert Grey(level)[1] == level;
      assert PixelFor(cell, min, max) == Grey(level);
    }
  }

  lemma DivMonotone(a: int, b: int, d: int)
    requires a <= b && d > 0
    ensures a / d <= b / d
  {
    if a / d > b / d {
      Grid.MulMonotone(b / d + 1, a / d, d);
      assert false;
    }
  }

  lemma DivExact(k: int, d: int)
    requires d > 0
    ensures (k * d) / d == k
  {
    var q, r := (k * d) / d, (k * d) % d;
    assert (k - q) * d == r;
    if k > q {
      Grid.MulMonotone(1, k - q, d);
    } else if k < q {
      Grid.MulMonotone(k - q, -1, d);
    }
  }

  /** The normalisation keeps the order of energies, and over a proper range it
      maps min to black and max to white. */
  lemma GreyLevelMonotone(e1: int, e2: int, min: Ext, max: Ext)
    requires e1 <= e2
    requires min.Fin? && max.Fin? ==> min.v <= max.v
    ensures GreyLevel(e1, min, max) <= GreyLevel(e2, min, max)
    ensures min.Fin? && max.Fin? && min.v < max.v ==>
      GreyLevel(min.v, min, max) == 0 && GreyLevel(max.v, min, max) == 255
  {
    if min.Fin? && max.Fin? && min.v < max.v {
      var d := max.v - min.v;
      DivMonotone((e1 - min.v) * 255, (e2 - min.v) * 255, d);
      DivExact(255, d);
      assert (max.v - min.v) * 255 == 255 * d;
    }
  }

  /** The bytes the loop writes for a whole energy buffer, four per cell. */
  function Rendered(cells: seq<Cell>, min: Ext, max: Ext): (px: seq<Byte>)
    ensures |px| == 4 * |cells|
  {
    if |cells| == 0 then []
    else Rendered(cells[..|cells| - 1], min, max) + PixelFor(cells[|cells| - 1], min, max)
  }

  /** Byte j of the rendering is channel j % 4 of the pixel for cell j / 4. */
  lemma {:induction false} RenderedAt(cells: seq<Cell>, min: Ext, max: Ext, j: int)
    requires 0 <= j < 4 * |cells|
    ensures Rendered(cells, min, max)[j] == PixelFor(cells[j / 4], min, max)[j % 4]
    decreases |cells|
  {
    var n := |cells| - 1;
    var init := cells[..n];
    var front, back := Rendered(init, min, max), PixelFor(cells[n], min, max);
    assert Rendered(cells, min, max) == front + back;
    if j < 4 * n {
      RenderedAt(init, min, max, j);
      assert (front + back)[j] == front[j];
      assert init[j / 4] == cells[j / 4];
    } else {
      assert (front + back)[j] == back[j - 4 * n];
      assert j / 4 == n && j % 4 == j - 4 * n;
    }
  }

  /** The four bytes of pixel p. */
  function PixelOf(px: seq<Byte>, p: nat): seq<Byte>
    requires 4 * p + 4 <= |px|
  {
    px[4 * p..4 * p + 4]
  }

  /** A four-byte window of a concatenation lies in one of its parts. */
  lemma WindowOfConcat(front: seq<Byte>, back: seq<Byte>, p: nat)
    requires |front| % 4 == 0 && |back| == 4 && 4 * p + 4 <= |front| + 4
    ensures 4 * p + 4 <= |front| ==> (front + back)[4 * p..4 * p + 4] == front[4 * p..4 * p + 4]
    ensures 4 * p == |front| ==> (front + back)[4 * p..4 * p + 4] == back
  {
  }

  /** The four bytes of pixel p are the pixel for cell p. */
  lemma {:induction false} RenderedSlice(cells: seq<Cell>, min: Ext, max: Ext, p: nat)
    requires p < |cells|
    ensures PixelOf(Rendered(cells, min, max), p) == PixelFor(cells[p], min, max)
    decreases |cells|
  {
    var n := |cells| - 1;
    var init := cells[..n];
    var front, back := Rendered(init, min, max), PixelFor(cells[n], min, max);
    assert Rendered(cells, min, max) == front + back;
    WindowOfConcat(front, back, p);
    if p < n {
      RenderedSlice(init, min, max, p);
      assert init[p] == cells[p];
    }
  }

  /** Pixel p of the rendering is the pixel for cell p: red exactly when the
      cell is -inf. */
  lemma RenderedPixel(cells: seq<Cell>, min: Ext, max: Ext, p: nat)
    requires p < |cells|
    ensures PixelOf(Rendered(cells, min, max), p) == PixelFor(cells[p], min, max)
    ensures PixelOf(Rendered(cells, min, max), p) == Red <==> cells[p] == NegInf
  {
    RenderedSlice(cells, min, max, p);
    PixelForRedIffMarked(cells[p], min, max);
  }

  /** Pixel p of the rendering, by the kind of cell p. */
  lemma RenderedCell(cells: seq<Cell>, min: Ext, max: Ext, p: nat)
    requires p < |cells|
    ensures 4 * p + 4 <= |Rendered(cells, min, max)|
    ensures cells[p] == NegInf ==> PixelOf(Rendered(cells, min, max), p) == Red
    ensures cells[p].Fin? ==> PixelOf(Rendered(cells, min, max), p) == Grey(GreyLevel(cells[p].v, min, max))
    ensures cells[p].Fin? ==> PixelOf(Rendered(cells, min, max), p) != Red
  {
    RenderedPixel(cells, min, max, p);
  }

  /** The render loop over byte indices i = 0, 4, 8, ...: `pixels.set` writes
      the four bytes of pixel i / 4. */
  method RenderPixels(pixels: array<Byte>, energy: array<Cell>, min: Ext, max: Ext)
    requires pixels.Length == 4 * energy.Length
    modifies pixels
    ensures pixels[..] == Rendered(energy[..], min, max)
  {
    var i := 0;
    ghost var done := 0;
    while i < pixels.Length
      invariant i == 4 * done && 0 <= done <= energy.Length
      invariant forall j :: 0 <= j < i ==> pixels[j] == PixelFor(energy[j / 4], min, max)[j % 4]
    {
      assert i / 4 == done;
      var px := if energy[i / 4] == NegInf then Red else Grey(GreyLevel(energy[i / 4].v, min, max));
      assert px == PixelFor(energy[done], min, max);
      pixels[i] := px[0];
      pixels[i + 1] := px[1];
      pixels[i + 2] := px[2];
      pixels[i + 3] := px[3];
      forall j | i <= j < i + 4
        ensures j / 4 == done && j % 4 == j - i
      {
      }
      i := i + 4;
      done := done + 1;
    }
    forall j | 0 <= j < pixels.Length
      ensures pixels[j] == Rendered(energy[..], min, max)[j]
    {
      RenderedAt(energy[..], min, max, j);
    }
  }
}

/**
 * Flat row-major rasters: a `width*height` image is a sequence indexed by
 * `y*width + x`. The lemmas here are the nonlinear arithmetic facts that the
 * morphology, the grid rasteriser and the door scan need about that index.
 */
module Raster {
  /** One element of a `Uint8Array`. */
  type Byte = b: int | 0 <= b < 256

  /** The flat index of pixel (x, y) in an image `w` pixels wide. */
  function Idx(x: int, y: int, w: int): int { y * w + x }

  /** Multiplying by a non-negative width keeps order; the step of every bound proof below and of the grid's ceiling division. */
  lemma MulMonotone(a: int, b: int, w: int)
    requires a <= b && 0 <= w
    ensures a * w <= b * w
  {
    assert b * w - a * w == (b - a) * w;
  }

  /**
   * Every in-bounds pixel has an index inside the buffer: what each array
   * read of the dilation, erosion, hole fill, vote count and door scan needs.
   */
  lemma IndexInRange(x: int, y: int, w: int, h: int)
    requires 0 <= x < w && 0 <= y < h
    ensures 0 <= Idx(x, y, w) < w * h
  {
    MulMonotone(y, h - 1, w);
    MulMonotone(0, y, w);
  }

  /** The index determines the pixel: division and remainder recover (x, y). This links the per-index specifications of morph.dfy to per-pixel reads. */
  lemma IndexDecode(x: int, y: int, w: int)
    requires 0 <= x < w && 0 <= y
    ensures Idx(x, y, w) / w == y && Idx(x, y, w) % w == x
  {
    var k := Idx(x, y, w);
    var q, r := k / w, k % w;
    assert k == q * w + r;
    assert (y - q) * w == r - x;
    if y > q {
      MulMonotone(1, y - q, w);
    } else if y < q {
      MulMonotone(1, q - y, w);
    }
  }

  /** Distinct pixels have distinct indices, so the hole fill's `visited[idx] = 1` marks only one pixel. */
  lemma IndexInjective(x: int, y: int, x': int, y': int, w: int)
    requires 0 <= x < w && 0 <= y && 0 <= x' < w && 0 <= y'
    requires Idx(x, y, w) == Idx(x', y', w)
    ensures x == x' && y == y'
  {
    IndexDecode(x, y, w);
    IndexDecode(x', y', w);
  }

  /** Every index inside the buffer is the index of an in-bounds pixel; used by those specifications and by the hole fill's last loop over `i < width*height`. */
  lemma DecodeInRange(k: int, w: nat, h: nat)
    requires 0 <= k < w * h
    ensures 0 <= k % w < w && 0 <= k / w < h && Idx(k % w, k / w, w) == k
  {
    if k / w >= h {
      MulMonotone(h, k / w, w);
    }
  }

  /** The positions of a row scan, one past the end included, stay within the buffer; used by the row loops of dilation and erosion. */
  lemma RowSpan(x: int, y: int, w: int, h: int)
    requires 0 <= x <= w && 0 <= y < h
    ensures 0 <= Idx(x, y, w) <= w * h
  {
    MulMonotone(y + 1, h, w);
    MulMonotone(0, y, w);
  }

  /**
   * A read of a mask with out-of-bounds pixels reading as 0, as the `get`
   * closures of morph.js do.
   */
  function At(m: seq<Byte>, w: nat, h: nat, x: int, y: int): Byte
    requires |m| == w * h
  {
    if x < 0 || y < 0 || x >= w || y >= h then 0
    else IndexInRange(x, y, w, h); m[Idx(x, y, w)]
  }
}

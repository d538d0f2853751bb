/**
 * Binary morphology on flat row-major masks (src/morph.js): thresholding,
 * cluster selection, 3x3 dilation and erosion with zero padding, their
 * compositions, and hole filling by a breadth-first flood from the border.
 * Every operator allocates a new mask of `width*height` bytes and leaves its
 * input untouched.
 */
module Morph {
  import opened Raster
  import opened Cells

  // ---------------------------------------------------------------------
  // Specifications

  /** The mask thresholdImageFloat builds: 1 where the value reaches `thr`. */
  function Thresholded(gray: seq<real>, w: nat, h: nat, thr: real): (r: seq<Byte>)
    ensures |r| == w * h
  {
    seq(w * h, i requires 0 <= i < w * h => if i < |gray| && gray[i] >= thr then 1 else 0)
  }

  /** The mask maskFromClusters builds: 1 where the pixel's cluster is selected. */
  function Selected(idxMap: seq<int>, w: nat, h: nat, selected: seq<int>): (r: seq<Byte>)
    ensures |r| == w * h
  {
    seq(w * h, i requires 0 <= i < w * h => if i < |idxMap| && idxMap[i] in selected then 1 else 0)
  }

  /** Some pixel of the 3x3 window around (x, y) is set. */
  predicate AnyInWindow(m: seq<Byte>, w: nat, h: nat, x: int, y: int)
    requires |m| == w * h
  {
    exists yy, xx | y - 1 <= yy <= y + 1 && x - 1 <= xx <= x + 1 :: At(m, w, h, xx, yy) != 0
  }

  /** Every pixel of the 3x3 window around (x, y) is set (an outside pixel never is). */
  predicate AllInWindow(m: seq<Byte>, w: nat, h: nat, x: int, y: int)
    requires |m| == w * h
  {
    forall yy, xx | y - 1 <= yy <= y + 1 && x - 1 <= xx <= x + 1 :: At(m, w, h, xx, yy) != 0
  }

  function Dilated(m: seq<Byte>, w: nat, h: nat): (r: seq<Byte>)
    requires |m| == w * h
    ensures |r| == w * h
  {
    seq(w * h, k requires 0 <= k < w * h =>
      DecodeInRange(k, w, h); if AnyInWindow(m, w, h, k % w, k / w) then 1 else 0)
  }

  function Eroded(m: seq<Byte>, w: nat, h: nat): (r: seq<Byte>)
    requires |m| == w * h
    ensures |r| == w * h
  {
    seq(w * h, k requires 0 <= k < w * h =>
      DecodeInRange(k, w, h); if AllInWindow(m, w, h, k % w, k / w) then 1 else 0)
  }

  /** The logical complement, as fillHoles builds it: 0 where set, 1 where clear. */
  function Inverted(m: seq<Byte>): (r: seq<Byte>)
    ensures |r| == |m|
  {
    seq(|m|, i requires 0 <= i < |m| => if m[i] != 0 then 0 else 1)
  }

  /** The clear pixels of a mask, as cells. */
  ghost function FreePixels(m: seq<Byte>, w: nat, h: nat): set<Cell>
    requires |m| == w * h
  {
    set x, y | 0 <= x < w && 0 <= y < h && At(m, w, h, x, y) == 0 :: (x, y)
  }

  /** The pixels on the frame of the image: first or last column or row. */
  ghost function BorderPixels(w: nat, h: nat): set<Cell> {
    set x, y | 0 <= x < w && 0 <= y < h && (x == 0 || y == 0 || x == w - 1 || y == h - 1) :: (x, y)
  }

  /** A clear pixel leaks to the border when a 4-connected run of clear pixels joins it to the frame. */
  ghost predicate Leaks(m: seq<Byte>, w: nat, h: nat, x: int, y: int)
    requires |m| == w * h
  {
    Connected(FreePixels(m, w, h), BorderPixels(w, h), (x, y))
  }

  /** The result of fillHoles: every clear pixel that does not leak to the border becomes 1. */
  ghost function HolesFilled(m: seq<Byte>, w: nat, h: nat): (r: seq<Byte>)
    requires |m| == w * h
    ensures |r| == w * h
  {
    seq(w * h, k requires 0 <= k < w * h =>
      DecodeInRange(k, w, h); if m[k] == 0 && !Leaks(m, w, h, k % w, k / w) then 1 else m[k])
  }

  lemma DilatedAt(m: seq<Byte>, w: nat, h: nat, x: int, y: int)
    requires |m| == w * h && 0 <= x < w && 0 <= y < h
    ensures 0 <= Idx(x, y, w) < w * h
    ensures Dilated(m, w, h)[Idx(x, y, w)] == if AnyInWindow(m, w, h, x, y) then 1 else 0
  {
    IndexInRange(x, y, w, h);
    IndexDecode(x, y, w);
  }

  lemma ErodedAt(m: seq<Byte>, w: nat, h: nat, x: int, y: int)
    requires |m| == w * h && 0 <= x < w && 0 <= y < h
    ensures 0 <= Idx(x, y, w) < w * h
    ensures Eroded(m, w, h)[Idx(x, y, w)] == if AllInWindow(m, w, h, x, y) then 1 else 0
  {
    IndexInRange(x, y, w, h);
    IndexDecode(x, y, w);
  }

  // ---------------------------------------------------------------------
  // Operators

  /** thresholdImageFloat: the loop runs over `gray`; writes past the mask are dropped, as a typed array drops them. */
  method ThresholdImageFloat(gray: seq<real>, w: nat, h: nat, thr: real) returns (mask: array<Byte>)
    ensures mask.Length == w * h
    ensures forall i | 0 <= i < w * h :: mask[i] == (if i < |gray| && gray[i] >= thr then 1 else 0)
    ensures mask[..] == Thresholded(gray, w, h, thr)
  {
    mask := new Byte[w * h](_ => 0);
    for i := 0 to |gray|
      invariant forall k | 0 <= k < w * h :: mask[k] == (if k < i && gray[k] >= thr then 1 else 0)
    {
      if i < mask.Length {
        mask[i] := if gray[i] >= thr then 1 else 0;
      }
    }
  }

  /**
   * maskFromClusters: 1 exactly where the pixel's cluster index is selected.
   * The colour tolerance is accepted and ignored, as in the source.
   */
  method MaskFromClusters(idxMap: seq<int>, w: nat, h: nat, selected: seq<int>, tolerance: real)
    returns (mask: array<Byte>)
    ensures mask.Length == w * h
    ensures forall i | 0 <= i < w * h :: mask[i] == (if i < |idxMap| && idxMap[i] in selected then 1 else 0)
    ensures mask[..] == Selected(idxMap, w, h, selected)
  {
    mask := new Byte[w * h](_ => 0);
    for i := 0 to |idxMap|
      invariant forall k | 0 <= k < w * h :: mask[k] == (if k < i && idxMap[k] in selected then 1 else 0)
    {
      if i < mask.Length {
        mask[i] := if idxMap[i] in selected then 1 else 0;
      }
    }
  }

  /** The `v = v || get(x+i, y+j)` double loop of dilate. */
  method WindowAny(m: seq<Byte>, w: nat, h: nat, x: int, y: int) returns (v: bool)
    requires |m| == w * h
    ensures v == AnyInWindow(m, w, h, x, y)
  {
    v := false;
    for j := -1 to 2
      invariant v == exists yy, xx | y - 1 <= yy < y + j && x - 1 <= xx <= x + 1 :: At(m, w, h, xx, yy) != 0
    {
      for i := -1 to 2
        invariant v == ((exists yy, xx | y - 1 <= yy < y + j && x - 1 <= xx <= x + 1 :: At(m, w, h, xx, yy) != 0)
                        || (exists yy, xx | yy == y + j && x - 1 <= xx < x + i :: At(m, w, h, xx, yy) != 0))
      {
        v := v || At(m, w, h, x + i, y + j) != 0;
      }
    }
  }

  /** The `v = v && get(x+i, y+j)` double loop of erode. */
  method WindowAll(m: seq<Byte>, w: nat, h: nat, x: int, y: int) returns (v: bool)
    requires |m| == w * h
    ensures v == AllInWindow(m, w, h, x, y)
  {
    v := true;
    for j := -1 to 2
      invariant v == forall yy, xx | y - 1 <= yy < y + j && x - 1 <= xx <= x + 1 :: At(m, w, h, xx, yy) != 0
    {
      for i := -1 to 2
        invariant v == ((forall yy, xx | y - 1 <= yy < y + j && x - 1 <= xx <= x + 1 :: At(m, w, h, xx, yy) != 0)
                        && (forall yy, xx | yy == y + j && x - 1 <= xx < x + i :: At(m, w, h, xx, yy) != 0))
      {
        v := v && At(m, w, h, x + i, y + j) != 0;
      }
    }
  }

  /** The first `n` pixels of `out` already hold their values in `spec`. */
  ghost predicate Agrees(out: seq<Byte>, spec: seq<Byte>, n: int) {
    0 <= n <= |spec| && |out| == |spec| && forall k | 0 <= k < n :: out[k] == spec[k]
  }

  /** One row of Dilate: the pixels of row `y` get their values; the rows above keep theirs. */
  method DilateRow(m: seq<Byte>, out: array<Byte>, w: nat, h: nat, y: nat, ghost spec: seq<Byte>)
    requires |m| == w * h && out.Length == w * h && y < h && spec == Dilated(m, w, h)
    requires Agrees(out[..], spec, Idx(0, y, w))
    modifies out
    ensures Agrees(out[..], spec, Idx(0, y + 1, w))
  {
    RowSpan(0, y, w, h);
    for x := 0 to w
      invariant Agrees(out[..], spec, Idx(x, y, w))
    {
      RowSpan(x + 1, y, w, h);
      var v := WindowAny(m, w, h, x, y);
      DilatedAt(m, w, h, x, y);
      out[Idx(x, y, w)] := if v then 1 else 0;
    }
    assert Idx(w, y, w) == Idx(0, y + 1, w);
  }

  /** dilate: a pixel is set when any pixel of its 3x3 window is set. */
  method Dilate(bin: array<Byte>, w: nat, h: nat) returns (out: array<Byte>)
    requires bin.Length == w * h
    ensures out[..] == Dilated(bin[..], w, h)
  {
    ghost var spec := Dilated(bin[..], w, h);
    out := new Byte[w * h](_ => 0);
    for y := 0 to h
      invariant Agrees(out[..], spec, Idx(0, y, w))
    {
      DilateRow(bin[..], out, w, h, y, spec);
    }
    assert Idx(0, h, w) == w * h;
  }

  /** One row of Erode: the pixels of row `y` get their values; the rows above keep theirs. */
  method ErodeRow(m: seq<Byte>, out: array<Byte>, w: nat, h: nat, y: nat, ghost spec: seq<Byte>)
    requires |m| == w * h && out.Length == w * h && y < h && spec == Eroded(m, w, h)
    requires Agrees(out[..], spec, Idx(0, y, w))
    modifies out
    ensures Agrees(out[..], spec, Idx(0, y + 1, w))
  {
    RowSpan(0, y, w, h);
    for x := 0 to w
      invariant Agrees(out[..], spec, Idx(x, y, w))
    {
      RowSpan(x + 1, y, w, h);
      var v := WindowAll(m, w, h, x, y);
      ErodedAt(m, w, h, x, y);
      out[Idx(x, y, w)] := if v then 1 else 0;
    }
    assert Idx(w, y, w) == Idx(0, y + 1, w);
  }

  /** erode: a pixel is set when every pixel of its 3x3 window is set. */
  method Erode(bin: array<Byte>, w: nat, h: nat) returns (out: array<Byte>)
    requires bin.Length == w * h
    ensures out[..] == Eroded(bin[..], w, h)
  {
    ghost var spec := Eroded(bin[..], w, h);
    out := new Byte[w * h](_ => 0);
    for y := 0 to h
      invariant Agrees(out[..], spec, Idx(0, y, w))
    {
      ErodeRow(bin[..], out, w, h, y, spec);
    }
    assert Idx(0, h, w) == w * h;
  }

  /** closing = dilation, then erosion. */
  method Closing(bin: array<Byte>, w: nat, h: nat) returns (out: array<Byte>)
    requires bin.Length == w * h
    ensures out[..] == Eroded(Dilated(bin[..], w, h), w, h)
  {
    var d := Dilate(bin, w, h);
    out := Erode(d, w, h);
  }

  /** opening = erosion, then dilation. */
  method Opening(bin: array<Byte>, w: nat, h: nat) returns (out: array<Byte>)
    requires bin.Length == w * h
    ensures out[..] == Dilated(Eroded(bin[..], w, h), w, h)
  {
    var e := Erode(bin, w, h);
    out := Dilate(e, w, h);
  }

  /** edgeRefine is one erosion. */
  method EdgeRefine(bin: array<Byte>, w: nat, h: nat) returns (out: array<Byte>)
    requires bin.Length == w * h
    ensures out[..] == Eroded(bin[..], w, h)
  {
    out := Erode(bin, w, h);
  }

  // ---------------------------------------------------------------------
  // Hole filling

  /** The `visited` buffer of fillHoles marks exactly the cells of `seen`. */
  ghost predicate Mirrors(visited: seq<Byte>, w: nat, h: nat, seen: set<Cell>)
    requires |visited| == w * h
  {
    && (forall c | c in seen :: 0 <= c.0 < w && 0 <= c.1 < h)
    && (forall x, y | 0 <= x < w && 0 <= y < h :: At(visited, w, h, x, y) != 0 <==> (x, y) in seen)
  }

  /** The inverted image is set exactly on the clear pixels. */
  lemma InvertedIsFree(m: seq<Byte>, w: nat, h: nat, x: int, y: int)
    requires |m| == w * h
    ensures (x, y) in FreePixels(m, w, h) <==> 0 <= x < w && 0 <= y < h && At(Inverted(m), w, h, x, y) != 0
  {
    if 0 <= x < w && 0 <= y < h {
      IndexInRange(x, y, w, h);
    }
  }

  /**
   * The `push` closure of fillHoles: an in-bounds pixel of the inverted image
   * that is not yet visited is marked and queued; anything else is ignored.
   */
  method Push(inv: seq<Byte>, visited: array<Byte>, w: nat, h: nat, q: seq<Cell>, ghost seen: set<Cell>, x: int, y: int)
    returns (q': seq<Cell>, ghost seen': set<Cell>)
    requires |inv| == w * h && visited.Length == w * h
    requires Mirrors(visited[..], w, h, seen)
    modifies visited
    ensures Mirrors(visited[..], w, h, seen')
    ensures var added := 0 <= x < w && 0 <= y < h && At(inv, w, h, x, y) != 0 && (x, y) !in seen;
            if added then seen' == seen + {(x, y)} && q' == q + [(x, y)] else seen' == seen && q' == q
  {
    if x < 0 || y < 0 || x >= w || y >= h {
      return q, seen;
    }
    IndexInRange(x, y, w, h);
    var idx := Idx(x, y, w);
    if inv[idx] == 0 || visited[idx] != 0 {
      return q, seen;
    }
    visited[idx] := 1;
    q', seen' := q + [(x, y)], seen + {(x, y)};
    forall x', y' | 0 <= x' < w && 0 <= y' < h
      ensures At(visited[..], w, h, x', y') != 0 <==> (x', y') in seen'
    {
      IndexInRange(x', y', w, h);
      if Idx(x', y', w) == idx {
        IndexInjective(x', y', x, y, w);
      }
    }
  }

  /** The clear pixels of the first `n` columns of the top and bottom rows are in `seen`. */
  ghost predicate TopBottomSeen(free: set<Cell>, seen: set<Cell>, n: int, h: int) {
    forall xx | 0 <= xx < n :: ((xx, 0) in free ==> (xx, 0) in seen) && ((xx, h - 1) in free ==> (xx, h - 1) in seen)
  }

  /** The clear pixels of the first `n` rows of the left and right columns are in `seen`. */
  ghost predicate LeftRightSeen(free: set<Cell>, seen: set<Cell>, n: int, w: int) {
    forall yy | 0 <= yy < n :: ((0, yy) in free ==> (0, yy) in seen) && ((w - 1, yy) in free ==> (w - 1, yy) in seen)
  }

  /** One more column of the top and bottom rows, on a larger set. */
  lemma TopBottomStep(free: set<Cell>, seen: set<Cell>, seen': set<Cell>, n: int, h: int)
    requires TopBottomSeen(free, seen, n, h) && seen <= seen'
    requires ((n, 0) in free ==> (n, 0) in seen') && ((n, h - 1) in free ==> (n, h - 1) in seen')
    ensures TopBottomSeen(free, seen', n + 1, h)
  {
  }

  /** Marking more pixels keeps the top and bottom rows marked. */
  lemma TopBottomGrows(free: set<Cell>, seen: set<Cell>, seen': set<Cell>, n: int, h: int)
    requires TopBottomSeen(free, seen, n, h) && seen <= seen'
    ensures TopBottomSeen(free, seen', n, h)
  {
  }

  /** One more row of the left and right columns, on a larger set. */
  lemma LeftRightStep(free: set<Cell>, seen: set<Cell>, seen': set<Cell>, n: int, w: int)
    requires LeftRightSeen(free, seen, n, w) && seen <= seen'
    requires ((0, n) in free ==> (0, n) in seen') && ((w - 1, n) in free ==> (w - 1, n) in seen')
    ensures LeftRightSeen(free, seen', n + 1, w)
  {
  }

  lemma FrameSeen(m: seq<Byte>, w: nat, h: nat, seen: set<Cell>)
    requires |m| == w * h
    requires TopBottomSeen(FreePixels(m, w, h), seen, w, h) && LeftRightSeen(FreePixels(m, w, h), seen, h, w)
    ensures BorderPixels(w, h) * FreePixels(m, w, h) <= seen
  {
    forall c | c in BorderPixels(w, h) * FreePixels(m, w, h)
      ensures c in seen
    {
      var x, y := c.0, c.1;
      assert 0 <= x < w && 0 <= y < h;
      if y == 0 || y == h - 1 {
        assert (x, 0) in FreePixels(m, w, h) ==> (x, 0) in seen;
        assert (x, h - 1) in FreePixels(m, w, h) ==> (x, h - 1) in seen;
      } else {
        assert (0, y) in FreePixels(m, w, h) ==> (0, y) in seen;
        assert (w - 1, y) in FreePixels(m, w, h) ==> (w - 1, y) in seen;
      }
    }
  }

  /**
   * The queue discipline of the border loops: every marked pixel is clear,
   * on the border, queued and connected to the border, and only marked
   * pixels are queued.
   */
  ghost predicate Frontier(free: set<Cell>, border: set<Cell>, q: seq<Cell>, seen: set<Cell>) {
    && seen <= free && seen <= border
    && (forall c | c in q :: c in seen)
    && (forall c | c in seen :: c in q && Connected(free, border, c))
  }

  /** A `push` of a frame pixel, with what the border loops need to know about it. */
  method PushFrame(inv: seq<Byte>, visited: array<Byte>, w: nat, h: nat, ghost m: seq<Byte>,
                   ghost free: set<Cell>, q: seq<Cell>, ghost seen: set<Cell>, x: int, y: int)
    returns (q': seq<Cell>, ghost seen': set<Cell>)
    requires |m| == w * h && |inv| == w * h && visited.Length == w * h
    requires free == FreePixels(m, w, h)
    requires inv == Inverted(m) && Mirrors(visited[..], w, h, seen)
    requires Frontier(free, BorderPixels(w, h), q, seen)
    requires 0 <= x < w && 0 <= y < h ==> (x, y) in BorderPixels(w, h)
    modifies visited
    ensures Mirrors(visited[..], w, h, seen') && seen <= seen'
    ensures Frontier(free, BorderPixels(w, h), q', seen')
    ensures (x, y) in free ==> (x, y) in seen'
    ensures seen' <= seen + {(x, y)}
  {
    InvertedIsFree(m, w, h, x, y);
    if (x, y) in free {
      ConnectedSource(free, BorderPixels(w, h), (x, y));
    }
    q', seen' := Push(inv, visited, w, h, q, seen, x, y);
  }

  /** One turn of a border loop: the pushes of two frame pixels. */
  method PushFramePair(inv: seq<Byte>, visited: array<Byte>, w: nat, h: nat, ghost m: seq<Byte>,
                       ghost free: set<Cell>, q: seq<Cell>, ghost seen: set<Cell>, a: Cell, b: Cell)
    returns (q': seq<Cell>, ghost seen': set<Cell>)
    requires |m| == w * h && |inv| == w * h && visited.Length == w * h
    requires free == FreePixels(m, w, h)
    requires inv == Inverted(m) && Mirrors(visited[..], w, h, seen)
    requires Frontier(free, BorderPixels(w, h), q, seen)
    requires 0 <= a.0 < w && 0 <= a.1 < h ==> a in BorderPixels(w, h)
    requires 0 <= b.0 < w && 0 <= b.1 < h ==> b in BorderPixels(w, h)
    modifies visited
    ensures Mirrors(visited[..], w, h, seen') && seen <= seen'
    ensures Frontier(free, BorderPixels(w, h), q', seen')
    ensures (a in free ==> a in seen') && (b in free ==> b in seen')
    ensures seen' <= seen + {a, b}
  {
    ghost var mid;
    q', mid := PushFrame(inv, visited, w, h, m, free, q, seen, a.0, a.1);
    q', seen' := PushFrame(inv, visited, w, h, m, free, q', mid, b.0, b.1);
  }

  /** Every cell of `seen` lies in the top or the bottom row. */
  ghost predicate OnTopBottom(seen: set<Cell>, h: int) {
    forall c | c in seen :: c.1 == 0 || c.1 == h - 1
  }

  /**
   * The first border loop of fillHoles: the clear pixels of the top and
   * bottom rows are marked and queued, and no other pixel is.
   */
  method SeedTopBottom(inv: seq<Byte>, visited: array<Byte>, w: nat, h: nat, ghost m: seq<Byte>)
    returns (q: seq<Cell>, ghost seen: set<Cell>)
    requires |m| == w * h && |inv| == w * h && visited.Length == w * h
    requires inv == Inverted(m) && Mirrors(visited[..], w, h, {})
    modifies visited
    ensures Mirrors(visited[..], w, h, seen)
    ensures Frontier(FreePixels(m, w, h), BorderPixels(w, h), q, seen)
    ensures TopBottomSeen(FreePixels(m, w, h), seen, w, h)
    ensures OnTopBottom(seen, h)
  {
    ghost var free := FreePixels(m, w, h);
    q, seen := [], {};
    for x := 0 to w
      invariant Mirrors(visited[..], w, h, seen)
      invariant Frontier(free, BorderPixels(w, h), q, seen)
      invariant TopBottomSeen(free, seen, x, h)
      invariant OnTopBottom(seen, h)
    {
      ghost var before := seen;
      q, seen := PushFramePair(inv, visited, w, h, m, free, q, seen, (x, 0), (x, h - 1));
      TopBottomStep(free, before, seen, x, h);
    }
  }

  /** The second border loop of fillHoles: the clear pixels of the left and right columns are marked and queued. */
  method SeedLeftRight(inv: seq<Byte>, visited: array<Byte>, w: nat, h: nat, ghost m: seq<Byte>,
                       q0: seq<Cell>, ghost seen0: set<Cell>)
    returns (q: seq<Cell>, ghost seen: set<Cell>)
    requires |m| == w * h && |inv| == w * h && visited.Length == w * h
    requires inv == Inverted(m) && Mirrors(visited[..], w, h, seen0)
    requires Frontier(FreePixels(m, w, h), BorderPixels(w, h), q0, seen0)
    requires TopBottomSeen(FreePixels(m, w, h), seen0, w, h)
    modifies visited
    ensures Mirrors(visited[..], w, h, seen)
    ensures Frontier(FreePixels(m, w, h), BorderPixels(w, h), q, seen)
    ensures BorderPixels(w, h) * FreePixels(m, w, h) <= seen
  {
    ghost var free := FreePixels(m, w, h);
    q, seen := q0, seen0;
    for y := 0 to h
      invariant Mirrors(visited[..], w, h, seen)
      invariant Frontier(free, BorderPixels(w, h), q, seen)
      invariant TopBottomSeen(free, seen, w, h)
      invariant LeftRightSeen(free, seen, y, w)
    {
      ghost var before := seen;
      q, seen := PushFramePair(inv, visited, w, h, m, free, q, seen, (0, y), (w - 1, y));
      TopBottomGrows(free, before, seen, w, h);
      LeftRightStep(free, before, seen, y, w);
    }
    FrameSeen(m, w, h, seen);
  }

  /**
   * What holds of the buffers throughout the breadth-first loop: `inv` is the
   * inverted image, `visited` marks exactly `seen`, and the marked pixels are
   * clear and connected to the border.
   */
  ghost predicate Marks(inv: seq<Byte>, visited: seq<Byte>, w: nat, h: nat, m: seq<Byte>, free: set<Cell>, seen: set<Cell>) {
    && |m| == w * h && |inv| == w * h && |visited| == w * h
    && free == FreePixels(m, w, h) && inv == Inverted(m)
    && Mirrors(visited, w, h, seen) && seen <= free
    && (forall c' | c' in seen :: Connected(free, BorderPixels(w, h), c'))
  }

  /** The `push` of one neighbour of the dequeued pixel `c`. */
  method PushNeighbour(inv: seq<Byte>, visited: array<Byte>, w: nat, h: nat, ghost m: seq<Byte>,
                       ghost free: set<Cell>, c: Cell, n: Cell, q: seq<Cell>, ghost seen: set<Cell>)
    returns (q': seq<Cell>, ghost seen': set<Cell>)
    requires Marks(inv, visited[..], w, h, m, free, seen)
    requires c in seen && n in Neighbours(c)
    modifies visited
    ensures Marks(inv, visited[..], w, h, m, free, seen') && seen <= seen'
    ensures Grows(free, BorderPixels(w, h), q, seen, q', seen')
    ensures n in free ==> n in seen'
    ensures seen' <= seen + {n} && (q' == q || q' == q + [n])
  {
    InvertedIsFree(m, w, h, n.0, n.1);
    if n in free {
      ConnectedStep(free, BorderPixels(w, h), c, n);
    }
    q', seen' := Push(inv, visited, w, h, q, seen, n.0, n.1);
  }

  /** Since `q, seen`, only cells of `ns` were marked, and the queue was only appended to. */
  ghost predicate OnlyAppended(ns: seq<Cell>, q: seq<Cell>, seen: set<Cell>, q': seq<Cell>, seen': set<Cell>) {
    && |q| <= |q'| && q'[..|q|] == q
    && forall p | p in seen' - seen :: p in ns
  }

  /** A push of a cell of `ns` keeps OnlyAppended. */
  lemma OnlyAppendedStep(ns: seq<Cell>, n: Cell, q: seq<Cell>, seen: set<Cell>, q': seq<Cell>, seen': set<Cell>,
                         q'': seq<Cell>, seen'': set<Cell>)
    requires OnlyAppended(ns, q, seen, q', seen') && n in ns
    requires seen'' <= seen' + {n} && (q'' == q' || q'' == q' + [n])
    ensures OnlyAppended(ns, q, seen, q'', seen'')
  {
    assert q''[..|q'|] == q';
    assert q''[..|q|] == q'[..|q|];
  }

  /** One step of the flood: push the four neighbours of the dequeued pixel `c`. */
  method VisitNeighbours(inv: seq<Byte>, visited: array<Byte>, w: nat, h: nat, ghost m: seq<Byte>,
                         ghost free: set<Cell>, c: Cell, q: seq<Cell>, ghost seen: set<Cell>)
    returns (q': seq<Cell>, ghost seen': set<Cell>)
    requires Marks(inv, visited[..], w, h, m, free, seen) && c in seen
    modifies visited
    ensures Marks(inv, visited[..], w, h, m, free, seen')
    ensures Grows(free, BorderPixels(w, h), q, seen, q', seen')
    ensures forall n | n in Neighbours(c) && n in free :: n in seen'
    ensures forall p | p in seen' - seen :: p in Neighbours(c)
    ensures |q| <= |q'| && q'[..|q|] == q
  {
    ghost var border := BorderPixels(w, h);
    var ns := Neighbours(c);
    q', seen' := q, seen;
    for t := 0 to 4
      invariant Marks(inv, visited[..], w, h, m, free, seen')
      invariant Grows(free, border, q, seen, q', seen')
      invariant Covered(ns, t, free, seen')
      invariant OnlyAppended(ns, q, seen, q', seen')
    {
      var q'', seen'' := PushNeighbour(inv, visited, w, h, m, free, c, ns[t], q', seen');
      GrowsTrans(free, border, q, seen, q', seen', q'', seen'');
      CoveredStep(ns, t, free, seen', seen'');
      OnlyAppendedStep(ns, ns[t], q, seen, q', seen', q'', seen'');
      q', seen' := q'', seen'';
    }
  }

  /** When every marked pixel is queued, the flood invariant holds. */
  lemma FrontierFlooding(free: set<Cell>, border: set<Cell>, q: seq<Cell>, seen: set<Cell>)
    requires Frontier(free, border, q, seen)
    ensures Flooding(free, border, q, seen)
  {
  }

  /**
   * The breadth-first loop of fillHoles. When the queue is empty the marked
   * pixels are exactly the clear pixels that leak to the border.
   */
  method Spread(inv: seq<Byte>, visited: array<Byte>, w: nat, h: nat, ghost m: seq<Byte>,
                q0: seq<Cell>, ghost seen0: set<Cell>)
    returns (ghost seen: set<Cell>)
    requires |m| == w * h && |inv| == w * h && visited.Length == w * h
    requires inv == Inverted(m) && Mirrors(visited[..], w, h, seen0)
    requires Frontier(FreePixels(m, w, h), BorderPixels(w, h), q0, seen0)
    requires BorderPixels(w, h) * FreePixels(m, w, h) <= seen0
    modifies visited
    ensures Mirrors(visited[..], w, h, seen)
    ensures forall x, y | 0 <= x < w && 0 <= y < h :: (x, y) in seen <==> Leaks(m, w, h, x, y)
  {
    ghost var free := FreePixels(m, w, h);
    ghost var border := BorderPixels(w, h);
    var q := q0;
    seen := seen0;
    FrontierFlooding(free, border, q, seen);
    while |q| > 0
      invariant Marks(inv, visited[..], w, h, m, free, seen)
      invariant Flooding(free, border, q, seen) && border * free <= seen
      decreases free - seen, |q|
    {
      var c := q[0];
      var q', seen' := VisitNeighbours(inv, visited, w, h, m, free, c, q[1..], seen);
      FloodingStep(free, border, q, seen, q', seen');
      if seen' != seen {
        FewerUnmarked(free, seen, seen');
      }
      q, seen := q', seen';
    }
    FloodingDone(free, border, seen);
  }

  /** A fresh, all-zero `visited` buffer marks nothing. */
  lemma MirrorsNothing(visited: seq<Byte>, w: nat, h: nat)
    requires |visited| == w * h && forall k | 0 <= k < |visited| :: visited[k] == 0
    ensures Mirrors(visited, w, h, {})
  {
    forall x, y | 0 <= x < w && 0 <= y < h
      ensures At(visited, w, h, x, y) == 0
    {
      IndexInRange(x, y, w, h);
    }
  }

  /** The last loop of fillHoles: a copy of the input with every unvisited clear pixel set. */
  method MarkHoles(bin: array<Byte>, inv: array<Byte>, visited: array<Byte>, w: nat, h: nat, ghost seen: set<Cell>)
    returns (out: array<Byte>)
    requires bin.Length == w * h && inv.Length == w * h && visited.Length == w * h
    requires inv[..] == Inverted(bin[..]) && Mirrors(visited[..], w, h, seen)
    requires forall x, y | 0 <= x < w && 0 <= y < h :: (x, y) in seen <==> Leaks(bin[..], w, h, x, y)
    ensures out[..] == HolesFilled(bin[..], w, h)
  {
    ghost var spec := HolesFilled(bin[..], w, h);
    out := new Byte[w * h](i requires 0 <= i < w * h reads bin => bin[i]);
    for i := 0 to out.Length
      invariant forall k | 0 <= k < i :: out[k] == spec[k]
      invariant forall k | i <= k < out.Length :: out[k] == bin[k]
    {
      DecodeInRange(i, w, h);
      assert At(visited[..], w, h, i % w, i / w) == visited[i];
      if inv[i] != 0 && visited[i] == 0 {
        out[i] := 1;
      }
    }
  }

  /**
   * fillHoles: flood the inverted image breadth-first, 4-connected, from every
   * border pixel; every clear pixel the flood never reaches becomes 1.
   */
  method FillHoles(bin: array<Byte>, w: nat, h: nat) returns (out: array<Byte>)
    requires bin.Length == w * h
    ensures out[..] == HolesFilled(bin[..], w, h)
  {
    var inv := new Byte[w * h](_ => 0);
    for i := 0 to inv.Length
      invariant forall k | 0 <= k < i :: inv[k] == Inverted(bin[..])[k]
    {
      inv[i] := if bin[i] != 0 then 0 else 1;
    }
    assert inv[..] == Inverted(bin[..]);
    var visited := new Byte[w * h](_ => 0);
    MirrorsNothing(visited[..], w, h);
    var q;
    ghost var seen;
    q, seen := SeedTopBottom(inv[..], visited, w, h, bin[..]);
    q, seen := SeedLeftRight(inv[..], visited, w, h, bin[..], q, seen);
    seen := Spread(inv[..], visited, w, h, bin[..], q, seen);
    out := MarkHoles(bin, inv, visited, w, h, seen);
  }

  // ---------------------------------------------------------------------
  // Properties

  /** Erosion only clears: the centre pixel belongs to its own window. */
  lemma ErodedWithinInput(m: seq<Byte>, w: nat, h: nat, k: int)
    requires |m| == w * h && 0 <= k < w * h
    ensures Eroded(m, w, h)[k] != 0 ==> m[k] != 0
  {
    DecodeInRange(k, w, h);
    assert At(m, w, h, k % w, k / w) == m[k];
  }

  /** Dilation only sets: the centre pixel belongs to its own window. */
  lemma InputWithinDilated(m: seq<Byte>, w: nat, h: nat, k: int)
    requires |m| == w * h && 0 <= k < w * h
    ensures m[k] != 0 ==> Dilated(m, w, h)[k] == 1
  {
    DecodeInRange(k, w, h);
    assert At(m, w, h, k % w, k / w) == m[k];
  }

  ghost predicate OnFrame(w: nat, h: nat, x: int, y: int) {
    0 <= x < w && 0 <= y < h && (x == 0 || y == 0 || x == w - 1 || y == h - 1)
  }

  /** Erosion clears every frame pixel, because the window reaches outside the image, which reads as 0. */
  lemma ErodedClearsFrame(m: seq<Byte>, w: nat, h: nat, x: int, y: int)
    requires |m| == w * h && OnFrame(w, h, x, y)
    ensures 0 <= Idx(x, y, w) < w * h && Eroded(m, w, h)[Idx(x, y, w)] == 0
  {
    ErodedAt(m, w, h, x, y);
    if x == 0 {
      assert At(m, w, h, x - 1, y) == 0;
    } else if y == 0 {
      assert At(m, w, h, x, y - 1) == 0;
    } else if x == w - 1 {
      assert At(m, w, h, x + 1, y) == 0;
    } else {
      assert At(m, w, h, x, y + 1) == 0;
    }
  }

  lemma AtInverted(m: seq<Byte>, w: nat, h: nat, x: int, y: int)
    requires |m| == w * h && 0 <= x < w && 0 <= y < h
    ensures (At(Inverted(m), w, h, x, y) != 0) == (At(m, w, h, x, y) == 0)
  {
    IndexInRange(x, y, w, h);
  }

  /**
   * Duality of erosion and dilation, erode(b) == not dilate(not b), holds on
   * every pixel whose whole window lies inside the image.
   */
  lemma DualityInside(m: seq<Byte>, w: nat, h: nat, x: int, y: int)
    requires |m| == w * h && 1 <= x < w - 1 && 1 <= y < h - 1
    ensures 0 <= Idx(x, y, w) < w * h
    ensures Eroded(m, w, h)[Idx(x, y, w)] == Inverted(Dilated(Inverted(m), w, h))[Idx(x, y, w)]
  {
    ErodedAt(m, w, h, x, y);
    DilatedAt(Inverted(m), w, h, x, y);
    forall yy, xx | y - 1 <= yy <= y + 1 && x - 1 <= xx <= x + 1
      ensures (At(Inverted(m), w, h, xx, yy) != 0) == (At(m, w, h, xx, yy) == 0)
    {
      AtInverted(m, w, h, xx, yy);
    }
  }

  /**
   * On the frame the duality fails: for the all-set mask, erosion clears a
   * frame pixel while not-dilate-not keeps it set, because padding with 0
   * is not self-dual.
   */
  lemma DualityFailsOnFrame(w: nat, h: nat, x: int, y: int)
    requires OnFrame(w, h, x, y)
    ensures var full := seq(w * h, _ => 1);
            0 <= Idx(x, y, w) < w * h
            && Eroded(full, w, h)[Idx(x, y, w)] == 0
            && Inverted(Dilated(Inverted(full), w, h))[Idx(x, y, w)] == 1
  {
    var full: seq<Byte> := seq(w * h, _ => 1);
    ErodedClearsFrame(full, w, h, x, y);
    DilatedAt(Inverted(full), w, h, x, y);
    forall yy, xx | y - 1 <= yy <= y + 1 && x - 1 <= xx <= x + 1
      ensures At(Inverted(full), w, h, xx, yy) == 0
    {
      if 0 <= xx < w && 0 <= yy < h {
        AtInverted(full, w, h, xx, yy);
        IndexInRange(xx, yy, w, h);
      }
    }
  }

  /** fillHoles only sets pixels: every set input pixel keeps its value. */
  lemma FilledContainsInput(m: seq<Byte>, w: nat, h: nat, k: int)
    requires |m| == w * h && 0 <= k < w * h
    ensures m[k] != 0 ==> HolesFilled(m, w, h)[k] == m[k]
    ensures HolesFilled(m, w, h)[k] == m[k] || HolesFilled(m, w, h)[k] == 1
  {
  }

  /** A clear frame pixel is never filled: it reaches the border by itself. */
  lemma FrameNeverFilled(m: seq<Byte>, w: nat, h: nat, x: int, y: int)
    requires |m| == w * h && OnFrame(w, h, x, y)
    requires At(m, w, h, x, y) == 0
    ensures 0 <= Idx(x, y, w) < w * h && HolesFilled(m, w, h)[Idx(x, y, w)] == 0
  {
    IndexInRange(x, y, w, h);
    IndexDecode(x, y, w);
    assert (x, y) in BorderPixels(w, h);
    assert (x, y) in FreePixels(m, w, h);
    ConnectedSource(FreePixels(m, w, h), BorderPixels(w, h), (x, y));
  }

  /**
   * A clear pixel off the frame whose four neighbours are all set is a hole
   * and is filled, as for a blocked square with one free pixel inside.
   */
  lemma {:induction false} EnclosedPixelFilled(m: seq<Byte>, w: nat, h: nat, x: int, y: int)
    requires |m| == w * h && 0 <= x < w && 0 <= y < h && !OnFrame(w, h, x, y)
    requires At(m, w, h, x, y) == 0
    requires forall n | n in Neighbours((x, y)) :: At(m, w, h, n.0, n.1) != 0
    ensures 0 <= Idx(x, y, w) < w * h && HolesFilled(m, w, h)[Idx(x, y, w)] == 1
  {
    IndexInRange(x, y, w, h);
    IndexDecode(x, y, w);
    if Leaks(m, w, h, x, y) {
      var free, border := FreePixels(m, w, h), BorderPixels(w, h);
      var path :| IsPath(free, path) && path[0] in border && path[|path| - 1] == (x, y);
      assert (x, y) !in border;
      var n := |path|;
      assert n >= 2;
      var prev := path[n - 2];
      assert (x, y) in Neighbours(prev);
      NeighbourSymmetric(prev, (x, y));
      assert false;
    }
  }
}

/**
 * The post-clustering part of runPipeline and the scan-line door heuristic
 * suggestDoors (src/pipeline.js). Clustering, labelling, the Sobel filter
 * and Otsu's threshold are inputs: the cluster index map, the centroids'
 * L values, the edge magnitudes and their threshold.
 */
module Pipeline {
  import opened Raster
  import opened Wrappers
  import opened Morph
  import opened Seqs

  // ---------------------------------------------------------------------
  // runPipeline

  /** `i` is the darkest cluster: the first index of the least L value (0 when there is none). */
  predicate IsDarkest(ls: seq<real>, i: int) {
    if |ls| == 0 then i == 0
    else 0 <= i < |ls| && (forall j | 0 <= j < |ls| :: ls[i] <= ls[j]) && (forall j | 0 <= j < i :: ls[i] < ls[j])
  }

  /** There is only one darkest cluster. */
  lemma DarkestUnique(ls: seq<real>, i: int, j: int)
    requires IsDarkest(ls, i) && IsDarkest(ls, j)
    ensures i == j
  {
    if |ls| > 0 {
      assert ls[i] == ls[j];
    }
  }

  /** The scan of the centroids: `minL` starts at infinity (None) and only a strictly smaller L replaces it. */
  method Darkest(ls: seq<real>) returns (idx: int)
    ensures IsDarkest(ls, idx)
  {
    idx := 0;
    var minL: Option<real> := None;
    for i := 0 to |ls|
      invariant 0 <= idx && (i > 0 ==> idx < i)
      invariant if i == 0 then minL == None && idx == 0 else minL == Some(ls[idx])
      invariant forall j | 0 <= j < i :: ls[idx] <= ls[j]
      invariant forall j | 0 <= j < idx :: ls[idx] < ls[j]
    {
      if minL.None? || ls[i] < minL.value {
        minL := Some(ls[i]);
        idx := i;
      }
    }
  }

  /** The pointwise OR of two masks of the same size. */
  function Merged(a: seq<Byte>, b: seq<Byte>): (r: seq<Byte>)
    requires |a| == |b|
    ensures |r| == |a|
  {
    seq(|a|, i requires 0 <= i < |a| => if a[i] != 0 || b[i] != 0 then 1 else 0)
  }

  /** The merge loop of runPipeline: a pixel is set iff the cluster mask or the edge mask has it. */
  method Merge(mask: array<Byte>, edgeMask: array<Byte>) returns (merged: array<Byte>)
    requires mask.Length == edgeMask.Length
    ensures merged.Length == mask.Length
    ensures forall i | 0 <= i < merged.Length :: merged[i] == 1 <==> mask[i] != 0 || edgeMask[i] != 0
    ensures forall i | 0 <= i < merged.Length :: merged[i] == 0 <==> mask[i] == 0 && edgeMask[i] == 0
    ensures merged[..] == Merged(mask[..], edgeMask[..])
  {
    merged := new Byte[mask.Length](_ => 0);
    for i := 0 to merged.Length
      invariant forall k | 0 <= k < i :: merged[k] == Merged(mask[..], edgeMask[..])[k]
      invariant forall k | i <= k < merged.Length :: merged[k] == 0
    {
      merged[i] := if mask[i] != 0 || edgeMask[i] != 0 then 1 else 0;
    }
  }

  /** The morphology chain of runPipeline: closing, then fillHoles, then edgeRefine, then opening. */
  ghost function PostProcessed(m: seq<Byte>, w: nat, h: nat): (r: seq<Byte>)
    requires |m| == w * h
    ensures |r| == w * h
  {
    var closed := Eroded(Dilated(m, w, h), w, h);
    var filled := HolesFilled(closed, w, h);
    var refined := Eroded(filled, w, h);
    Dilated(Eroded(refined, w, h), w, h)
  }

  /**
   * runPipeline after clustering: without a selection the darkest cluster is
   * selected; the cluster mask and the thresholded edge mask are ORed and
   * put through the morphology chain. The image size is kept.
   */
  method RunPipeline(idxMap: seq<int>, centroidL: seq<real>, selected: seq<int>, edge: seq<real>, thr: real,
                     w: nat, h: nat, tolerance: real)
    returns (result: array<Byte>, chosen: seq<int>)
    ensures selected != [] ==> chosen == selected
    ensures selected == [] ==> |chosen| == 1 && IsDarkest(centroidL, chosen[0])
    ensures result.Length == w * h
    ensures result[..] == PostProcessed(Merged(Selected(idxMap, w, h, chosen), Thresholded(edge, w, h, thr)), w, h)
  {
    chosen := selected;
    if |chosen| == 0 {
      var idx := Darkest(centroidL);
      chosen := [idx];
    }
    var mask := MaskFromClusters(idxMap, w, h, chosen, tolerance);
    var edgeMask := ThresholdImageFloat(edge, w, h, thr);
    var merged := Merge(mask, edgeMask);
    merged := Closing(merged, w, h);
    merged := FillHoles(merged, w, h);
    merged := EdgeRefine(merged, w, h);
    result := Opening(merged, w, h);
  }

  // ---------------------------------------------------------------------
  // suggestDoors

  /** A suggested opening: a rectangle with real corner (cell/2 may be fractional) and integer size. */
  datatype Door = Door(x: real, y: real, w: int, h: int)

  /** `Math.max(0, v - cell/2)`. */
  function HalfBack(v: int, cell: int): (r: real)
    ensures r >= 0.0 && r >= v as real - cell as real / 2.0
  {
    var t := v as real - cell as real / 2.0;
    if t > 0.0 then t else 0.0
  }

  /** The number of free pixels from (x, y) rightwards, stopping at the image edge. */
  function RunRight(m: seq<Byte>, w: nat, h: nat, x: int, y: int): nat
    requires |m| == w * h
    decreases w - x
  {
    if x >= w || At(m, w, h, x, y) != 0 then 0 else 1 + RunRight(m, w, h, x + 1, y)
  }

  /** The number of free pixels from (x, y) downwards, stopping at the image edge. */
  function RunDown(m: seq<Byte>, w: nat, h: nat, x: int, y: int): nat
    requires |m| == w * h
    decreases h - y
  {
    if y >= h || At(m, w, h, x, y) != 0 then 0 else 1 + RunDown(m, w, h, x, y + 1)
  }

  /** The doors of one horizontal probe line, scanning from column x. */
  function RowDoors(m: seq<Byte>, w: nat, h: nat, cell: nat, y: int, x: int): seq<Door>
    requires |m| == w * h && cell > 0
    decreases w - x
  {
    if x >= w - cell then []
    else if At(m, w, h, x - 1, y) != 0 && At(m, w, h, x, y) != 0 then RowDoors(m, w, h, cell, y, x + cell)
    else
      var span := RunRight(m, w, h, x, y);
      if 0 < span <= 2 * cell then [Door(x as real, HalfBack(y, cell), span, cell)] + RowDoors(m, w, h, cell, y, x + span + cell)
      else RowDoors(m, w, h, cell, y, x + cell)
  }

  /** The doors of every horizontal probe line from row y on, a line each `cell` rows. */
  function HorizontalDoors(m: seq<Byte>, w: nat, h: nat, cell: nat, y: int): seq<Door>
    requires |m| == w * h && cell > 0
    decreases h - y
  {
    if y >= h then [] else RowDoors(m, w, h, cell, y, cell) + HorizontalDoors(m, w, h, cell, y + cell)
  }

  /** The doors of one vertical probe line, scanning from row y. */
  function ColumnDoors(m: seq<Byte>, w: nat, h: nat, cell: nat, x: int, y: int): seq<Door>
    requires |m| == w * h && cell > 0
    decreases h - y
  {
    if y >= h - cell then []
    else
      var span := RunDown(m, w, h, x, y);
      if 0 < span <= 2 * cell then [Door(HalfBack(x, cell), y as real, cell, span)] + ColumnDoors(m, w, h, cell, x, y + span + cell)
      else ColumnDoors(m, w, h, cell, x, y + cell)
  }

  /** The doors of every vertical probe line from column x on, a line each `cell` columns. */
  function VerticalDoors(m: seq<Byte>, w: nat, h: nat, cell: nat, x: int): seq<Door>
    requires |m| == w * h && cell > 0
    decreases w - x
  {
    if x >= w then [] else ColumnDoors(m, w, h, cell, x, cell) + VerticalDoors(m, w, h, cell, x + cell)
  }

  lemma RowInRange(y: int, w: nat, h: nat)
    requires 0 <= y < h
    ensures forall x | 0 <= x < w :: 0 <= Idx(x, y, w) < w * h
  {
    forall x | 0 <= x < w
      ensures 0 <= Idx(x, y, w) < w * h
    {
      IndexInRange(x, y, w, h);
    }
  }

  lemma ColumnInRange(x: int, w: nat, h: nat)
    requires 0 <= x < w
    ensures forall y | 0 <= y < h :: 0 <= Idx(x, y, w) < w * h
  {
    forall y | 0 <= y < h
      ensures 0 <= Idx(x, y, w) < w * h
    {
      IndexInRange(x, y, w, h);
    }
  }

  /** The span loop of the horizontal pass. */
  method MeasureRight(mask: array<Byte>, w: nat, h: nat, x: int, y: int) returns (span: nat)
    requires mask.Length == w * h && 0 <= x <= w && 0 <= y < h
    ensures span == RunRight(mask[..], w, h, x, y)
  {
    RowInRange(y, w, h);
    span := 0;
    while x + span < w && mask[Idx(x + span, y, w)] == 0
      invariant x + span <= w
      invariant RunRight(mask[..], w, h, x, y) == span + RunRight(mask[..], w, h, x + span, y)
      decreases w - x - span
    {
      span := span + 1;
    }
  }

  /** The span loop of the vertical pass. */
  method MeasureDown(mask: array<Byte>, w: nat, h: nat, x: int, y: int) returns (span: nat)
    requires mask.Length == w * h && 0 <= x < w && 0 <= y <= h
    ensures span == RunDown(mask[..], w, h, x, y)
  {
    ColumnInRange(x, w, h);
    span := 0;
    while y + span < h && mask[Idx(x, y + span, w)] == 0
      invariant y + span <= h
      invariant RunDown(mask[..], w, h, x, y) == span + RunDown(mask[..], w, h, x, y + span)
      decreases h - y - span
    {
      span := span + 1;
    }
  }

  /** One horizontal probe line; a door moves x past its run, and every probe then moves x by `cell`. */
  method ScanRow(mask: array<Byte>, w: nat, h: nat, cell: nat, y: int) returns (ds: seq<Door>)
    requires mask.Length == w * h && cell > 0 && 0 <= y < h
    ensures ds == RowDoors(mask[..], w, h, cell, y, cell)
  {
    RowInRange(y, w, h);
    ds := [];
    var x: int := cell;
    while x < w - cell
      invariant x >= cell
      invariant ds + RowDoors(mask[..], w, h, cell, y, x) == RowDoors(mask[..], w, h, cell, y, cell)
      decreases w - x
    {
      var left, right := mask[Idx(x - 1, y, w)], mask[Idx(x, y, w)];
      if left != 0 && right != 0 {
        x := x + cell;
      } else {
        var span := MeasureRight(mask, w, h, x, y);
        if 0 < span <= 2 * cell {
          AppendAssoc(ds, [Door(x as real, HalfBack(y, cell), span, cell)], RowDoors(mask[..], w, h, cell, y, x + span + cell));
          ds := ds + [Door(x as real, HalfBack(y, cell), span, cell)];
          x := x + span;
        }
        x := x + cell;
      }
    }
  }

  /** One vertical probe line. */
  method ScanColumn(mask: array<Byte>, w: nat, h: nat, cell: nat, x: int) returns (ds: seq<Door>)
    requires mask.Length == w * h && cell > 0 && 0 <= x < w
    ensures ds == ColumnDoors(mask[..], w, h, cell, x, cell)
  {
    ds := [];
    var y: int := cell;
    while y < h - cell
      invariant y >= cell
      invariant ds + ColumnDoors(mask[..], w, h, cell, x, y) == ColumnDoors(mask[..], w, h, cell, x, cell)
      decreases h - y
    {
      var span := MeasureDown(mask, w, h, x, y);
      if 0 < span <= 2 * cell {
        AppendAssoc(ds, [Door(HalfBack(x, cell), y as real, cell, span)], ColumnDoors(mask[..], w, h, cell, x, y + span + cell));
        ds := ds + [Door(HalfBack(x, cell), y as real, cell, span)];
        y := y + span;
      }
      y := y + cell;
    }
  }

  /** The horizontal pass of suggestDoors: every `cell`-th row, top to bottom. */
  method ScanRows(mask: array<Byte>, w: nat, h: nat, cell: nat) returns (doors: seq<Door>)
    requires mask.Length == w * h && cell > 0
    ensures doors == HorizontalDoors(mask[..], w, h, cell, 0)
  {
    doors := [];
    var y := 0;
    while y < h
      invariant 0 <= y
      invariant doors + HorizontalDoors(mask[..], w, h, cell, y) == HorizontalDoors(mask[..], w, h, cell, 0)
      decreases h - y
    {
      var row := ScanRow(mask, w, h, cell, y);
      AppendAssoc(doors, row, HorizontalDoors(mask[..], w, h, cell, y + cell));
      doors := doors + row;
      y := y + cell;
    }
  }

  /** The vertical pass of suggestDoors: every `cell`-th column, left to right. */
  method ScanColumns(mask: array<Byte>, w: nat, h: nat, cell: nat) returns (doors: seq<Door>)
    requires mask.Length == w * h && cell > 0
    ensures doors == VerticalDoors(mask[..], w, h, cell, 0)
  {
    doors := [];
    var x := 0;
    while x < w
      invariant 0 <= x
      invariant doors + VerticalDoors(mask[..], w, h, cell, x) == VerticalDoors(mask[..], w, h, cell, 0)
      decreases w - x
    {
      var col := ScanColumn(mask, w, h, cell, x);
      AppendAssoc(doors, col, VerticalDoors(mask[..], w, h, cell, x + cell));
      doors := doors + col;
      x := x + cell;
    }
  }

  /** suggestDoors: every horizontal probe line first, then every vertical one, without deduplication. */
  method SuggestDoors(mask: array<Byte>, w: nat, h: nat, cell: nat) returns (doors: seq<Door>)
    requires mask.Length == w * h && cell > 0
    ensures doors == HorizontalDoors(mask[..], w, h, cell, 0) + VerticalDoors(mask[..], w, h, cell, 0)
  {
    var horizontal := ScanRows(mask, w, h, cell);
    var vertical := ScanColumns(mask, w, h, cell);
    doors := horizontal + vertical;
  }

  // ---------------------------------------------------------------------
  // Door properties

  /** A run covers only free pixels, stays in the image and ends at the edge or at a set pixel. */
  lemma {:induction false} RunRightFree(m: seq<Byte>, w: nat, h: nat, x: int, y: int)
    requires |m| == w * h && x <= w
    ensures x + RunRight(m, w, h, x, y) <= w
    ensures forall i | x <= i < x + RunRight(m, w, h, x, y) :: At(m, w, h, i, y) == 0
    ensures x + RunRight(m, w, h, x, y) == w || At(m, w, h, x + RunRight(m, w, h, x, y), y) != 0
    decreases w - x
  {
    if x < w && At(m, w, h, x, y) == 0 {
      RunRightFree(m, w, h, x + 1, y);
    }
  }

  lemma {:induction false} RunDownFree(m: seq<Byte>, w: nat, h: nat, x: int, y: int)
    requires |m| == w * h && y <= h
    ensures y + RunDown(m, w, h, x, y) <= h
    ensures forall j | y <= j < y + RunDown(m, w, h, x, y) :: At(m, w, h, x, j) == 0
    ensures y + RunDown(m, w, h, x, y) == h || At(m, w, h, x, y + RunDown(m, w, h, x, y)) != 0
    decreases h - y
  {
    if y < h && At(m, w, h, x, y) == 0 {
      RunDownFree(m, w, h, x, y + 1);
    }
  }

  /**
   * A horizontal door on probe row y: it starts at an integer column in
   * [cell, width - cell), is `cell` high, 1 to 2*cell wide, sits at
   * max(0, y - cell/2), and is exactly as wide as the free run from its start
   * (so a longer run yields no door; see HorizontalDoorCoversFreeRun).
   */
  predicate HorizontalDoorAt(m: seq<Byte>, w: nat, h: nat, cell: nat, y: int, d: Door)
    requires |m| == w * h
  {
    var x := d.x.Floor;
    && d.x == x as real && 0 <= y < h && cell <= x < w - cell
    && d.y == HalfBack(y, cell) && d.h == cell && 1 <= d.w <= 2 * cell
    && d.w == RunRight(m, w, h, x, y)
  }

  /** A vertical door on probe column x, the transpose of a horizontal one. */
  predicate VerticalDoorAt(m: seq<Byte>, w: nat, h: nat, cell: nat, x: int, d: Door)
    requires |m| == w * h
  {
    var y := d.y.Floor;
    && d.y == y as real && 0 <= x < w && cell <= y < h - cell
    && d.x == HalfBack(x, cell) && d.w == cell && 1 <= d.h <= 2 * cell
    && d.h == RunDown(m, w, h, x, y)
  }

  /** A horizontal door covers only free pixels of its row and ends at the image edge or at a set pixel. */
  lemma HorizontalDoorCoversFreeRun(m: seq<Byte>, w: nat, h: nat, cell: nat, y: int, d: Door)
    requires |m| == w * h && HorizontalDoorAt(m, w, h, cell, y, d)
    ensures var x := d.x.Floor;
            && x + d.w <= w
            && (forall i | x <= i < x + d.w :: At(m, w, h, i, y) == 0)
            && (x + d.w == w || At(m, w, h, x + d.w, y) != 0)
  {
    RunRightFree(m, w, h, d.x.Floor, y);
  }

  /** A vertical door covers only free pixels of its column and ends at the image edge or at a set pixel. */
  lemma VerticalDoorCoversFreeRun(m: seq<Byte>, w: nat, h: nat, cell: nat, x: int, d: Door)
    requires |m| == w * h && VerticalDoorAt(m, w, h, cell, x, d)
    ensures var y := d.y.Floor;
            && y + d.h <= h
            && (forall j | y <= j < y + d.h :: At(m, w, h, x, j) == 0)
            && (y + d.h == h || At(m, w, h, x, y + d.h) != 0)
  {
    RunDownFree(m, w, h, x, d.y.Floor);
  }

  /** Every door of one row is well formed and starts at or after x. */
  lemma {:induction false} RowDoorsWellFormed(m: seq<Byte>, w: nat, h: nat, cell: nat, y: int, x: int)
    requires |m| == w * h && cell > 0 && 0 <= y < h && x >= cell
    ensures forall d | d in RowDoors(m, w, h, cell, y, x) :: HorizontalDoorAt(m, w, h, cell, y, d) && d.x >= x as real
    decreases w - x
  {
    var ds := RowDoors(m, w, h, cell, y, x);
    if x < w - cell {
      var span := RunRight(m, w, h, x, y);
      if (At(m, w, h, x - 1, y) != 0 && At(m, w, h, x, y) != 0) || !(0 < span <= 2 * cell) {
        assert ds == RowDoors(m, w, h, cell, y, x + cell);
        RowDoorsWellFormed(m, w, h, cell, y, x + cell);
      } else {
        var next := x + span + cell;
        RowDoorsWellFormed(m, w, h, cell, y, next);
        var d := Door(x as real, HalfBack(y, cell), span, cell);
        assert ds == [d] + RowDoors(m, w, h, cell, y, next);
        assert d.x.Floor == x;
      }
    }
  }

  /** Each door ends at least `gap` columns before the next one starts. */
  predicate IncreasingX(ds: seq<Door>, gap: int) {
    forall i, j | 0 <= i < j < |ds| :: ds[i].x + (ds[i].w + gap) as real <= ds[j].x
  }

  /** Each door ends at least `gap` rows before the next one starts. */
  predicate IncreasingY(ds: seq<Door>, gap: int) {
    forall i, j | 0 <= i < j < |ds| :: ds[i].y + (ds[i].h + gap) as real <= ds[j].y
  }

  lemma PrependX(d: Door, rest: seq<Door>, gap: int)
    requires IncreasingX(rest, gap) && forall e | e in rest :: d.x + (d.w + gap) as real <= e.x
    ensures IncreasingX([d] + rest, gap)
  {
    var ds := [d] + rest;
    forall i, j | 0 <= i < j < |ds|
      ensures ds[i].x + (ds[i].w + gap) as real <= ds[j].x
    {
      assert ds[j] == rest[j - 1];
      if i > 0 {
        assert ds[i] == rest[i - 1];
      }
    }
  }

  lemma PrependY(d: Door, rest: seq<Door>, gap: int)
    requires IncreasingY(rest, gap) && forall e | e in rest :: d.y + (d.h + gap) as real <= e.y
    ensures IncreasingY([d] + rest, gap)
  {
    var ds := [d] + rest;
    forall i, j | 0 <= i < j < |ds|
      ensures ds[i].y + (ds[i].h + gap) as real <= ds[j].y
    {
      assert ds[j] == rest[j - 1];
      if i > 0 {
        assert ds[i] == rest[i - 1];
      }
    }
  }

  /** The doors of one row are in increasing order, at least `cell` apart. */
  lemma {:induction false} RowDoorsOrdered(m: seq<Byte>, w: nat, h: nat, cell: nat, y: int, x: int)
    requires |m| == w * h && cell > 0 && 0 <= y < h && x >= cell
    ensures IncreasingX(RowDoors(m, w, h, cell, y, x), cell)
    decreases w - x
  {
    var ds := RowDoors(m, w, h, cell, y, x);
    if x < w - cell {
      var span := RunRight(m, w, h, x, y);
      if (At(m, w, h, x - 1, y) != 0 && At(m, w, h, x, y) != 0) || !(0 < span <= 2 * cell) {
        assert ds == RowDoors(m, w, h, cell, y, x + cell);
        RowDoorsOrdered(m, w, h, cell, y, x + cell);
      } else {
        var next := x + span + cell;
        RowDoorsOrdered(m, w, h, cell, y, next);
        RowDoorsWellFormed(m, w, h, cell, y, next);
        var rest := RowDoors(m, w, h, cell, y, next);
        var d := Door(x as real, HalfBack(y, cell), span, cell);
        assert ds == [d] + rest;
        PrependX(d, rest, cell);
      }
    }
  }

  /** Every door of one column is well formed and starts at or after y. */
  lemma {:induction false} ColumnDoorsWellFormed(m: seq<Byte>, w: nat, h: nat, cell: nat, x: int, y: int)
    requires |m| == w * h && cell > 0 && 0 <= x < w && y >= cell
    ensures forall d | d in ColumnDoors(m, w, h, cell, x, y) :: VerticalDoorAt(m, w, h, cell, x, d) && d.y >= y as real
    decreases h - y
  {
    var ds := ColumnDoors(m, w, h, cell, x, y);
    if y < h - cell {
      var span := RunDown(m, w, h, x, y);
      if !(0 < span <= 2 * cell) {
        assert ds == ColumnDoors(m, w, h, cell, x, y + cell);
        ColumnDoorsWellFormed(m, w, h, cell, x, y + cell);
      } else {
        var next := y + span + cell;
        ColumnDoorsWellFormed(m, w, h, cell, x, next);
        var d := Door(HalfBack(x, cell), y as real, cell, span);
        assert ds == [d] + ColumnDoors(m, w, h, cell, x, next);
        assert d.y.Floor == y;
      }
    }
  }

  /** The doors of one column are in increasing order, at least `cell` apart. */
  lemma {:induction false} ColumnDoorsOrdered(m: seq<Byte>, w: nat, h: nat, cell: nat, x: int, y: int)
    requires |m| == w * h && cell > 0 && 0 <= x < w && y >= cell
    ensures IncreasingY(ColumnDoors(m, w, h, cell, x, y), cell)
    decreases h - y
  {
    var ds := ColumnDoors(m, w, h, cell, x, y);
    if y < h - cell {
      var span := RunDown(m, w, h, x, y);
      if !(0 < span <= 2 * cell) {
        assert ds == ColumnDoors(m, w, h, cell, x, y + cell);
        ColumnDoorsOrdered(m, w, h, cell, x, y + cell);
      } else {
        var next := y + span + cell;
        ColumnDoorsOrdered(m, w, h, cell, x, next);
        ColumnDoorsWellFormed(m, w, h, cell, x, next);
        var rest := ColumnDoors(m, w, h, cell, x, next);
        var d := Door(HalfBack(x, cell), y as real, cell, span);
        assert ds == [d] + rest;
        PrependY(d, rest, cell);
      }
    }
  }

  /** The k-th probe line after `start`. */
  function ProbeLine(start: int, k: nat, cell: nat): int {
    start + k * cell
  }

  /** `d` is a horizontal door of some probe row y0 + k*cell. */
  ghost predicate OnProbeRow(m: seq<Byte>, w: nat, h: nat, cell: nat, y0: int, d: Door)
    requires |m| == w * h && cell > 0
  {
    exists k: nat :: HorizontalDoorAt(m, w, h, cell, ProbeLine(y0, k, cell), d)
  }

  /** `d` is a vertical door of some probe column x0 + k*cell. */
  ghost predicate OnProbeColumn(m: seq<Byte>, w: nat, h: nat, cell: nat, x0: int, d: Door)
    requires |m| == w * h && cell > 0
  {
    exists k: nat :: VerticalDoorAt(m, w, h, cell, ProbeLine(x0, k, cell), d)
  }

  lemma ProbeLineShift(start: int, k: nat, cell: nat)
    ensures ProbeLine(start + cell, k, cell) == ProbeLine(start, k + 1, cell)
  {
    assert (k + 1) * cell == k * cell + cell;
  }

  lemma OnProbeRowShift(m: seq<Byte>, w: nat, h: nat, cell: nat, y0: int, d: Door)
    requires |m| == w * h && cell > 0
    requires HorizontalDoorAt(m, w, h, cell, y0, d) || OnProbeRow(m, w, h, cell, y0 + cell, d)
    ensures OnProbeRow(m, w, h, cell, y0, d)
  {
    if HorizontalDoorAt(m, w, h, cell, y0, d) {
      assert ProbeLine(y0, 0, cell) == y0;
    } else {
      var k: nat :| HorizontalDoorAt(m, w, h, cell, ProbeLine(y0 + cell, k, cell), d);
      ProbeLineShift(y0, k, cell);
    }
  }

  lemma OnProbeColumnShift(m: seq<Byte>, w: nat, h: nat, cell: nat, x0: int, d: Door)
    requires |m| == w * h && cell > 0
    requires VerticalDoorAt(m, w, h, cell, x0, d) || OnProbeColumn(m, w, h, cell, x0 + cell, d)
    ensures OnProbeColumn(m, w, h, cell, x0, d)
  {
    if VerticalDoorAt(m, w, h, cell, x0, d) {
      assert ProbeLine(x0, 0, cell) == x0;
    } else {
      var k: nat :| VerticalDoorAt(m, w, h, cell, ProbeLine(x0 + cell, k, cell), d);
      ProbeLineShift(x0, k, cell);
    }
  }

  /** Every horizontal door lies on a probe row y0 + k*cell, and is well formed there. */
  lemma {:induction false} HorizontalDoorsShape(m: seq<Byte>, w: nat, h: nat, cell: nat, y0: int)
    requires |m| == w * h && cell > 0 && 0 <= y0
    ensures forall d | d in HorizontalDoors(m, w, h, cell, y0) :: OnProbeRow(m, w, h, cell, y0, d)
    decreases h - y0
  {
    if y0 < h {
      RowDoorsWellFormed(m, w, h, cell, y0, cell);
      HorizontalDoorsShape(m, w, h, cell, y0 + cell);
      var row := RowDoors(m, w, h, cell, y0, cell);
      var rest := HorizontalDoors(m, w, h, cell, y0 + cell);
      assert HorizontalDoors(m, w, h, cell, y0) == row + rest;
      forall d | d in row + rest
        ensures OnProbeRow(m, w, h, cell, y0, d)
      {
        OnProbeRowShift(m, w, h, cell, y0, d);
      }
    }
  }

  /** Every vertical door lies on a probe column x0 + k*cell, and is well formed there. */
  lemma {:induction false} VerticalDoorsShape(m: seq<Byte>, w: nat, h: nat, cell: nat, x0: int)
    requires |m| == w * h && cell > 0 && 0 <= x0
    ensures forall d | d in VerticalDoors(m, w, h, cell, x0) :: OnProbeColumn(m, w, h, cell, x0, d)
    decreases w - x0
  {
    if x0 < w {
      ColumnDoorsWellFormed(m, w, h, cell, x0, cell);
      VerticalDoorsShape(m, w, h, cell, x0 + cell);
      var col := ColumnDoors(m, w, h, cell, x0, cell);
      var rest := VerticalDoors(m, w, h, cell, x0 + cell);
      assert VerticalDoors(m, w, h, cell, x0) == col + rest;
      forall d | d in col + rest
        ensures OnProbeColumn(m, w, h, cell, x0, d)
      {
        OnProbeColumnShift(m, w, h, cell, x0, d);
      }
    }
  }
}

/**
 * The occupancy grid of src/grid.js. A grid covers the image with square
 * cells of `cell` pixels (the last column and row clipped to the image) and
 * keeps two sets of cell keys, `walls` and `zones`. The source keys a cell by
 * the string `${c}_${r}`; here a key is the pair (c, r). A JavaScript `Set`
 * keeps its elements in insertion order, so both sets are sequences without
 * duplicates, updated by `SetAdd` and `SetDelete`.
 */
module Occupancy {
  import opened Raster
  import opened Cells
  import opened Wrappers

  // ---------------------------------------------------------------------
  // Insertion-ordered sets

  predicate NoDup(s: seq<Cell>) {
    forall i, j | 0 <= i < j < |s| :: s[i] != s[j]
  }

  /** `Set.prototype.add`: a new key goes to the end, a present key changes nothing. */
  function SetAdd(s: seq<Cell>, k: Cell): seq<Cell> {
    if k in s then s else s + [k]
  }

  /** `Set.prototype.delete`: the key is dropped wherever it is. */
  function SetDelete(s: seq<Cell>, k: Cell): (r: seq<Cell>)
    decreases |s|
  {
    if s == [] then []
    else (if s[0] == k then [] else [s[0]]) + SetDelete(s[1..], k)
  }

  /** `keys.forEach(k => set.add(k))`. */
  function AddAll(s: seq<Cell>, keys: seq<Cell>): seq<Cell>
    decreases |keys|
  {
    if keys == [] then s else AddAll(SetAdd(s, keys[0]), keys[1..])
  }

  /** `keys.forEach(k => set.delete(k))`. */
  function DeleteAll(s: seq<Cell>, keys: seq<Cell>): seq<Cell>
    decreases |keys|
  {
    if keys == [] then s else DeleteAll(SetDelete(s, keys[0]), keys[1..])
  }

  lemma {:induction false} SetDeleteElements(s: seq<Cell>, k: Cell)
    ensures forall e :: e in SetDelete(s, k) <==> e in s && e != k
    ensures NoDup(s) ==> NoDup(SetDelete(s, k))
    decreases |s|
  {
    if s != [] {
      SetDeleteElements(s[1..], k);
      var rest := SetDelete(s[1..], k);
      assert SetDelete(s, k) == (if s[0] == k then [] else [s[0]]) + rest;
      if NoDup(s) {
        assert NoDup(s[1..]);
        assert s[0] !in s[1..];
      }
    }
  }

  lemma SetAddElements(s: seq<Cell>, k: Cell)
    requires NoDup(s)
    ensures NoDup(SetAdd(s, k))
    ensures forall e :: e in SetAdd(s, k) <==> e in s || e == k
    ensures |SetAdd(s, k)| >= |s| && SetAdd(s, k)[..|s|] == s
  {
    if k !in s {
      var t := s + [k];
      forall i, j | 0 <= i < j < |t|
        ensures t[i] != t[j]
      {
        if j == |s| {
          assert t[i] == s[i];
        }
      }
      assert t[..|s|] == s;
    }
  }

  /** Adding keys keeps the set duplicate-free, its old elements in front, and its elements the union. */
  lemma {:induction false} AddAllElements(s: seq<Cell>, keys: seq<Cell>)
    requires NoDup(s)
    ensures NoDup(AddAll(s, keys))
    ensures forall e :: e in AddAll(s, keys) <==> e in s || e in keys
    ensures |AddAll(s, keys)| >= |s| && AddAll(s, keys)[..|s|] == s
    decreases |keys|
  {
    if keys != [] {
      var s' := SetAdd(s, keys[0]);
      SetAddElements(s, keys[0]);
      AddAllElements(s', keys[1..]);
      var r := AddAll(s', keys[1..]);
      assert r == AddAll(s, keys);
      assert forall e :: e in keys <==> e == keys[0] || e in keys[1..] by {
        assert keys == [keys[0]] + keys[1..];
      }
      assert r[..|s|] == r[..|s'|][..|s|];
    }
  }

  /** Deleting keys keeps the set duplicate-free; its elements are the old ones minus the keys. */
  lemma {:induction false} DeleteAllElements(s: seq<Cell>, keys: seq<Cell>)
    requires NoDup(s)
    ensures NoDup(DeleteAll(s, keys))
    ensures forall e :: e in DeleteAll(s, keys) <==> e in s && e !in keys
    decreases |keys|
  {
    if keys != [] {
      SetDeleteElements(s, keys[0]);
      DeleteAllElements(SetDelete(s, keys[0]), keys[1..]);
      assert keys == [keys[0]] + keys[1..];
    }
  }

  /** Adding keys that are new and pairwise distinct appends them in order. */
  lemma {:induction false} AddAllDistinct(s: seq<Cell>, keys: seq<Cell>)
    requires NoDup(s + keys)
    ensures AddAll(s, keys) == s + keys
    decreases |keys|
  {
    if keys != [] {
      assert keys[0] !in s by {
        forall i | 0 <= i < |s|
          ensures s[i] != keys[0]
        {
          assert (s + keys)[i] == s[i];
          assert (s + keys)[|s|] == keys[0];
        }
      }
      var s' := s + [keys[0]];
      assert s' + keys[1..] == s + keys;
      assert SetAdd(s, keys[0]) == s';
      AddAllDistinct(s', keys[1..]);
    }
  }

  /**
   * removeWalls(keys) after addWalls(keys) leaves the old elements minus the
   * keys; when a key was there before, the original set is not restored.
   */
  lemma AddThenDelete(s: seq<Cell>, keys: seq<Cell>)
    requires NoDup(s)
    ensures forall e :: e in DeleteAll(AddAll(s, keys), keys) <==> e in s && e !in keys
    ensures (exists k :: k in keys && k in s) ==> DeleteAll(AddAll(s, keys), keys) != s
  {
    AddAllElements(s, keys);
    DeleteAllElements(AddAll(s, keys), keys);
  }

  // ---------------------------------------------------------------------
  // Cell geometry

  function Min(a: int, b: int): int { if a <= b then a else b }

  /** `Math.ceil(a / b)` for integers. */
  function CeilDiv(a: nat, b: nat): (n: nat)
    requires b > 0
  {
    (a + b - 1) / b
  }

  /** The integer facts behind CeilDiv: n*b reaches a and (n-1)*b stays below it. */
  lemma CeilDivBounds(a: nat, b: nat)
    requires b > 0
    ensures CeilDiv(a, b) * b >= a && (CeilDiv(a, b) - 1) * b < a
  {
    var n := CeilDiv(a, b);
    var r := (a + b - 1) % b;
    assert a + b - 1 == n * b + r && 0 <= r < b;
    assert (n - 1) * b == n * b - b;
  }

  /** CeilDiv is the ceiling of the real quotient, and a column index is below it iff its cell starts inside the image. */
  lemma CeilDivIsCeiling(a: nat, b: nat)
    requires b > 0
    ensures CeilDiv(a, b) as real >= a as real / b as real > CeilDiv(a, b) as real - 1.0
    ensures forall c: int | 0 <= c :: c < CeilDiv(a, b) <==> c * b < a
  {
    var n := CeilDiv(a, b);
    CeilDivBounds(a, b);
    RealQuotientBetween(a as real, b as real, n as real);
    forall c: int | 0 <= c
      ensures c < n <==> c * b < a
    {
      if c < n {
        MulMonotone(c, n - 1, b);
      } else {
        MulMonotone(n, c, b);
      }
    }
  }

  /** If (n-1)*b < a <= n*b with b > 0, then a/b lies in (n-1, n]. */
  lemma RealQuotientBetween(a: real, b: real, n: real)
    requires b > 0.0 && (n - 1.0) * b < a <= n * b
    ensures n >= a / b > n - 1.0
  {
    var q := a / b;
    assert a == q * b;
    if q <= n - 1.0 {
      RealMulNonneg(n - 1.0 - q, b);
      assert false;
    }
  }

  lemma PositiveProduct(a: int, b: int)
    requires a > 0 && b > 0
    ensures a * b > 0
  {
    MulMonotone(1, a, b);
  }

  lemma RealMulNonneg(x: real, y: real)
    requires x >= 0.0 && y >= 0.0
    ensures x * y >= 0.0
  {
  }

  /** For a positive divisor, c/t >= o iff c >= o*t. */
  lemma QuotientAtLeast(c: real, t: real, o: real)
    requires t > 0.0
    ensures c / t >= o <==> c >= o * t
  {
    var q := c / t;
    assert c == q * t;
    if q >= o {
      assert (q - o) * t >= 0.0;
    } else {
      assert (o - q) * t > 0.0;
    }
  }

  predicate InGrid(cols: int, rows: int, k: Cell) {
    0 <= k.0 < cols && 0 <= k.1 < rows
  }

  /** Row-major order of cells: by row, then by column. */
  predicate Before(a: Cell, b: Cell) {
    a.1 < b.1 || (a.1 == b.1 && a.0 < b.0)
  }

  predicate RowMajor(s: seq<Cell>) {
    forall i, j | 0 <= i < j < |s| :: Before(s[i], s[j])
  }

  // ---------------------------------------------------------------------
  // Majority vote

  /** The number of set pixels in row y between columns x0 (inclusive) and x1 (exclusive). */
  function RowCount(m: seq<Byte>, w: nat, h: nat, y: int, x0: int, x1: int): nat
    requires |m| == w * h
    decreases x1 - x0
  {
    if x1 <= x0 then 0
    else RowCount(m, w, h, y, x0, x1 - 1) + (if At(m, w, h, x1 - 1, y) != 0 then 1 else 0)
  }

  /** The number of set pixels in the window [x0, x1) x [y0, y1). */
  function WindowCount(m: seq<Byte>, w: nat, h: nat, x0: int, x1: int, y0: int, y1: int): nat
    requires |m| == w * h
    decreases y1 - y0
  {
    if y1 <= y0 then 0
    else WindowCount(m, w, h, x0, x1, y0, y1 - 1) + RowCount(m, w, h, y1 - 1, x0, x1)
  }

  lemma {:induction false} RowCountBounds(m: seq<Byte>, w: nat, h: nat, y: int, x0: int, x1: int)
    requires |m| == w * h && x0 <= x1
    ensures RowCount(m, w, h, y, x0, x1) <= x1 - x0
    ensures (forall k | 0 <= k < |m| :: m[k] == 0) ==> RowCount(m, w, h, y, x0, x1) == 0
    decreases x1 - x0
  {
    if x1 > x0 {
      RowCountBounds(m, w, h, y, x0, x1 - 1);
      if 0 <= x1 - 1 < w && 0 <= y < h {
        IndexInRange(x1 - 1, y, w, h);
      }
    }
  }

  /** A window holds at most as many set pixels as it has pixels, and none at all in an all-zero mask. */
  lemma {:induction false} WindowCountBounds(m: seq<Byte>, w: nat, h: nat, x0: int, x1: int, y0: int, y1: int)
    requires |m| == w * h && x0 <= x1 && y0 <= y1
    ensures WindowCount(m, w, h, x0, x1, y0, y1) <= (x1 - x0) * (y1 - y0)
    ensures (forall k | 0 <= k < |m| :: m[k] == 0) ==> WindowCount(m, w, h, x0, x1, y0, y1) == 0
    decreases y1 - y0
  {
    if y1 > y0 {
      WindowCountBounds(m, w, h, x0, x1, y0, y1 - 1);
      RowCountBounds(m, w, h, y1 - 1, x0, x1);
      assert (x1 - x0) * (y1 - y0) == (x1 - x0) * (y1 - 1 - y0) + (x1 - x0);
    }
  }

  /** The clipped window of cell (c, r): [x0, x1) x [y0, y1). */
  function Window(width: nat, height: nat, cell: nat, k: Cell): (int, int, int, int) {
    var x0, y0 := k.0 * cell, k.1 * cell;
    (x0, Min(x0 + cell, width), y0, Min(y0 + cell, height))
  }

  /** The window of a grid cell is never empty and lies inside the image. */
  lemma WindowInside(width: nat, height: nat, cell: nat, k: Cell)
    requires cell > 0 && InGrid(CeilDiv(width, cell), CeilDiv(height, cell), k)
    ensures var (x0, x1, y0, y1) := Window(width, height, cell, k);
            0 <= x0 < x1 <= width && 0 <= y0 < y1 <= height
  {
    CeilDivIsCeiling(width, cell);
    CeilDivIsCeiling(height, cell);
    MulMonotone(0, k.0, cell);
    MulMonotone(0, k.1, cell);
  }

  /** The share count/total reaches the occupancy; the share of an empty window is never taken. */
  predicate MajorityVote(count: nat, total: nat, occupancy: real) {
    total > 0 && (count as real) / (total as real) >= occupancy
  }

  /**
   * The majority vote of fromMask: cell (c, r) is a wall when the share of set
   * pixels in its clipped window reaches `occupancy`.
   */
  predicate IsWall(m: seq<Byte>, width: nat, height: nat, cell: nat, occupancy: real, k: Cell)
    requires |m| == width * height
  {
    var (x0, x1, y0, y1) := Window(width, height, cell, k);
    x0 <= x1 && y0 <= y1
    && MajorityVote(WindowCount(m, width, height, x0, x1, y0, y1), (x1 - x0) * (y1 - y0), occupancy)
  }

  /** The vote over a non-empty window is `count >= occupancy*total`. */
  lemma VoteCrossMultiplied(count: nat, total: nat, occupancy: real)
    requires total > 0
    ensures MajorityVote(count, total, occupancy) <==> count as real >= occupancy * total as real
  {
    QuotientAtLeast(count as real, total as real, occupancy);
  }

  /** With occupancy 0 every cell is a wall; an all-zero mask with positive occupancy has no wall. */
  lemma IsWallExtremes(m: seq<Byte>, width: nat, height: nat, cell: nat, occupancy: real, k: Cell)
    requires |m| == width * height && cell > 0 && InGrid(CeilDiv(width, cell), CeilDiv(height, cell), k)
    ensures occupancy <= 0.0 ==> IsWall(m, width, height, cell, occupancy, k)
    ensures occupancy > 0.0 && (forall i | 0 <= i < |m| :: m[i] == 0) ==> !IsWall(m, width, height, cell, occupancy, k)
  {
    WindowInside(width, height, cell, k);
    var (x0, x1, y0, y1) := Window(width, height, cell, k);
    var total := (x1 - x0) * (y1 - y0);
    PositiveProduct(x1 - x0, y1 - y0);
    var count := WindowCount(m, width, height, x0, x1, y0, y1);
    WindowCountBounds(m, width, height, x0, x1, y0, y1);
    VoteCrossMultiplied(count, total, occupancy);
    if occupancy <= 0.0 {
      RealMulNonneg(-occupancy, total as real);
    }
  }

  /** The inner double loop of fromMask: count the set pixels of one window. */
  method CountWindow(mask: array<Byte>, width: nat, height: nat, x0: int, x1: int, y0: int, y1: int)
    returns (count: nat)
    requires mask.Length == width * height
    requires 0 <= x0 <= x1 <= width && 0 <= y0 <= y1 <= height
    ensures count == WindowCount(mask[..], width, height, x0, x1, y0, y1)
  {
    count := 0;
    for y := y0 to y1
      invariant count == WindowCount(mask[..], width, height, x0, x1, y0, y)
    {
      for x := x0 to x1
        invariant count == WindowCount(mask[..], width, height, x0, x1, y0, y) + RowCount(mask[..], width, height, y, x0, x)
      {
        IndexInRange(x, y, width, height);
        if mask[Idx(x, y, width)] != 0 {
          count := count + 1;
        }
      }
    }
  }

  /** `walls` holds exactly the wall cells of the grid that come before `p` in row-major order. */
  ghost predicate WallsBefore(m: seq<Byte>, width: nat, height: nat, cell: nat, occupancy: real, walls: seq<Cell>, p: Cell)
    requires |m| == width * height && cell > 0
  {
    forall k :: k in walls <==>
      InGrid(CeilDiv(width, cell), CeilDiv(height, cell), k) && Before(k, p) && IsWall(m, width, height, cell, occupancy, k)
  }

  /** Deciding cell (c, r) and adding it when it is a wall moves the row-major frontier one cell on. */
  lemma VoteStep(m: seq<Byte>, width: nat, height: nat, cell: nat, occupancy: real, walls: seq<Cell>, c: int, r: int, wall: bool)
    requires |m| == width * height && cell > 0
    requires InGrid(CeilDiv(width, cell), CeilDiv(height, cell), (c, r))
    requires RowMajor(walls) && WallsBefore(m, width, height, cell, occupancy, walls, (c, r))
    requires wall == IsWall(m, width, height, cell, occupancy, (c, r))
    ensures var walls' := if wall then SetAdd(walls, (c, r)) else walls;
            RowMajor(walls') && WallsBefore(m, width, height, cell, occupancy, walls', (c + 1, r))
  {
    if wall {
      assert (c, r) !in walls;
      assert forall i | 0 <= i < |walls| :: walls[i] in walls;
    }
  }

  /** A row completed is the start of the next one. */
  lemma NextRow(m: seq<Byte>, width: nat, height: nat, cell: nat, occupancy: real, walls: seq<Cell>, r: int)
    requires |m| == width * height && cell > 0
    requires WallsBefore(m, width, height, cell, occupancy, walls, (CeilDiv(width, cell), r))
    ensures WallsBefore(m, width, height, cell, occupancy, walls, (0, r + 1))
  {
  }

  /**
   * One row of fromMask: the vote of every cell of row r, each wall added to
   * `walls` in column order.
   */
  method VoteRow(mask: array<Byte>, width: nat, height: nat, cell: nat, occupancy: real, r: int, walls: seq<Cell>)
    returns (walls': seq<Cell>)
    requires mask.Length == width * height && cell > 0 && 0 <= r < CeilDiv(height, cell)
    requires RowMajor(walls) && WallsBefore(mask[..], width, height, cell, occupancy, walls, (0, r))
    ensures RowMajor(walls') && WallsBefore(mask[..], width, height, cell, occupancy, walls', (0, r + 1))
  {
    var cols := CeilDiv(width, cell);
    walls' := walls;
    for c := 0 to cols
      invariant RowMajor(walls') && WallsBefore(mask[..], width, height, cell, occupancy, walls', (c, r))
    {
      WindowInside(width, height, cell, (c, r));
      var x0, y0 := c * cell, r * cell;
      var x1, y1 := Min(x0 + cell, width), Min(y0 + cell, height);
      var count := CountWindow(mask, width, height, x0, x1, y0, y1);
      var total := (x1 - x0) * (y1 - y0);
      PositiveProduct(x1 - x0, y1 - y0);
      var wall := (count as real) / (total as real) >= occupancy;
      assert wall == IsWall(mask[..], width, height, cell, occupancy, (c, r));
      VoteStep(mask[..], width, height, cell, occupancy, walls', c, r, wall);
      if wall {
        walls' := SetAdd(walls', (c, r));
      }
    }
    NextRow(mask[..], width, height, cell, occupancy, walls', r);
  }

  // ---------------------------------------------------------------------
  // The grid

  /** The persisted form of a grid; `walls_cells` and `zones_cells` may be missing. */
  datatype Bundle = Bundle(cell: int, cols: int, rows: int, wallsCells: Option<seq<Cell>>, zonesCells: Option<seq<Cell>>)

  class Grid {
    var cell: int
    var cols: int
    var rows: int
    var width: int
    var height: int
    var walls: seq<Cell>
    var zones: seq<Cell>

    /** Both key sets are sets: no key twice. */
    ghost predicate Valid()
      reads this
    {
      NoDup(walls) && NoDup(zones)
    }

    constructor (cell: int, cols: int, rows: int, width: int, height: int)
      ensures Valid()
      ensures this.cell == cell && this.cols == cols && this.rows == rows
      ensures this.width == width && this.height == height
      ensures walls == [] && zones == []
    {
      this.cell, this.cols, this.rows := cell, cols, rows;
      this.width, this.height := width, height;
      walls, zones := [], [];
    }

    /**
     * fromMask: cols and rows are the ceilings of width/cell and height/cell;
     * the walls are the cells whose majority vote passes, listed row-major.
     */
    static method FromMask(mask: array<Byte>, width: nat, height: nat, cell: nat, occupancy: real) returns (g: Grid)
      requires mask.Length == width * height && cell > 0
      ensures fresh(g) && g.Valid()
      ensures g.cell == cell && g.cols == CeilDiv(width, cell) && g.rows == CeilDiv(height, cell)
      ensures g.width == width && g.height == height && g.zones == []
      ensures forall k :: k in g.walls <==> InGrid(g.cols, g.rows, k) && IsWall(mask[..], width, height, cell, occupancy, k)
      ensures RowMajor(g.walls)
    {
      var cols, rows := CeilDiv(width, cell), CeilDiv(height, cell);
      g := new Grid(cell, cols, rows, width, height);
      for r := 0 to rows
        invariant g.cell == cell && g.cols == cols && g.rows == rows
        invariant g.width == width && g.height == height && g.zones == []
        invariant RowMajor(g.walls) && WallsBefore(mask[..], width, height, cell, occupancy, g.walls, (0, r))
      {
        g.walls := VoteRow(mask, width, height, cell, occupancy, r, g.walls);
      }
      RowMajorNoDup(g.walls);
    }

    /** fromBundle: the fields are copied and the listed keys added one by one; a missing list adds nothing. */
    static method FromBundle(b: Bundle, width: int, height: int) returns (g: Grid)
      ensures fresh(g) && g.Valid()
      ensures g.cell == b.cell && g.cols == b.cols && g.rows == b.rows
      ensures g.width == width && g.height == height
      ensures g.walls == AddAll([], b.wallsCells.GetOr([]))
      ensures g.zones == AddAll([], b.zonesCells.GetOr([]))
    {
      g := new Grid(b.cell, b.cols, b.rows, width, height);
      g.AddWalls(b.wallsCells.GetOr([]));
      g.AddZones(b.zonesCells.GetOr([]));
    }

    /**
     * toBundle: the fields and both key sets in insertion order. Both lists
     * are always present, and each lists every key of its set exactly once.
     */
    function ToBundle(): (b: Bundle)
      reads this
      ensures b.cell == cell && b.cols == cols && b.rows == rows
      ensures b.wallsCells.Some? && b.zonesCells.Some?
      ensures forall k :: k in b.wallsCells.value <==> k in walls
      ensures forall k :: k in b.zonesCells.value <==> k in zones
      ensures Valid() ==> NoDup(b.wallsCells.value) && NoDup(b.zonesCells.value)
    {
      Bundle(cell, cols, rows, Some(walls), Some(zones))
    }

    method AddWalls(keys: seq<Cell>)
      requires Valid()
      modifies this`walls
      ensures Valid() && walls == AddAll(old(walls), keys)
    {
      for i := 0 to |keys|
        invariant NoDup(walls) && AddAll(walls, keys[i..]) == AddAll(old(walls), keys)
      {
        assert keys[i..][1..] == keys[i + 1..];
        walls := SetAdd(walls, keys[i]);
      }
    }

    method RemoveWalls(keys: seq<Cell>)
      requires Valid()
      modifies this`walls
      ensures Valid() && walls == DeleteAll(old(walls), keys)
    {
      for i := 0 to |keys|
        invariant NoDup(walls) && DeleteAll(walls, keys[i..]) == DeleteAll(old(walls), keys)
      {
        assert keys[i..][1..] == keys[i + 1..];
        SetDeleteElements(walls, keys[i]);
        walls := SetDelete(walls, keys[i]);
      }
    }

    method AddZones(keys: seq<Cell>)
      requires Valid()
      modifies this`zones
      ensures Valid() && zones == AddAll(old(zones), keys)
    {
      for i := 0 to |keys|
        invariant NoDup(zones) && AddAll(zones, keys[i..]) == AddAll(old(zones), keys)
      {
        assert keys[i..][1..] == keys[i + 1..];
        zones := SetAdd(zones, keys[i]);
      }
    }

    method RemoveZones(keys: seq<Cell>)
      requires Valid()
      modifies this`zones
      ensures Valid() && zones == DeleteAll(old(zones), keys)
    {
      for i := 0 to |keys|
        invariant NoDup(zones) && DeleteAll(zones, keys[i..]) == DeleteAll(old(zones), keys)
      {
        assert keys[i..][1..] == keys[i + 1..];
        SetDeleteElements(zones, keys[i]);
        zones := SetDelete(zones, keys[i]);
      }
    }
  }

  lemma RowMajorNoDup(s: seq<Cell>)
    requires RowMajor(s)
    ensures NoDup(s)
  {
    forall i, j | 0 <= i < j < |s|
      ensures s[i] != s[j]
    {
      assert Before(s[i], s[j]);
    }
  }

  /**
   * fromBundle(toBundle(g)) reproduces g: the same cell size, columns and
   * rows, and the same walls and zones in the same order.
   */
  lemma BundleRoundTrip(g: Grid)
    requires g.Valid()
    ensures var b := g.ToBundle();
            && b.cell == g.cell && b.cols == g.cols && b.rows == g.rows
            && AddAll([], b.wallsCells.GetOr([])) == g.walls
            && AddAll([], b.zonesCells.GetOr([])) == g.zones
  {
    assert [] + g.walls == g.walls;
    assert [] + g.zones == g.zones;
    AddAllDistinct([], g.walls);
    AddAllDistinct([], g.zones);
  }
}

/**
 * The plausibility check of src/quality.js: calibration and site warnings,
 * reachability of the sites from the first walkable grid cell by a
 * 4-connected breadth-first flood, the coverage ratio of the walls, and the
 * gaps between start points and sites. Alert texts and the HTML report are
 * represented by their data (which alert, which sites, which gaps).
 */
module Quality {
  import opened Cells
  import opened Wrappers
  import opened Occupancy
  import opened Seqs

  /** A site (`id`, `name`) or a start point (`name`) at image coordinates (x, y). */
  datatype Marker = Marker(id: int, name: string, x: real, y: real)

  /** The alerts of the check; UnreachableSites is the one of level 'danger'. */
  datatype Alert = NoCalibration | NoSites | UnreachableSites(count: nat) | OddCoverage | PathGaps(count: nat)

  /** A missing connection of the report. */
  datatype Gap = OnBlockedCell(start: Marker) | Unconnected(start: Marker, site: Marker)

  // ---------------------------------------------------------------------
  // Cells

  /** `walkable(c, r)`: inside the grid and not a wall. */
  predicate Walkable(cols: int, rows: int, walls: seq<Cell>, p: Cell) {
    InGrid(cols, rows, p) && p !in walls
  }

  ghost function WalkableCells(cols: int, rows: int, walls: seq<Cell>): (s: set<Cell>)
    ensures forall p :: p in s <==> Walkable(cols, rows, walls, p)
  {
    set c, r | 0 <= c < cols && 0 <= r < rows && (c, r) !in walls :: (c, r)
  }

  /** The cells the flood from `start` can reach through walkable cells. */
  ghost function Component(cols: int, rows: int, walls: seq<Cell>, start: Cell): set<Cell> {
    var open := WalkableCells(cols, rows, walls);
    set p | p in open && Connected(open, {start}, p)
  }

  /** No neighbour of `p` is walkable. */
  predicate Isolated(cols: int, rows: int, walls: seq<Cell>, p: Cell) {
    forall n | n in Neighbours(p) :: !Walkable(cols, rows, walls, n)
  }

  /** The cell of image point (x, y): `(floor(x/cell), floor(y/cell))`, the cell whose square holds the point. */
  function MarkerCell(m: Marker, cell: int): (p: Cell)
    requires cell > 0
    ensures p.0 as real * cell as real <= m.x < (p.0 + 1) as real * cell as real
    ensures p.1 as real * cell as real <= m.y < (p.1 + 1) as real * cell as real
  {
    FloorBounds(m.x, cell as real);
    FloorBounds(m.y, cell as real);
    ((m.x / cell as real).Floor, (m.y / cell as real).Floor)
  }

  /** `floor(a/b)` is the index of the interval of width `b` that holds `a`. */
  lemma FloorBounds(a: real, b: real)
    requires b > 0.0
    ensures (a / b).Floor as real * b <= a < ((a / b).Floor + 1) as real * b
  {
    var q := a / b;
    var f := q.Floor as real;
    var d := f + 1.0 - q;
    assert 0.0 < d && q - f >= 0.0;
    var low, mid, gap := f * b, q * b, d * b;
    assert a == mid;
    assert (q - f) * b >= 0.0 && gap > 0.0;
    assert mid - low == (q - f) * b;
    assert (f + 1.0) * b == mid + gap;
    assert (q.Floor + 1) as real == f + 1.0;
  }

  // ---------------------------------------------------------------------
  // Seed

  /** The seed: the first walkable cell in row-major order. */
  ghost predicate IsSeed(cols: int, rows: int, walls: seq<Cell>, s: Cell) {
    Walkable(cols, rows, walls, s) && forall p | Walkable(cols, rows, walls, p) :: !Before(p, s)
  }

  lemma SeedUnique(cols: int, rows: int, walls: seq<Cell>, s: Cell, t: Cell)
    requires IsSeed(cols, rows, walls, s) && IsSeed(cols, rows, walls, t)
    ensures s == t
  {
    assert !Before(s, t) && !Before(t, s);
  }

  /** The labelled double loop of the check: rows outer, columns inner, stop at the first walkable cell. */
  method FindSeed(cols: int, rows: int, walls: seq<Cell>) returns (seed: Option<Cell>)
    ensures seed.Some? ==> IsSeed(cols, rows, walls, seed.value)
    ensures seed.None? <==> forall p :: !Walkable(cols, rows, walls, p)
  {
    var r := 0;
    while r < rows
      invariant 0 <= r
      invariant forall p | Walkable(cols, rows, walls, p) :: p.1 >= r
    {
      var c := 0;
      while c < cols
        invariant 0 <= c
        invariant forall p | Walkable(cols, rows, walls, p) :: p.1 > r || (p.1 == r && p.0 >= c)
      {
        if Walkable(cols, rows, walls, (c, r)) {
          return Some((c, r));
        }
        c := c + 1;
      }
      r := r + 1;
    }
    return None;
  }

  // ---------------------------------------------------------------------
  // Flood

  /** Every walkable neighbour of `p` is in `s`. */
  ghost predicate NeighboursIn(open: set<Cell>, s: set<Cell>, p: Cell) {
    forall n | n in Neighbours(p) && n in open :: n in s
  }

  /**
   * The body of the flood for the cell `c` taken from the queue: each
   * walkable neighbour not yet seen is added to `seen` and pushed.
   */
  method VisitNeighbours(cols: int, rows: int, walls: seq<Cell>, ghost open: set<Cell>, ghost start: Cell,
                         seen0: set<Cell>, q0: seq<Cell>, c: Cell)
    returns (seen: set<Cell>, q: seq<Cell>)
    requires open == WalkableCells(cols, rows, walls)
    requires seen0 <= open && c in open && Connected(open, {start}, c)
    requires forall p | p in seen0 :: Connected(open, {start}, p)
    ensures Grows(open, {start}, q0, seen0, q, seen)
    ensures forall p | p in seen - seen0 :: p in Neighbours(c)
    ensures NeighboursIn(open, seen, c)
    ensures |q0| <= |q| && q[..|q0|] == q0 && forall j | |q0| <= j < |q| :: q[j] in seen - seen0
  {
    var ns := Neighbours(c);
    seen, q := seen0, q0;
    for i := 0 to 4
      invariant Grows(open, {start}, q0, seen0, q, seen)
      invariant forall p | p in seen - seen0 :: p in ns
      invariant |q0| <= |q| && q[..|q0|] == q0 && forall j | |q0| <= j < |q| :: q[j] in seen - seen0
      invariant Covered(ns, i, open, seen)
    {
      var n := ns[i];
      ghost var seen', q' := seen, q;
      if Walkable(cols, rows, walls, n) && n !in seen {
        ConnectedStep(open, {start}, c, n);
        seen := seen + {n};
        q := q + [n];
      }
      CoveredStep(ns, i, open, seen', seen);
    }
  }

  /** A finished flood that saw its seed holds exactly the seed's component. */
  lemma FloodIsComponent(cols: int, rows: int, walls: seq<Cell>, start: Cell, reach: set<Cell>)
    requires Flooding(WalkableCells(cols, rows, walls), {start}, [], reach) && start in reach
    ensures reach == Component(cols, rows, walls, start)
  {
    FloodingDone(WalkableCells(cols, rows, walls), {start}, reach);
  }

  /** One turn of the flood's loop: the head of the queue is dequeued and its neighbours visited. */
  method FloodTurn(cols: int, rows: int, walls: seq<Cell>, ghost open: set<Cell>, ghost start: Cell,
                   reach: set<Cell>, q: seq<Cell>)
    returns (reach': set<Cell>, q': seq<Cell>)
    requires open == WalkableCells(cols, rows, walls)
    requires |q| > 0 && Flooding(open, {start}, q, reach) && start in reach
    ensures Flooding(open, {start}, q', reach') && start in reach'
    ensures open - reach' < open - reach || (reach' == reach && |q'| < |q|)
  {
    var c := q[0];
    reach', q' := VisitNeighbours(cols, rows, walls, open, start, reach, q[1..], c);
    FloodingStep(open, {start}, q, reach, q', reach');
    if reach' != reach {
      FewerUnmarked(open, reach, reach');
    }
  }

  /** The flood with the seed marked as seen from the start: it returns exactly the seed's component. */
  method Flood(cols: int, rows: int, walls: seq<Cell>, start: Cell) returns (reach: set<Cell>)
    requires Walkable(cols, rows, walls, start)
    ensures reach == Component(cols, rows, walls, start)
  {
    ghost var open := WalkableCells(cols, rows, walls);
    ConnectedSource(open, {start}, start);
    reach := {start};
    var q := [start];
    while |q| > 0
      invariant Flooding(open, {start}, q, reach) && start in reach
      decreases open - reach, |q|
    {
      reach, q := FloodTurn(cols, rows, walls, open, start, reach, q);
    }
    FloodIsComponent(cols, rows, walls, start, reach);
  }

  /**
   * The flood as written: `seen.add(start)` adds the array `start`, not its
   * key, so the seed's own cell is seen only when the flood comes back to it
   * from a neighbour. An isolated seed yields an empty reach set.
   */
  method FloodAsWritten(cols: int, rows: int, walls: seq<Cell>, start: Cell) returns (reach: set<Cell>)
    requires Walkable(cols, rows, walls, start)
    ensures reach == if Isolated(cols, rows, walls, start) then {} else Component(cols, rows, walls, start)
  {
    ghost var open := WalkableCells(cols, rows, walls);
    ConnectedSource(open, {start}, start);
    reach := {};
    var q := [start];
    while |q| > 0
      invariant AsWrittenInvariant(cols, rows, walls, open, start, q, reach)
      decreases open - reach, |q|
    {
      var c := q[0];
      var reach', q' := VisitNeighbours(cols, rows, walls, open, start, reach, q[1..], c);
      AsWrittenStep(cols, rows, walls, open, start, q, reach, q', reach');
      if reach' != reach {
        FewerUnmarked(open, reach, reach');
      }
      reach, q := reach', q';
    }
    FloodAsWrittenResult(cols, rows, walls, start, reach);
  }

  /**
   * The invariant of the flood as written: like the corrected flood's, with
   * the seed counted as visited although it is not in `seen` until a
   * neighbour adds it.
   */
  ghost predicate AsWrittenInvariant(cols: int, rows: int, walls: seq<Cell>, open: set<Cell>, start: Cell, q: seq<Cell>, reach: set<Cell>) {
    && open == WalkableCells(cols, rows, walls) && start in open
    && reach <= open
    && (forall p | p in q :: p in reach || p == start)
    && (forall p | p in reach :: Connected(open, {start}, p))
    && (start in reach ==> !Isolated(cols, rows, walls, start))
    && (forall p | (p in reach || p == start) && p !in q :: NeighboursIn(open, reach, p))
  }

  /** One turn of the flood as written keeps its invariant. */
  lemma AsWrittenStep(cols: int, rows: int, walls: seq<Cell>, open: set<Cell>, start: Cell,
                      q: seq<Cell>, reach: set<Cell>, q': seq<Cell>, reach': set<Cell>)
    requires |q| > 0 && AsWrittenInvariant(cols, rows, walls, open, start, q, reach)
    requires Grows(open, {start}, q[1..], reach, q', reach')
    requires forall p | p in reach' - reach :: p in Neighbours(q[0])
    requires NeighboursIn(open, reach', q[0])
    ensures AsWrittenInvariant(cols, rows, walls, open, start, q', reach')
  {
    var c := q[0];
    if start in reach' - reach {
      NeighbourSymmetric(c, start);
      assert c in open;
    }
    forall p | (p in reach' || p == start) && p !in q'
      ensures NeighboursIn(open, reach', p)
    {
      if p != c {
        assert p !in q[1..];
        assert p !in q;
      }
    }
  }

  /** What the finished flood as written has: its seen set from the invariants, with an empty queue. */
  lemma FloodAsWrittenResult(cols: int, rows: int, walls: seq<Cell>, start: Cell, reach: set<Cell>)
    requires Walkable(cols, rows, walls, start)
    requires reach <= WalkableCells(cols, rows, walls)
    requires forall p | p in reach :: Connected(WalkableCells(cols, rows, walls), {start}, p)
    requires start in reach ==> !Isolated(cols, rows, walls, start)
    requires forall p | p in reach || p == start :: NeighboursIn(WalkableCells(cols, rows, walls), reach, p)
    ensures reach == if Isolated(cols, rows, walls, start) then {} else Component(cols, rows, walls, start)
  {
    var open := WalkableCells(cols, rows, walls);
    if Isolated(cols, rows, walls, start) {
      IsolatedComponent(cols, rows, walls, start);
      assert forall p | p in reach :: p in Component(cols, rows, walls, start);
      assert start !in reach;
    } else {
      var n :| n in Neighbours(start) && Walkable(cols, rows, walls, n);
      NeighbourSymmetric(start, n);
      assert start in reach;
      assert Closed(open, reach);
      forall p | p in Component(cols, rows, walls, start)
        ensures p in reach
      {
        ClosedHoldsConnected(open, {start}, reach, p);
      }
    }
  }

  /** The component of an isolated walkable cell is that cell alone. */
  lemma IsolatedComponent(cols: int, rows: int, walls: seq<Cell>, start: Cell)
    requires Walkable(cols, rows, walls, start) && Isolated(cols, rows, walls, start)
    ensures Component(cols, rows, walls, start) == {start}
  {
    var open := WalkableCells(cols, rows, walls);
    ConnectedSource(open, {start}, start);
    assert Closed(open, {start});
    forall p | p in Component(cols, rows, walls, start)
      ensures p == start
    {
      ClosedHoldsConnected(open, {start}, {start}, p);
    }
  }


  // ---------------------------------------------------------------------
  // Reach

  /** The reach set of the check: the seed's component, or nothing without a seed. */
  ghost function Reach(cols: int, rows: int, walls: seq<Cell>): set<Cell> {
    if exists s :: IsSeed(cols, rows, walls, s) then
      var s :| IsSeed(cols, rows, walls, s); Component(cols, rows, walls, s)
    else {}
  }

  /**
   * The reach set holds the seed and only walkable cells, is closed under
   * steps to walkable neighbours, and is empty when no cell is walkable.
   */
  lemma ReachProperties(cols: int, rows: int, walls: seq<Cell>)
    ensures forall p | p in Reach(cols, rows, walls) :: Walkable(cols, rows, walls, p)
    ensures forall s | IsSeed(cols, rows, walls, s) :: s in Reach(cols, rows, walls)
    ensures Closed(WalkableCells(cols, rows, walls), Reach(cols, rows, walls))
    ensures (forall p :: !Walkable(cols, rows, walls, p)) ==> Reach(cols, rows, walls) == {}
  {
    var open := WalkableCells(cols, rows, walls);
    if s :| IsSeed(cols, rows, walls, s) {
      forall t | IsSeed(cols, rows, walls, t)
        ensures Reach(cols, rows, walls) == Component(cols, rows, walls, t)
      {
        var u :| IsSeed(cols, rows, walls, u) && Reach(cols, rows, walls) == Component(cols, rows, walls, u);
        SeedUnique(cols, rows, walls, t, u);
      }
      ConnectedSource(open, {s}, s);
      forall p, n | p in Reach(cols, rows, walls) && n in Neighbours(p) && n in open
        ensures n in Reach(cols, rows, walls)
      {
        ConnectedStep(open, {s}, p, n);
      }
    }
  }

  /** The value Flood returns on the seed FindSeed returns is the reach set. */
  lemma ReachOfSeed(cols: int, rows: int, walls: seq<Cell>, s: Cell)
    requires IsSeed(cols, rows, walls, s)
    ensures Reach(cols, rows, walls) == Component(cols, rows, walls, s)
  {
    var u :| IsSeed(cols, rows, walls, u) && Reach(cols, rows, walls) == Component(cols, rows, walls, u);
    SeedUnique(cols, rows, walls, s, u);
  }

  /**
   * The reach set the check computes as written: the flood as written from
   * the seed, which is empty for an isolated seed, or nothing without a seed.
   */
  ghost function ReachAsWritten(cols: int, rows: int, walls: seq<Cell>): set<Cell> {
    if exists s :: IsSeed(cols, rows, walls, s) then
      var s :| IsSeed(cols, rows, walls, s);
      if Isolated(cols, rows, walls, s) then {} else Component(cols, rows, walls, s)
    else {}
  }

  /** The value FloodAsWritten returns on the seed FindSeed returns is the reach set as written. */
  lemma ReachAsWrittenOfSeed(cols: int, rows: int, walls: seq<Cell>, s: Cell)
    requires IsSeed(cols, rows, walls, s)
    ensures ReachAsWritten(cols, rows, walls) == if Isolated(cols, rows, walls, s) then {} else Component(cols, rows, walls, s)
  {
    var u :| IsSeed(cols, rows, walls, u)
      && ReachAsWritten(cols, rows, walls) == if Isolated(cols, rows, walls, u) then {} else Component(cols, rows, walls, u);
    SeedUnique(cols, rows, walls, s, u);
  }

  /**
   * The two reach sets agree unless the seed is isolated; then the corrected
   * one is the seed alone and the one as written is empty.
   */
  lemma ReachAsWrittenAgrees(cols: int, rows: int, walls: seq<Cell>)
    ensures ReachAsWritten(cols, rows, walls) <= Reach(cols, rows, walls)
    ensures ReachAsWritten(cols, rows, walls) == Reach(cols, rows, walls)
            <==> forall s | IsSeed(cols, rows, walls, s) :: !Isolated(cols, rows, walls, s)
    ensures forall s | IsSeed(cols, rows, walls, s) && Isolated(cols, rows, walls, s) ::
              Reach(cols, rows, walls) == {s} && ReachAsWritten(cols, rows, walls) == {}
  {
    if s :| IsSeed(cols, rows, walls, s) {
      ReachOfSeed(cols, rows, walls, s);
      ReachAsWrittenOfSeed(cols, rows, walls, s);
      forall t | IsSeed(cols, rows, walls, t)
        ensures t == s
      {
        SeedUnique(cols, rows, walls, s, t);
      }
      if Isolated(cols, rows, walls, s) {
        IsolatedComponent(cols, rows, walls, s);
      }
    }
  }

  /**
   * With an isolated seed, the check as written reports exactly the sites on
   * the seed's cell unreachable in addition to those the corrected check reports.
   */
  lemma AsWrittenExtraUnreachable(sites: seq<Marker>, cols: int, rows: int, walls: seq<Cell>, cell: int, m: Marker)
    requires cell > 0
    ensures (m in Unreachable(sites, ReachAsWritten(cols, rows, walls), cell) && m !in Unreachable(sites, Reach(cols, rows, walls), cell))
            <==> m in sites && IsSeed(cols, rows, walls, MarkerCell(m, cell)) && Isolated(cols, rows, walls, MarkerCell(m, cell))
  {
    ReachAsWrittenAgrees(cols, rows, walls);
    ReachProperties(cols, rows, walls);
    if s :| IsSeed(cols, rows, walls, s) {
      ReachOfSeed(cols, rows, walls, s);
      ConnectedSource(WalkableCells(cols, rows, walls), {s}, s);
      if !Isolated(cols, rows, walls, s) && IsSeed(cols, rows, walls, MarkerCell(m, cell)) {
        SeedUnique(cols, rows, walls, s, MarkerCell(m, cell));
      }
    }
  }

  /**
   * The smallest instance of the flood's seed bug: a 1x1 grid without walls.
   * Its only cell is the seed and is in the seed's component, but the flood
   * as written reaches nothing, so a site on that cell is reported
   * unreachable by the check as written and not by the corrected one.
   */
  lemma SeedBugExample()
    ensures IsSeed(1, 1, [], (0, 0)) && Isolated(1, 1, [], (0, 0))
    ensures (0, 0) in Component(1, 1, [], (0, 0))
    ensures MarkerCell(Marker(1, "Rampe", 5.0, 5.0), 10) == (0, 0)
    ensures ReachAsWritten(1, 1, []) == {} && Reach(1, 1, []) == {(0, 0)}
    ensures Unreachable([Marker(1, "Rampe", 5.0, 5.0)], ReachAsWritten(1, 1, []), 10) == [Marker(1, "Rampe", 5.0, 5.0)]
    ensures Unreachable([Marker(1, "Rampe", 5.0, 5.0)], Reach(1, 1, []), 10) == []
  {
    IsolatedComponent(1, 1, [], (0, 0));
    ReachOfSeed(1, 1, [], (0, 0));
    ReachAsWrittenOfSeed(1, 1, [], (0, 0));
    var site := Marker(1, "Rampe", 5.0, 5.0);
    assert MarkerCell(site, 10) == (0, 0);
    assert [site][1..] == [];
  }

  // ---------------------------------------------------------------------
  // Sites, coverage and gaps

  /** The unreachable-site filter, keeping the order of the sites. */
  function Unreachable(sites: seq<Marker>, reach: set<Cell>, cell: int): (r: seq<Marker>)
    requires cell > 0
    ensures |r| <= |sites|
    ensures forall s :: s in r <==> s in sites && MarkerCell(s, cell) !in reach
  {
    if sites == [] then []
    else
      var rest := Unreachable(sites[1..], reach, cell);
      assert forall s :: s in sites <==> s == sites[0] || s in sites[1..];
      (if MarkerCell(sites[0], cell) !in reach then [sites[0]] else []) + rest
  }

  /**
   * The coverage test: `walls.size/(cols*rows)` above 0.85 or below 0.05.
   * On an empty grid the ratio is Infinity, which warns when there are walls,
   * or NaN, which does not. On a non-empty grid it is a comparison of
   * integers: more than 85% or less than 5% walls.
   */
  predicate CoverageOdd(blocked: nat, total: int): (odd: bool)
    ensures total > 0 ==> (odd <==> 100 * blocked > 85 * total || 100 * blocked < 5 * total)
    ensures total == 0 ==> (odd <==> blocked > 0)
  {
    if total == 0 then blocked > 0
    else
      var ratio := blocked as real / total as real;
      QuotientAbove(blocked as real, total as real, 0.85);
      QuotientBelow(blocked as real, total as real, 0.05);
      ratio > 0.85 || ratio < 0.05
  }

  lemma QuotientBelow(c: real, t: real, o: real)
    ensures t > 0.0 ==> (c / t < o <==> c < o * t)
  {
    if t <= 0.0 {
      return;
    }
    var q := c / t;
    assert c == q * t;
    if q < o {
      assert (o - q) * t > 0.0;
    } else {
      assert (q - o) * t >= 0.0;
    }
  }

  lemma QuotientAbove(c: real, t: real, o: real)
    ensures t > 0.0 ==> (c / t > o <==> c > o * t)
  {
    if t <= 0.0 {
      return;
    }
    var q := c / t;
    assert c == q * t;
    if q > o {
      assert (q - o) * t > 0.0;
    } else {
      assert (o - q) * t >= 0.0;
    }
  }

  /** The gaps of one start point on a walkable cell: one per site that is not walkable or not reached. */
  function SiteGaps(sp: Marker, sites: seq<Marker>, cols: int, rows: int, walls: seq<Cell>, reach: set<Cell>, cell: int): seq<Gap>
    requires cell > 0
  {
    if sites == [] then []
    else SiteGap(sp, sites[0], cols, rows, walls, reach, cell) + SiteGaps(sp, sites[1..], cols, rows, walls, reach, cell)
  }

  /** The gap of one start point and one site, if the site is blocked or not reached. */
  function SiteGap(sp: Marker, site: Marker, cols: int, rows: int, walls: seq<Cell>, reach: set<Cell>, cell: int): seq<Gap>
    requires cell > 0
  {
    var t := MarkerCell(site, cell);
    if !Walkable(cols, rows, walls, t) || t !in reach then [Unconnected(sp, site)] else []
  }

  /** The gaps of one start point: a start on a blocked cell gives one gap and no per-site gaps. */
  function StartGaps(sp: Marker, sites: seq<Marker>, cols: int, rows: int, walls: seq<Cell>, reach: set<Cell>, cell: int): seq<Gap>
    requires cell > 0
  {
    if !Walkable(cols, rows, walls, MarkerCell(sp, cell)) then [OnBlockedCell(sp)]
    else SiteGaps(sp, sites, cols, rows, walls, reach, cell)
  }

  /** The gaps of all start points, in order. */
  function Gaps(starts: seq<Marker>, sites: seq<Marker>, cols: int, rows: int, walls: seq<Cell>, reach: set<Cell>, cell: int): seq<Gap>
    requires cell > 0
  {
    if starts == [] then []
    else StartGaps(starts[0], sites, cols, rows, walls, reach, cell) + Gaps(starts[1..], sites, cols, rows, walls, reach, cell)
  }

  /** The inner gap loop: the sites one walkable start point does not reach. */
  method CollectSiteGaps(sp: Marker, sites: seq<Marker>, cols: int, rows: int, walls: seq<Cell>, reach: set<Cell>, cell: int)
    returns (gaps: seq<Gap>)
    requires cell > 0
    ensures gaps == SiteGaps(sp, sites, cols, rows, walls, reach, cell)
  {
    gaps := [];
    for j := 0 to |sites|
      invariant gaps + SiteGaps(sp, sites[j..], cols, rows, walls, reach, cell) == SiteGaps(sp, sites, cols, rows, walls, reach, cell)
    {
      assert sites[j..][1..] == sites[j + 1..];
      AppendAssoc(gaps, SiteGap(sp, sites[j], cols, rows, walls, reach, cell), SiteGaps(sp, sites[j + 1..], cols, rows, walls, reach, cell));
      var t := MarkerCell(sites[j], cell);
      if !Walkable(cols, rows, walls, t) || t !in reach {
        gaps := gaps + [Unconnected(sp, sites[j])];
      }
    }
  }

  /** The gap loops of the check; `continue` skips the sites of a blocked start. */
  method CollectGaps(starts: seq<Marker>, sites: seq<Marker>, cols: int, rows: int, walls: seq<Cell>, reach: set<Cell>, cell: int)
    returns (gaps: seq<Gap>)
    requires cell > 0
    ensures gaps == Gaps(starts, sites, cols, rows, walls, reach, cell)
  {
    gaps := [];
    for i := 0 to |starts|
      invariant gaps + Gaps(starts[i..], sites, cols, rows, walls, reach, cell) == Gaps(starts, sites, cols, rows, walls, reach, cell)
    {
      var sp := starts[i];
      assert starts[i..][1..] == starts[i + 1..];
      assert Gaps(starts[i..], sites, cols, rows, walls, reach, cell)
          == StartGaps(sp, sites, cols, rows, walls, reach, cell) + Gaps(starts[i + 1..], sites, cols, rows, walls, reach, cell);
      AppendAssoc(gaps, StartGaps(sp, sites, cols, rows, walls, reach, cell), Gaps(starts[i + 1..], sites, cols, rows, walls, reach, cell));
      if !Walkable(cols, rows, walls, MarkerCell(sp, cell)) {
        gaps := gaps + [OnBlockedCell(sp)];
        continue;
      }
      var more := CollectSiteGaps(sp, sites, cols, rows, walls, reach, cell);
      gaps := gaps + more;
    }
  }

  lemma {:induction false} SiteGapsMembers(sp: Marker, sites: seq<Marker>, cols: int, rows: int, walls: seq<Cell>, reach: set<Cell>, cell: int)
    requires cell > 0
    ensures forall g :: g in SiteGaps(sp, sites, cols, rows, walls, reach, cell) <==>
              g.Unconnected? && g.start == sp && g.site in sites
              && (!Walkable(cols, rows, walls, MarkerCell(g.site, cell)) || MarkerCell(g.site, cell) !in reach)
  {
    if sites != [] {
      SiteGapsMembers(sp, sites[1..], cols, rows, walls, reach, cell);
      assert forall s :: s in sites <==> s == sites[0] || s in sites[1..];
    }
  }

  /**
   * Which gaps are reported: a start on a blocked cell, or a walkable start
   * together with a site that is not walkable or not reached.
   */
  lemma {:induction false} GapsMembers(starts: seq<Marker>, sites: seq<Marker>, cols: int, rows: int, walls: seq<Cell>, reach: set<Cell>, cell: int)
    requires cell > 0
    ensures forall g :: g in Gaps(starts, sites, cols, rows, walls, reach, cell) <==>
              g.start in starts
              && (g.OnBlockedCell? ==> !Walkable(cols, rows, walls, MarkerCell(g.start, cell)))
              && (g.Unconnected? ==>
                    (Walkable(cols, rows, walls, MarkerCell(g.start, cell)) && g.site in sites
                     && (!Walkable(cols, rows, walls, MarkerCell(g.site, cell)) || MarkerCell(g.site, cell) !in reach)))
  {
    if starts != [] {
      GapsMembers(starts[1..], sites, cols, rows, walls, reach, cell);
      SiteGapsMembers(starts[0], sites, cols, rows, walls, reach, cell);
      assert forall s :: s in starts <==> s == starts[0] || s in starts[1..];
    }
  }

  /**
   * Every reached cell is walkable, in either reach set, so the walkable test
   * of a site's gap adds nothing to the reach test.
   */
  lemma ReachImpliesWalkable(cols: int, rows: int, walls: seq<Cell>, t: Cell)
    ensures (!Walkable(cols, rows, walls, t) || t !in ReachAsWritten(cols, rows, walls)) <==> t !in ReachAsWritten(cols, rows, walls)
    ensures (!Walkable(cols, rows, walls, t) || t !in Reach(cols, rows, walls)) <==> t !in Reach(cols, rows, walls)
  {
    ReachProperties(cols, rows, walls);
    ReachAsWrittenAgrees(cols, rows, walls);
  }

  // ---------------------------------------------------------------------
  // The check

  /** An alert when its condition holds, in push order. */
  function Pushed(c: bool, a: Alert): seq<Alert> {
    if c then [a] else []
  }

  /** The calibration and site warnings, pushed before anything else. */
  method Warnings(pxPerMeter: real, sites: seq<Marker>) returns (alerts: seq<Alert>)
    ensures alerts == Pushed(pxPerMeter <= 0.0, NoCalibration) + Pushed(|sites| == 0, NoSites)
    ensures NoCalibration in alerts <==> pxPerMeter <= 0.0
    ensures NoSites in alerts <==> |sites| == 0
  {
    alerts := [];
    if pxPerMeter <= 0.0 {
      alerts := alerts + [NoCalibration];
    }
    if |sites| == 0 {
      alerts := alerts + [NoSites];
    }
  }

  /**
   * The grid part of the check for a given reach set: the unreachable-sites
   * alert, the coverage alert and the gaps alert, each pushed after `alerts0`
   * only when its condition holds.
   */
  method GridAlerts(alerts0: seq<Alert>, sites: seq<Marker>, starts: seq<Marker>,
                    cols: int, rows: int, walls: seq<Cell>, cell: int, reach: set<Cell>)
    returns (alerts: seq<Alert>, unreachable: seq<Marker>, gaps: seq<Gap>)
    requires cell > 0
    ensures unreachable == Unreachable(sites, reach, cell)
    ensures gaps == (if |starts| > 0 && |sites| > 0 then Gaps(starts, sites, cols, rows, walls, reach, cell) else [])
    ensures alerts == alerts0 + Pushed(|unreachable| > 0, UnreachableSites(|unreachable|))
                     + Pushed(CoverageOdd(|walls|, cols * rows), OddCoverage)
                     + Pushed(|gaps| > 0, PathGaps(|gaps|))
  {
    alerts := alerts0;
    unreachable := Unreachable(sites, reach, cell);
    if |unreachable| > 0 {
      alerts := alerts + [UnreachableSites(|unreachable|)];
    }
    ghost var a1 := alerts;
    assert a1 == alerts0 + Pushed(|unreachable| > 0, UnreachableSites(|unreachable|));
    if CoverageOdd(|walls|, cols * rows) {
      alerts := alerts + [OddCoverage];
    }
    ghost var a2 := alerts;
    assert a2 == a1 + Pushed(CoverageOdd(|walls|, cols * rows), OddCoverage);
    gaps := [];
    if |starts| > 0 && |sites| > 0 {
      gaps := CollectGaps(starts, sites, cols, rows, walls, reach, cell);
      if |gaps| > 0 {
        alerts := alerts + [PathGaps(|gaps|)];
      }
    }
    assert alerts == a2 + Pushed(|gaps| > 0, PathGaps(|gaps|));
  }

  /**
   * Quality.check as written. The calibration alert comes first, then the
   * sites alert; with a grid, the unreachable-sites alert, the coverage alert
   * and the gaps alert follow, each pushed only when its condition holds.
   * The reach set is the one the flood as written computes.
   */
  method Check(pxPerMeter: real, sites: seq<Marker>, starts: seq<Marker>, grid: Grid?)
    returns (alerts: seq<Alert>, unreachable: seq<Marker>, gaps: seq<Gap>)
    requires grid != null ==> grid.cell > 0 && grid.Valid()
    ensures grid == null ==> alerts == Pushed(pxPerMeter <= 0.0, NoCalibration) + Pushed(|sites| == 0, NoSites)
    ensures grid == null ==> unreachable == [] && gaps == []
    ensures grid != null ==>
      var reach := ReachAsWritten(grid.cols, grid.rows, grid.walls);
      && unreachable == Unreachable(sites, reach, grid.cell)
      && gaps == (if |starts| > 0 && |sites| > 0 then Gaps(starts, sites, grid.cols, grid.rows, grid.walls, reach, grid.cell) else [])
      && alerts == Pushed(pxPerMeter <= 0.0, NoCalibration) + Pushed(|sites| == 0, NoSites)
                   + Pushed(|unreachable| > 0, UnreachableSites(|unreachable|))
                   + Pushed(CoverageOdd(|grid.walls|, grid.cols * grid.rows), OddCoverage)
                   + Pushed(|gaps| > 0, PathGaps(|gaps|))
  {
    alerts := Warnings(pxPerMeter, sites);
    unreachable, gaps := [], [];
    if grid != null {
      var reach := Reachability(grid.cols, grid.rows, grid.walls);
      alerts, unreachable, gaps := GridAlerts(alerts, sites, starts, grid.cols, grid.rows, grid.walls, grid.cell, reach);
    }
  }

  /**
   * The check with the corrected flood: the same alerts, computed from the
   * seed's whole component. By ReachAsWrittenAgrees it differs from Check
   * only when the seed is isolated.
   */
  method CheckCorrected(pxPerMeter: real, sites: seq<Marker>, starts: seq<Marker>, grid: Grid?)
    returns (alerts: seq<Alert>, unreachable: seq<Marker>, gaps: seq<Gap>)
    requires grid != null ==> grid.cell > 0 && grid.Valid()
    ensures grid == null ==> alerts == Pushed(pxPerMeter <= 0.0, NoCalibration) + Pushed(|sites| == 0, NoSites)
    ensures grid == null ==> unreachable == [] && gaps == []
    ensures grid != null ==>
      var reach := Reach(grid.cols, grid.rows, grid.walls);
      && unreachable == Unreachable(sites, reach, grid.cell)
      && gaps == (if |starts| > 0 && |sites| > 0 then Gaps(starts, sites, grid.cols, grid.rows, grid.walls, reach, grid.cell) else [])
      && alerts == Pushed(pxPerMeter <= 0.0, NoCalibration) + Pushed(|sites| == 0, NoSites)
                   + Pushed(|unreachable| > 0, UnreachableSites(|unreachable|))
                   + Pushed(CoverageOdd(|grid.walls|, grid.cols * grid.rows), OddCoverage)
                   + Pushed(|gaps| > 0, PathGaps(|gaps|))
  {
    alerts := Warnings(pxPerMeter, sites);
    unreachable, gaps := [], [];
    if grid != null {
      var reach := ReachabilityCorrected(grid.cols, grid.rows, grid.walls);
      alerts, unreachable, gaps := GridAlerts(alerts, sites, starts, grid.cols, grid.rows, grid.walls, grid.cell, reach);
    }
  }

  /** The seed search and the flood as written from the seed: the reach set of the check. */
  method Reachability(cols: int, rows: int, walls: seq<Cell>) returns (reach: set<Cell>)
    ensures reach == ReachAsWritten(cols, rows, walls)
  {
    var seed := FindSeed(cols, rows, walls);
    reach := {};
    if seed.Some? {
      reach := FloodAsWritten(cols, rows, walls, seed.value);
      ReachAsWrittenOfSeed(cols, rows, walls, seed.value);
    } else {
      assert forall s :: !IsSeed(cols, rows, walls, s);
    }
  }

  /** The seed search and the corrected flood from the seed. */
  method ReachabilityCorrected(cols: int, rows: int, walls: seq<Cell>) returns (reach: set<Cell>)
    ensures reach == Reach(cols, rows, walls)
  {
    var seed := FindSeed(cols, rows, walls);
    reach := {};
    if seed.Some? {
      reach := Flood(cols, rows, walls, seed.value);
      ReachOfSeed(cols, rows, walls, seed.value);
    } else {
      ReachProperties(cols, rows, walls);
    }
  }

  /**
   * A site is reported unreachable by the check as written iff its cell is
   * not in the seed's component or the seed is isolated.
   */
  lemma UnreachableIff(sites: seq<Marker>, cols: int, rows: int, walls: seq<Cell>, cell: int, s: Marker, seed: Cell)
    requires cell > 0 && IsSeed(cols, rows, walls, seed)
    ensures s in Unreachable(sites, ReachAsWritten(cols, rows, walls), cell)
            <==> s in sites && (Isolated(cols, rows, walls, seed) || MarkerCell(s, cell) !in Component(cols, rows, walls, seed))
  {
    ReachAsWrittenOfSeed(cols, rows, walls, seed);
  }
}

/**
 * Cells of a raster or of the occupancy grid as (column, row) pairs, their
 * four neighbours, and 4-connected paths through a set of open cells. Both
 * breadth-first searches of the system (the hole fill of morph.js and the
 * reachability flood of quality.js) are proved against `Connected`.
 */
module Cells {
  type Cell = (int, int)

  /** The four neighbours in the order both searches visit them: +x, -x, +y, -y. */
  function Neighbours(p: Cell): (ns: seq<Cell>)
    ensures |ns| == 4
  {
    [(p.0 + 1, p.1), (p.0 - 1, p.1), (p.0, p.1 + 1), (p.0, p.1 - 1)]
  }

  /** The neighbour relation is symmetric. */
  lemma NeighbourSymmetric(p: Cell, q: Cell)
    requires q in Neighbours(p)
    ensures p in Neighbours(q)
  {
  }

  /** A non-empty walk through open cells, each step to one of the four neighbours. */
  ghost predicate IsPath(open: set<Cell>, path: seq<Cell>) {
    && |path| > 0
    && (forall i | 0 <= i < |path| :: path[i] in open)
    && (forall i | 0 < i < |path| :: path[i] in Neighbours(path[i - 1]))
  }

  /** `p` can be reached from one of `sources` through open cells. */
  ghost predicate Connected(open: set<Cell>, sources: set<Cell>, p: Cell) {
    exists path :: IsPath(open, path) && path[0] in sources && path[|path| - 1] == p
  }

  /** No step leads from `s` to an open cell outside `s`. */
  ghost predicate Closed(open: set<Cell>, s: set<Cell>) {
    forall p, q | p in s && q in Neighbours(p) && q in open :: q in s
  }

  lemma ConnectedSource(open: set<Cell>, sources: set<Cell>, p: Cell)
    requires p in open && p in sources
    ensures Connected(open, sources, p)
  {
    assert IsPath(open, [p]);
  }

  lemma ConnectedStep(open: set<Cell>, sources: set<Cell>, p: Cell, q: Cell)
    requires Connected(open, sources, p) && q in open && q in Neighbours(p)
    ensures Connected(open, sources, q)
  {
    var path :| IsPath(open, path) && path[0] in sources && path[|path| - 1] == p;
    var longer := path + [q];
    assert IsPath(open, longer);
  }

  lemma {:induction false} PathStaysInside(open: set<Cell>, s: set<Cell>, path: seq<Cell>, n: nat)
    requires IsPath(open, path) && path[0] in s && Closed(open, s)
    requires n < |path|
    ensures path[n] in s
  {
    if n > 0 {
      PathStaysInside(open, s, path, n - 1);
    }
  }

  /**
   * A set that holds every open source and is closed under steps holds
   * every connected cell: what a finished breadth-first search relies on.
   */
  lemma ClosedHoldsConnected(open: set<Cell>, sources: set<Cell>, s: set<Cell>, p: Cell)
    requires sources * open <= s && Closed(open, s)
    requires Connected(open, sources, p)
    ensures p in s
  {
    var path :| IsPath(open, path) && path[0] in sources && path[|path| - 1] == p;
    PathStaysInside(open, s, path, |path| - 1);
  }

  /** Only open cells are connected. */
  lemma ConnectedIsOpen(open: set<Cell>, sources: set<Cell>, p: Cell)
    requires Connected(open, sources, p)
    ensures p in open
  {
  }

  // ---------------------------------------------------------------------
  // Breadth-first search: the queue `q` and the set `seen` of cells already
  // marked, from which the queue is fed.

  /**
   * How a run of pushes changes a search: `seen` only grows, within the open
   * cells and connected to the sources; the queue keeps its entries, gains
   * only seen cells, gains every newly seen one, and is unchanged when
   * nothing new was seen.
   */
  ghost predicate Grows(open: set<Cell>, sources: set<Cell>, q: seq<Cell>, seen: set<Cell>, q': seq<Cell>, seen': set<Cell>) {
    && seen <= seen' <= open
    && (seen' == seen ==> q' == q)
    && (forall c' | c' in q :: c' in q')
    && (forall c' | c' in q' :: c' in q || c' in seen')
    && (forall c' | c' in seen' && c' !in seen :: c' in q')
    && (forall c' | c' in seen' :: Connected(open, sources, c'))
  }

  lemma GrowsTrans(open: set<Cell>, sources: set<Cell>, q0: seq<Cell>, s0: set<Cell>, q1: seq<Cell>, s1: set<Cell>, q2: seq<Cell>, s2: set<Cell>)
    requires Grows(open, sources, q0, s0, q1, s1) && Grows(open, sources, q1, s1, q2, s2)
    ensures Grows(open, sources, q0, s0, q2, s2)
  {
  }

  /** The open cells among the first `t` of `ns` are seen. */
  ghost predicate Covered(ns: seq<Cell>, t: int, open: set<Cell>, seen: set<Cell>)
    requires 0 <= t <= |ns|
  {
    forall t' | 0 <= t' < t :: ns[t'] in open ==> ns[t'] in seen
  }

  lemma CoveredStep(ns: seq<Cell>, t: int, open: set<Cell>, seen: set<Cell>, seen': set<Cell>)
    requires 0 <= t < |ns| && Covered(ns, t, open, seen) && seen <= seen'
    requires ns[t] in open ==> ns[t] in seen'
    ensures Covered(ns, t + 1, open, seen')
  {
  }

  /**
   * The invariant of a breadth-first loop: seen cells are open and connected
   * to the sources, queued cells are seen, and every seen cell that has left
   * the queue has all its open neighbours seen.
   */
  ghost predicate Flooding(open: set<Cell>, sources: set<Cell>, q: seq<Cell>, seen: set<Cell>) {
    && seen <= open
    && (forall c | c in q :: c in seen)
    && (forall c | c in seen :: Connected(open, sources, c))
    && (forall c, n | c in seen && c !in q && n in Neighbours(c) && n in open :: n in seen)
  }

  /** Dequeuing the head of the queue and pushing its open neighbours keeps the invariant. */
  lemma FloodingStep(open: set<Cell>, sources: set<Cell>, q: seq<Cell>, seen: set<Cell>, q': seq<Cell>, seen': set<Cell>)
    requires |q| > 0 && Flooding(open, sources, q, seen)
    requires Grows(open, sources, q[1..], seen, q', seen')
    requires forall n | n in Neighbours(q[0]) && n in open :: n in seen'
    ensures Flooding(open, sources, q', seen')
  {
    forall c, n | c in seen' && c !in q' && n in Neighbours(c) && n in open
      ensures n in seen'
    {
      if c != q[0] {
        assert c in seen && c !in q[1..];
        assert c !in q;
      }
    }
  }

  /**
   * When the queue is empty, the seen cells are exactly the open cells
   * connected to the sources, provided every open source was seen.
   */
  lemma FloodingDone(open: set<Cell>, sources: set<Cell>, seen: set<Cell>)
    requires Flooding(open, sources, [], seen) && sources * open <= seen
    ensures forall p :: p in seen <==> p in open && Connected(open, sources, p)
  {
    assert Closed(open, seen);
    forall p | p in open && Connected(open, sources, p)
      ensures p in seen
    {
      ClosedHoldsConnected(open, sources, seen, p);
    }
  }

  /** Seeing more open cells leaves fewer unseen ones: the search terminates. */
  lemma FewerUnmarked(open: set<Cell>, seen: set<Cell>, seen': set<Cell>)
    requires seen <= seen' <= open && seen' != seen
    ensures open - seen' < open - seen
  {
    var c :| c in seen' && c !in seen;
    assert c in open - seen;
  }
}

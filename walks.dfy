// What a search over a 4-connected tile grid is about: which cells may be
// entered, what a walk from a start cell is, and which cells border unexplored
// ground. The breadth-first searches are specified in these terms.

module Walks {
  import opened Geometry
  import opened Tiles

  /** A cell lies on a grid of the given width (first index) and height (second index). */
  predicate IsInBounds(p: Position, width: int, height: int)
  {
    p.x >= 0 && p.x < width && p.y >= 0 && p.y < height
  }

  /** Rooms and opened doors can be entered; walls, outside, unknown cells and closed doors cannot. */
  predicate IsTraversable(t: Tile)
  {
    match t
    case Wall => false
    case Outside => false
    case Door(isOpened) => isOpened
    case Room => true
    case Unknown => false
  }

  lemma TraversableTiles(t: Tile)
    ensures IsTraversable(t) <==> t == Room || t == Door(true)
  {
  }

  predicate OnGrid(m: array2<Tile>, p: Position)
  {
    IsInBounds(p, m.Length0, m.Length1)
  }

  /** A cell a walk may step onto: on the grid and traversable. */
  predicate Open(m: array2<Tile>, p: Position)
    reads m
  {
    OnGrid(m, p) && IsTraversable(m[p.x, p.y])
  }

  predicate IsUnknownCell(m: array2<Tile>, p: Position)
    reads m
  {
    OnGrid(m, p) && m[p.x, p.y] == Unknown
  }

  /** The cell a path (that leaves `s` out) ends on. */
  function Last(s: Position, path: seq<Position>): Position
  {
    if |path| == 0 then s else path[|path| - 1]
  }

  /** The cell a path visits just before its `i`-th element. */
  function Prev(s: Position, path: seq<Position>, i: int): Position
    requires 0 <= i < |path|
  {
    if i == 0 then s else path[i - 1]
  }

  /**
   * A walk from `s`: every element is open and is a 4-neighbour of the cell
   * before it. The start itself is not part of the walk and need not be open.
   */
  ghost predicate IsWalk(m: array2<Tile>, s: Position, path: seq<Position>)
    reads m
  {
    // triggered on Prev so that unfolding Prev (which mentions path[i - 1]) does not re-trigger it
    forall i {:trigger Prev(s, path, i)} :: 0 <= i < |path| ==> Open(m, path[i]) && path[i] in Neighbors(Prev(s, path, i))
  }

  ghost predicate WalkTo(m: array2<Tile>, s: Position, path: seq<Position>, g: Position)
    reads m
  {
    IsWalk(m, s, path) && Last(s, path) == g
  }

  /** A walk from `s` to `g` that no other walk from `s` to `g` undercuts. */
  ghost predicate Shortest(m: array2<Tile>, s: Position, path: seq<Position>, g: Position)
    reads m
  {
    WalkTo(m, s, path, g) && forall q :: WalkTo(m, s, q, g) ==> |path| <= |q|
  }

  /**
   * `path` leads from `s` to a cell beside the unknown cell `u`. Only the
   * start can be visited without being entered, so `u` is never the start.
   */
  ghost predicate IsFrontier(m: array2<Tile>, s: Position, path: seq<Position>, u: Position)
    reads m
  {
    IsWalk(m, s, path) && u in Neighbors(Last(s, path)) && IsUnknownCell(m, u) && u != s
  }

  /** Every cell of a walk is on the grid and is a room or an opened door. */
  lemma WalkCellsPassable(m: array2<Tile>, s: Position, path: seq<Position>)
    requires IsWalk(m, s, path)
    ensures forall i :: 0 <= i < |path| ==>
      OnGrid(m, path[i]) && (m[path[i].x, path[i].y] == Room || m[path[i].x, path[i].y] == Door(true))
  {
    forall i | 0 <= i < |path|
      ensures OnGrid(m, path[i]) && (m[path[i].x, path[i].y] == Room || m[path[i].x, path[i].y] == Door(true))
    {
      WalkAt(m, s, path, i);
      TraversableTiles(m[path[i].x, path[i].y]);
    }
  }

  /**
   * The unknown cell of a frontier lies on the grid and off the walk, beside
   * the walk's last cell, or beside the start when the walk is empty.
   */
  lemma FrontierFacts(m: array2<Tile>, s: Position, path: seq<Position>, u: Position)
    requires IsFrontier(m, s, path, u)
    ensures OnGrid(m, u) && u !in path
    ensures |path| > 0 ==> u in Neighbors(path[|path| - 1])
    ensures |path| == 0 ==> u in Neighbors(s)
  {
    if u in path {
      var i :| 0 <= i < |path| && path[i] == u;
      WalkAt(m, s, path, i);
    }
  }

  /** One step of a walk. */
  lemma WalkAt(m: array2<Tile>, s: Position, path: seq<Position>, i: int)
    requires IsWalk(m, s, path) && 0 <= i < |path|
    ensures Open(m, path[i]) && path[i] in Neighbors(Prev(s, path, i))
  {
  }

  /** Every prefix of a walk is a walk. */
  lemma WalkPrefix(m: array2<Tile>, s: Position, path: seq<Position>, k: nat)
    requires IsWalk(m, s, path) && k <= |path|
    ensures IsWalk(m, s, path[..k])
    ensures k > 0 ==> Last(s, path[..k]) == path[k - 1]
  {
    var q := path[..k];
    forall i | 0 <= i < |q|
      ensures Open(m, q[i]) && q[i] in Neighbors(Prev(s, q, i))
    {
      WalkAt(m, s, path, i);
      assert q[i] == path[i];
      assert Prev(s, q, i) == Prev(s, path, i);
    }
  }

  /** What is left of a walk after one of its cells is again a walk, from that cell. */
  lemma WalkSuffix(m: array2<Tile>, s: Position, path: seq<Position>, k: nat)
    requires IsWalk(m, s, path) && k < |path|
    ensures IsWalk(m, path[k], path[k + 1..])
    ensures Last(path[k], path[k + 1..]) == Last(s, path)
  {
    var q := path[k + 1..];
    forall i | 0 <= i < |q|
      ensures Open(m, q[i]) && q[i] in Neighbors(Prev(path[k], q, i))
    {
      var j := k + 1 + i;
      WalkAt(m, s, path, j);
      assert q[i] == path[j];
      assert Prev(path[k], q, i) == path[j - 1];
    }
    LastSuffix(s, path, k);
  }

  lemma LastSuffix(s: Position, path: seq<Position>, k: nat)
    requires k < |path|
    ensures Last(path[k], path[k + 1..]) == Last(s, path)
  {
    var q := path[k + 1..];
    if |q| > 0 {
      assert q[|q| - 1] == path[|path| - 1];
    }
  }

  /** Dropping the last cell of a path leaves a path that ends where that cell was entered from. */
  lemma LastPrefix(s: Position, path: seq<Position>)
    requires |path| > 0
    ensures Last(s, path[..|path| - 1]) == Prev(s, path, |path| - 1)
  {
  }

  /** A walk can be extended by one more open neighbour of its end. */
  lemma WalkExtend(m: array2<Tile>, s: Position, path: seq<Position>, x: Position)
    requires IsWalk(m, s, path) && Open(m, x) && x in Neighbors(Last(s, path))
    ensures WalkTo(m, s, path + [x], x)
  {
    var q := path + [x];
    forall i | 0 <= i < |q|
      ensures Open(m, q[i]) && q[i] in Neighbors(Prev(s, q, i))
    {
      if i < |path| {
        WalkAt(m, s, path, i);
        assert q[i] == path[i];
        assert Prev(s, q, i) == Prev(s, path, i);
      }
    }
  }

  /** A walk that ends anywhere other than its start ends on an open cell. */
  lemma WalkEndOpen(m: array2<Tile>, s: Position, path: seq<Position>, g: Position)
    requires WalkTo(m, s, path, g) && g != s
    ensures Open(m, g)
  {
    WalkAt(m, s, path, |path| - 1);
  }

  /** A shortest walk never comes back to its start. */
  lemma ShortestAvoidsStart(m: array2<Tile>, s: Position, path: seq<Position>, g: Position)
    requires Shortest(m, s, path, g)
    ensures s !in path
  {
    if s in path {
      var k :| 0 <= k < |path| && path[k] == s;
      WalkSuffix(m, s, path, k);
    }
  }

  /**
   * Walking a walk backwards: from its end, through its cells in reverse, back
   * to the start. This needs the start to be open, since it is now entered.
   */
  lemma {:induction false} WalkReverse(m: array2<Tile>, s: Position, path: seq<Position>)
    requires IsWalk(m, s, path) && Open(m, s)
    ensures WalkTo(m, Last(s, path), Backwards(s, path), s)
    ensures |Backwards(s, path)| == |path|
    decreases |path|
  {
    if |path| > 0 {
      var n := |path|;
      var q := path[..n - 1];
      WalkPrefix(m, s, path, n - 1);
      WalkReverse(m, s, q);
      // Backwards(s, path) == [Last(s, q)] + Backwards(s, q), which starts one step from path[n - 1]
      assert Backwards(s, path) == [Last(s, q)] + Backwards(s, q);
      NeighborsSymmetric(Prev(s, path, n - 1), path[n - 1]);
      WalkAt(m, s, path, n - 1);
      assert Open(m, Last(s, q)) by {
        if n > 1 { WalkAt(m, s, path, n - 2); assert Last(s, q) == path[n - 2]; }
      }
      WalkCons(m, path[n - 1], Last(s, q), Backwards(s, q));
    }
  }

  /** A walk from `a` can be entered from any neighbour of `a`, when `a` is open. */
  lemma WalkCons(m: array2<Tile>, s: Position, a: Position, b: seq<Position>)
    requires IsWalk(m, a, b) && Open(m, a) && a in Neighbors(s)
    ensures IsWalk(m, s, [a] + b) && Last(s, [a] + b) == Last(a, b)
  {
    var r := [a] + b;
    forall i | 0 <= i < |r|
      ensures Open(m, r[i]) && r[i] in Neighbors(Prev(s, r, i))
    {
      if i > 0 {
        WalkAt(m, a, b, i - 1);
        assert r[i] == b[i - 1];
        assert Prev(s, r, i) == Prev(a, b, i - 1);
      }
    }
  }

  /** The cells of a walk in reverse order, ending on its start. */
  function Backwards(s: Position, path: seq<Position>): seq<Position>
    decreases |path|
  {
    if |path| == 0 then [] else [Last(s, path[..|path| - 1])] + Backwards(s, path[..|path| - 1])
  }

  /**
   * Between two open cells, shortest walks have the same length in both
   * directions.
   */
  lemma ShortestSymmetric(m: array2<Tile>, a: Position, b: Position, p: seq<Position>, q: seq<Position>)
    requires Open(m, a) && Open(m, b)
    requires Shortest(m, a, p, b) && Shortest(m, b, q, a)
    ensures |p| == |q|
  {
    WalkReverse(m, a, p);
    WalkReverse(m, b, q);
  }
}

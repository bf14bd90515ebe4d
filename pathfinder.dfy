// Breadth-first search over a tile grid, with the visited set, the FIFO queue
// and the predecessor map the searches update as they go. FindPath finds a
// shortest walk to a goal; FindNearestUnknown finds a shortest walk to a cell
// that borders unexplored ground.

module Pathfinding {
  import opened Geometry
  import opened Tiles
  import opened Options
  import opened PathResults
  import opened Walks

  function Reversed<T>(s: seq<T>): (r: seq<T>)
    ensures |r| == |s|
    ensures forall i :: 0 <= i < |s| ==> r[i] == s[|s| - 1 - i]
  {
    if |s| == 0 then [] else Reversed(s[1..]) + [s[0]]
  }

  /** Every cell of the grid. */
  ghost function Cells(m: array2<Tile>): set<Position>
  {
    set x, y | 0 <= x < m.Length0 && 0 <= y < m.Length1 :: Position(x, y)
  }

  lemma InCells(m: array2<Tile>, p: Position)
    requires OnGrid(m, p)
    ensures p in Cells(m)
  {
    assert p == Position(p.x, p.y);
  }

  lemma ShrinkingRemainder(u: set<Position>, a: set<Position>, x: Position)
    requires x in u && x !in a
    ensures |u - (a + {x})| < |u - a|
  {
    assert u - (a + {x}) == (u - a) - {x};
  }

  // ---------------------------------------------------------------------
  // The search tree: `cameFrom` gives each visited cell but the start the
  // cell it was discovered from, and the ghost map `dist` its depth.
  // ---------------------------------------------------------------------

  ghost predicate Tree(start: Position, visited: set<Position>, cameFrom: map<Position, Position>,
                       dist: map<Position, nat>)
  {
    && dist.Keys == visited
    && start in visited && dist[start] == 0
    && cameFrom.Keys == visited - {start}
    && forall v :: v in cameFrom ==>
         cameFrom[v] in dist && v in dist && dist[v] == dist[cameFrom[v]] + 1 && v in Neighbors(cameFrom[v])
  }

  /** Every visited cell other than the start was entered, so it is open. */
  ghost predicate EnteredOpen(m: array2<Tile>, start: Position, visited: set<Position>)
    reads m
  {
    forall v :: v in visited && v != start ==> Open(m, v)
  }

  /**
   * `path` follows `cameFrom` links back from `goal` to `base`: each cell was
   * discovered from the one before it, one level deeper.
   */
  ghost predicate ChainFrom(cameFrom: map<Position, Position>, dist: map<Position, nat>, base: Position,
                            path: seq<Position>, goal: Position)
  {
    && base in dist
    && Last(base, path) == goal
    && forall i {:trigger Prev(base, path, i)} :: 0 <= i < |path| ==>
         path[i] in cameFrom && cameFrom[path[i]] == Prev(base, path, i)
         && path[i] in dist && dist[path[i]] == dist[base] + i + 1
  }

  lemma ReversedSnoc<T>(s: seq<T>, x: T)
    ensures Reversed(s + [x]) == [x] + Reversed(s)
  {
    var a, b := Reversed(s + [x]), [x] + Reversed(s);
    assert |a| == |b|;
    forall i | 0 <= i < |a|
      ensures a[i] == b[i]
    {
      if i > 0 {
        assert b[i] == Reversed(s)[i - 1];
      }
    }
  }

  /** One more link followed back: the chain now starts one cell earlier. */
  lemma ChainPrepend(start: Position, visited: set<Position>, cameFrom: map<Position, Position>,
                     dist: map<Position, nat>, current: Position, path: seq<Position>, goal: Position)
    requires Tree(start, visited, cameFrom, dist)
    requires current in cameFrom
    requires ChainFrom(cameFrom, dist, current, path, goal)
    ensures ChainFrom(cameFrom, dist, cameFrom[current], [current] + path, goal)
  {
    var base, p := cameFrom[current], [current] + path;
    forall i | 0 <= i < |p|
      ensures p[i] in cameFrom && cameFrom[p[i]] == Prev(base, p, i)
              && p[i] in dist && dist[p[i]] == dist[base] + i + 1
    {
      if i > 0 {
        assert p[i] == path[i - 1];
        assert Prev(base, p, i) == Prev(current, path, i - 1);
      }
    }
    assert Last(base, p) == Last(current, path) by {
      if |path| > 0 {
        assert p[|p| - 1] == path[|path| - 1];
      }
    }
  }

  /**
   * Follows the predecessor links from `goal` back to `start`, then reverses
   * the list: the result leaves out the start and ends with the goal.
   */
  method ReconstructPath(cameFrom: map<Position, Position>, start: Position, goal: Position,
                         ghost visited: set<Position>, ghost dist: map<Position, nat>)
    returns (path: seq<Position>)
    requires Tree(start, visited, cameFrom, dist) && goal in visited
    ensures ChainFrom(cameFrom, dist, start, path, goal)
    ensures |path| == dist[goal]
  {
    var back: seq<Position> := [];
    var current := goal;
    while current != start
      invariant current in visited
      invariant ChainFrom(cameFrom, dist, current, Reversed(back), goal)
      invariant |back| + dist[current] == dist[goal]
      decreases dist[current]
    {
      ChainPrepend(start, visited, cameFrom, dist, current, Reversed(back), goal);
      ReversedSnoc(back, current);
      back := back + [current];
      current := cameFrom[current];
    }
    path := Reversed(back);
  }

  /** A chain in a tree whose cells are all open is a walk. */
  lemma ChainIsWalk(m: array2<Tile>, start: Position, visited: set<Position>, cameFrom: map<Position, Position>,
                    dist: map<Position, nat>, path: seq<Position>, goal: Position)
    requires Tree(start, visited, cameFrom, dist)
    requires ChainFrom(cameFrom, dist, start, path, goal)
    requires EnteredOpen(m, start, visited)
    ensures WalkTo(m, start, path, goal)
  {
    forall i | 0 <= i < |path|
      ensures Open(m, path[i]) && path[i] in Neighbors(Prev(start, path, i))
    {
      var p := Prev(start, path, i);
      assert cameFrom[path[i]] == p;
    }
  }

  // ---------------------------------------------------------------------
  // The breadth-first discipline.
  // ---------------------------------------------------------------------

  /** The open neighbours of every expanded cell are visited, at most one level deeper. */
  ghost predicate Expanded(m: array2<Tile>, closed: set<Position>, dist: map<Position, nat>)
    reads m
  {
    forall v, w :: v in closed && w in Neighbors(v) && Open(m, w) ==>
      v in dist && w in dist && dist[w] <= dist[v] + 1
  }

  /** No expanded cell borders an unvisited unknown cell. */
  ghost predicate SawNoUnknown(m: array2<Tile>, closed: set<Position>, dist: map<Position, nat>)
    reads m
  {
    forall v, w :: v in closed && w in Neighbors(v) && IsUnknownCell(m, w) ==> w in dist
  }

  /** Queue depths never decrease from front to back. */
  ghost predicate Sorted(queue: seq<Position>, dist: map<Position, nat>)
  {
    forall i, j :: 0 <= i <= j < |queue| ==> queue[i] in dist && queue[j] in dist && dist[queue[i]] <= dist[queue[j]]
  }

  /** All queued cells lie at depth `d` or `d + 1`. */
  ghost predicate QueueWithin(queue: seq<Position>, dist: map<Position, nat>, d: int)
  {
    forall i :: 0 <= i < |queue| ==> queue[i] in dist && d <= dist[queue[i]] <= d + 1
  }

  /** The search tree so far: visited cells lie on the grid (or are the start) and are open once entered. */
  ghost predicate Core(m: array2<Tile>, start: Position, visited: set<Position>,
                       cameFrom: map<Position, Position>, dist: map<Position, nat>, closed: set<Position>)
    reads m
  {
    && Tree(start, visited, cameFrom, dist)
    && EnteredOpen(m, start, visited)
    && visited <= Cells(m) + {start}
    && closed <= visited
    && Expanded(m, closed, dist)
  }

  /** The queue holds exactly the visited cells not yet expanded, other than `current`. */
  ghost predicate QueueCover(visited: set<Position>, queue: seq<Position>, closed: set<Position>, current: Position)
  {
    && (forall i :: 0 <= i < |queue| ==> queue[i] in visited && queue[i] !in closed && queue[i] != current)
    && (forall v :: v in visited && v !in closed && v != current ==> v in queue)
  }

  /** Expanded cells are no deeper than `d`. */
  ghost predicate ClosedWithin(closed: set<Position>, dist: map<Position, nat>, d: int)
  {
    forall v :: v in closed ==> v in dist && dist[v] <= d
  }

  /** What holds of the search between two dequeues. */
  ghost predicate Searching(m: array2<Tile>, start: Position, visited: set<Position>, queue: seq<Position>,
                            cameFrom: map<Position, Position>, dist: map<Position, nat>, closed: set<Position>)
    reads m
  {
    && Core(m, start, visited, cameFrom, dist, closed)
    && (forall i :: 0 <= i < |queue| ==> queue[i] in visited && queue[i] !in closed)
    && (forall v :: v in visited && v !in closed ==> v in queue)
    && Sorted(queue, dist)
    && (|queue| > 0 ==> queue[0] in dist && QueueWithin(queue, dist, dist[queue[0]]))
    && (|queue| > 0 ==> queue[0] in dist && forall v :: v in closed ==> v in dist && dist[v] <= dist[queue[0]])
  }

  /** What holds while the neighbours of `current` (depth `d`) are examined. */
  ghost predicate Scanning(m: array2<Tile>, start: Position, visited: set<Position>, queue: seq<Position>,
                           cameFrom: map<Position, Position>, dist: map<Position, nat>, closed: set<Position>,
                           current: Position, d: nat)
    reads m
  {
    && Core(m, start, visited, cameFrom, dist, closed)
    && current in visited && current !in closed && dist[current] == d
    && QueueCover(visited, queue, closed, current)
    && Sorted(queue, dist)
    && QueueWithin(queue, dist, d)
    && ClosedWithin(closed, dist, d)
  }

  /** A neighbour examined so far: if it is open it has been visited, at most one level below `d`. */
  ghost predicate Handled(m: array2<Tile>, w: Position, dist: map<Position, nat>, d: nat)
    reads m
  {
    Open(m, w) ==> w in dist && dist[w] <= d + 1
  }

  /** The first `k` neighbours in `ns` have been examined. */
  ghost predicate HandledUpTo(m: array2<Tile>, ns: seq<Position>, k: int, dist: map<Position, nat>, d: nat)
    reads m
  {
    forall j :: 0 <= j < k && j < |ns| ==> Handled(m, ns[j], dist, d)
  }

  lemma HandledUpToNext(m: array2<Tile>, ns: seq<Position>, k: int, dist: map<Position, nat>, d: nat)
    requires 0 <= k < |ns| && HandledUpTo(m, ns, k, dist, d) && Handled(m, ns[k], dist, d)
    ensures HandledUpTo(m, ns, k + 1, dist, d)
  {
  }

  /** No cell is queued twice. */
  ghost predicate Distinct(q: seq<Position>)
  {
    forall i, j :: 0 <= i < j < |q| ==> q[i] != q[j]
  }

  lemma DistinctTail(q: seq<Position>)
    requires Distinct(q) && |q| > 0
    ensures Distinct(q[1..])
  {
    forall i, j | 0 <= i < j < |q| - 1
      ensures q[1..][i] != q[1..][j]
    {
      assert q[1..][i] == q[i + 1] && q[1..][j] == q[j + 1];
    }
  }

  lemma DistinctAppend(q: seq<Position>, x: Position)
    requires Distinct(q) && x !in q
    ensures Distinct(q + [x])
  {
  }

  lemma HandledUpToGrows(m: array2<Tile>, ns: seq<Position>, k: int, dist: map<Position, nat>, d: nat,
                         x: Position, e: nat)
    requires HandledUpTo(m, ns, k, dist, d) && x !in dist
    ensures HandledUpTo(m, ns, k, dist[x := e], d)
  {
  }

  /** Every cell shallower than `f` has been expanded. */
  ghost predicate ExpandedBelow(dist: map<Position, nat>, closed: set<Position>, f: int)
  {
    forall v :: v in dist && dist[v] < f ==> v in closed
  }

  /**
   * The heart of breadth-first search: once every cell shallower than `f`
   * has been expanded, any walk of at most `f` steps ends on a visited cell,
   * no deeper than the walk is long.
   */
  lemma {:induction false} WalkReachesVisited(m: array2<Tile>, s: Position, path: seq<Position>,
                                              dist: map<Position, nat>, closed: set<Position>, f: int)
    requires s in dist && dist[s] == 0
    requires Expanded(m, closed, dist)
    requires ExpandedBelow(dist, closed, f)
    requires IsWalk(m, s, path) && |path| <= f
    ensures Last(s, path) in dist && dist[Last(s, path)] <= |path|
    decreases |path|
  {
    if |path| > 0 {
      var n := |path|;
      var q := path[..n - 1];
      WalkPrefix(m, s, path, n - 1);
      WalkReachesVisited(m, s, q, dist, closed, f);
      WalkAt(m, s, path, n - 1);
      assert Prev(s, path, n - 1) == Last(s, q);
      assert Last(s, q) in closed;
    }
  }

  /** Scanning a neighbour and setting it aside keeps the scan going. */
  lemma SkipKeepsHandled(m: array2<Tile>, start: Position, visited: set<Position>, queue: seq<Position>,
                         cameFrom: map<Position, Position>, dist: map<Position, nat>, closed: set<Position>,
                         current: Position, d: nat, w: Position)
    requires Scanning(m, start, visited, queue, cameFrom, dist, closed, current, d)
    requires w in visited || !Open(m, w)
    ensures Handled(m, w, dist, d)
  {
    if w in visited && w !in closed && w != current {
      var i :| 0 <= i < |queue| && queue[i] == w;
    }
  }

  /** Every unexpanded visited cell is `current` or queued, so none is shallower than `d`. */
  lemma ScanningExpandedBelow(m: array2<Tile>, start: Position, visited: set<Position>, queue: seq<Position>,
                              cameFrom: map<Position, Position>, dist: map<Position, nat>, closed: set<Position>,
                              current: Position, d: nat)
    requires Scanning(m, start, visited, queue, cameFrom, dist, closed, current, d)
    ensures ExpandedBelow(dist, closed, d)
  {
    forall v | v in dist && dist[v] < d
      ensures v in closed
    {
    }
  }

  lemma TreeGrows(start: Position, visited: set<Position>, cameFrom: map<Position, Position>,
                  dist: map<Position, nat>, current: Position, w: Position, e: nat)
    requires Tree(start, visited, cameFrom, dist)
    requires current in visited && w !in visited && w in Neighbors(current) && e == dist[current] + 1
    ensures Tree(start, visited + {w}, cameFrom[w := current], dist[w := e])
  {
  }

  lemma ExpandedStable(m: array2<Tile>, closed: set<Position>, dist: map<Position, nat>, w: Position, k: nat)
    requires Expanded(m, closed, dist) && w !in dist
    ensures Expanded(m, closed, dist[w := k])
  {
  }

  lemma QueueGrows(queue: seq<Position>, dist: map<Position, nat>, w: Position, d: nat)
    requires Sorted(queue, dist) && QueueWithin(queue, dist, d) && w !in dist
    ensures Sorted(queue + [w], dist[w := d + 1]) && QueueWithin(queue + [w], dist[w := d + 1], d)
  {
    var queue', dist' := queue + [w], dist[w := d + 1];
    forall i, j | 0 <= i <= j < |queue'|
      ensures queue'[i] in dist' && queue'[j] in dist' && dist'[queue'[i]] <= dist'[queue'[j]]
    {
      if j < |queue| {
        assert queue'[i] == queue[i] && queue'[j] == queue[j];
      } else if i < |queue| {
        assert queue'[i] == queue[i];
      }
    }
    forall i | 0 <= i < |queue'|
      ensures queue'[i] in dist' && d <= dist'[queue'[i]] <= d + 1
    {
      if i < |queue| {
        assert queue'[i] == queue[i];
      }
    }
  }

  /** Visiting an open, unvisited neighbour of `current` grows the search tree by one leaf. */
  lemma CoreGrows(m: array2<Tile>, start: Position, visited: set<Position>,
                  cameFrom: map<Position, Position>, dist: map<Position, nat>, closed: set<Position>,
                  current: Position, w: Position, e: nat)
    requires Core(m, start, visited, cameFrom, dist, closed)
    requires current in visited && w !in visited && Open(m, w) && w in Neighbors(current)
    requires e == dist[current] + 1
    ensures Core(m, start, visited + {w}, cameFrom[w := current], dist[w := e], closed)
  {
    InCells(m, w);
    TreeGrows(start, visited, cameFrom, dist, current, w, e);
    ExpandedStable(m, closed, dist, w, e);
  }

  lemma ClosedWithinGrows(closed: set<Position>, dist: map<Position, nat>, d: int, w: Position, e: nat)
    requires ClosedWithin(closed, dist, d) && w !in closed
    ensures ClosedWithin(closed, dist[w := e], d)
  {
  }

  /** Visiting an open, unvisited neighbour of `current` and queueing it keeps the scan going. */
  lemma VisitKeepsScanning(m: array2<Tile>, start: Position, visited: set<Position>, queue: seq<Position>,
                           cameFrom: map<Position, Position>, dist: map<Position, nat>, closed: set<Position>,
                           current: Position, d: nat, w: Position)
    requires Scanning(m, start, visited, queue, cameFrom, dist, closed, current, d)
    requires w !in visited && Open(m, w) && w in Neighbors(current)
    ensures Scanning(m, start, visited + {w}, queue + [w], cameFrom[w := current], dist[w := d + 1], closed, current, d)
  {
    CoreGrows(m, start, visited, cameFrom, dist, closed, current, w, d + 1);
    QueueGrows(queue, dist, w, d);
    QueueCoverGrows(visited, queue, closed, current, w);
    ClosedWithinGrows(closed, dist, d, w, d + 1);
  }

  /** Queueing a newly visited cell keeps the queue exactly the visited, unexpanded cells other than `current`. */
  lemma QueueCoverGrows(visited: set<Position>, queue: seq<Position>, closed: set<Position>,
                        current: Position, w: Position)
    requires QueueCover(visited, queue, closed, current)
    requires w !in closed && w != current
    ensures QueueCover(visited + {w}, queue + [w], closed, current)
  {
    var queue' := queue + [w];
    forall i | 0 <= i < |queue'|
      ensures queue'[i] in visited + {w} && queue'[i] !in closed && queue'[i] != current
    {
      if i < |queue| { assert queue'[i] == queue[i]; }
    }
  }

  lemma ExpandCurrent(m: array2<Tile>, closed: set<Position>, dist: map<Position, nat>, current: Position, d: nat)
    requires Expanded(m, closed, dist) && current in dist && dist[current] == d
    requires forall j :: 0 <= j < |Neighbors(current)| ==> Handled(m, Neighbors(current)[j], dist, d)
    ensures Expanded(m, closed + {current}, dist)
  {
    forall v, w | v in closed + {current} && w in Neighbors(v) && Open(m, w)
      ensures v in dist && w in dist && dist[w] <= dist[v] + 1
    {
      if v == current {
        var j :| 0 <= j < |Neighbors(current)| && Neighbors(current)[j] == w;
        assert Handled(m, Neighbors(current)[j], dist, d);
      }
    }
  }

  /** After the last neighbour, `current` counts as expanded and the search goes on. */
  lemma ScanDone(m: array2<Tile>, start: Position, visited: set<Position>, queue: seq<Position>,
                 cameFrom: map<Position, Position>, dist: map<Position, nat>, closed: set<Position>,
                 current: Position, d: nat)
    requires Scanning(m, start, visited, queue, cameFrom, dist, closed, current, d)
    requires HandledUpTo(m, Neighbors(current), |Neighbors(current)|, dist, d)
    ensures Searching(m, start, visited, queue, cameFrom, dist, closed + {current})
  {
    var closed' := closed + {current};
    ExpandCurrent(m, closed, dist, current, d);
    assert closed' <= visited;
    assert forall i :: 0 <= i < |queue| ==> queue[i] in visited && queue[i] !in closed';
    assert forall v :: v in visited && v !in closed' ==> v in queue;
    if |queue| > 0 {
      assert d <= dist[queue[0]];
      assert QueueWithin(queue, dist, dist[queue[0]]) by {
        forall i | 0 <= i < |queue|
          ensures queue[i] in dist && dist[queue[0]] <= dist[queue[i]] <= dist[queue[0]] + 1
        {
        }
      }
      assert forall v :: v in closed' ==> v in dist && dist[v] <= dist[queue[0]];
    }
  }

  /** Taking the front of the queue starts the scan of its neighbours. */
  lemma DequeueStartsScan(m: array2<Tile>, start: Position, visited: set<Position>, queue: seq<Position>,
                          cameFrom: map<Position, Position>, dist: map<Position, nat>, closed: set<Position>)
    requires Searching(m, start, visited, queue, cameFrom, dist, closed) && |queue| > 0
    requires Distinct(queue)
    ensures Scanning(m, start, visited, queue[1..], cameFrom, dist, closed, queue[0], dist[queue[0]])
  {
    SortedTail(queue, dist);
    QueueWithinTail(queue, dist, dist[queue[0]]);
    QueueCoverTail(visited, queue, closed);
  }

  lemma SortedTail(queue: seq<Position>, dist: map<Position, nat>)
    requires Sorted(queue, dist) && |queue| > 0
    ensures Sorted(queue[1..], dist)
  {
    var q := queue[1..];
    forall i, j | 0 <= i <= j < |q|
      ensures q[i] in dist && q[j] in dist && dist[q[i]] <= dist[q[j]]
    {
      assert q[i] == queue[i + 1] && q[j] == queue[j + 1];
    }
  }

  lemma QueueWithinTail(queue: seq<Position>, dist: map<Position, nat>, d: int)
    requires QueueWithin(queue, dist, d) && |queue| > 0
    ensures QueueWithin(queue[1..], dist, d)
  {
    var q := queue[1..];
    forall i | 0 <= i < |q|
      ensures q[i] in dist && d <= dist[q[i]] <= d + 1
    {
      assert q[i] == queue[i + 1];
    }
  }

  /** The rest of a queue without repeats covers every unexpanded visited cell but its front. */
  lemma QueueCoverTail(visited: set<Position>, queue: seq<Position>, closed: set<Position>)
    requires |queue| > 0 && Distinct(queue)
    requires forall i :: 0 <= i < |queue| ==> queue[i] in visited && queue[i] !in closed
    requires forall v :: v in visited && v !in closed ==> v in queue
    ensures QueueCover(visited, queue[1..], closed, queue[0])
  {
    var q := queue[1..];
    forall v | v in visited && v !in closed && v != queue[0]
      ensures v in q
    {
      var i :| 0 <= i < |queue| && queue[i] == v;
      assert q[i - 1] == v;
    }
    forall i | 0 <= i < |q|
      ensures q[i] in visited && q[i] !in closed && q[i] != queue[0]
    {
      assert q[i] == queue[i + 1];
    }
  }

  /** Setting aside the `k`-th neighbour, already visited or not open, keeps the scan going. */
  lemma SkipStep(m: array2<Tile>, start: Position, visited: set<Position>, queue: seq<Position>,
                 cameFrom: map<Position, Position>, dist: map<Position, nat>, closed: set<Position>,
                 current: Position, d: nat, ns: seq<Position>, k: int)
    requires Scanning(m, start, visited, queue, cameFrom, dist, closed, current, d)
    requires 0 <= k < |ns| && HandledUpTo(m, ns, k, dist, d)
    requires ns[k] in visited || !Open(m, ns[k])
    ensures HandledUpTo(m, ns, k + 1, dist, d)
  {
    SkipKeepsHandled(m, start, visited, queue, cameFrom, dist, closed, current, d, ns[k]);
    HandledUpToNext(m, ns, k, dist, d);
  }

  /** Visiting and queueing the `k`-th neighbour, open and not yet visited, keeps the scan going. */
  lemma VisitStep(m: array2<Tile>, start: Position, visited: set<Position>, queue: seq<Position>,
                  cameFrom: map<Position, Position>, dist: map<Position, nat>, closed: set<Position>,
                  current: Position, d: nat, ns: seq<Position>, k: int)
    requires Scanning(m, start, visited, queue, cameFrom, dist, closed, current, d) && Distinct(queue)
    requires 0 <= k < |ns| && HandledUpTo(m, ns, k, dist, d)
    requires ns[k] !in visited && Open(m, ns[k]) && ns[k] in Neighbors(current)
    ensures Scanning(m, start, visited + {ns[k]}, queue + [ns[k]], cameFrom[ns[k] := current],
                     dist[ns[k] := d + 1], closed, current, d)
    ensures Distinct(queue + [ns[k]])
    ensures HandledUpTo(m, ns, k + 1, dist[ns[k] := d + 1], d)
  {
    var w := ns[k];
    VisitKeepsScanning(m, start, visited, queue, cameFrom, dist, closed, current, d, w);
    HandledUpToGrows(m, ns, k, dist, d, w, d + 1);
    assert w !in queue;
    DistinctAppend(queue, w);
    assert Handled(m, w, dist[w := d + 1], d);
    HandledUpToNext(m, ns, k, dist[w := d + 1], d);
  }

  /** While cells of depth `d` are expanded, no walk shorter than `d + 1` reaches an unvisited cell. */
  lemma NoShorterWalk(m: array2<Tile>, start: Position, visited: set<Position>, queue: seq<Position>,
                      cameFrom: map<Position, Position>, dist: map<Position, nat>, closed: set<Position>,
                      current: Position, d: nat, g: Position)
    requires Scanning(m, start, visited, queue, cameFrom, dist, closed, current, d) && g !in visited
    ensures forall q :: WalkTo(m, start, q, g) ==> d + 1 <= |q|
  {
    ScanningExpandedBelow(m, start, visited, queue, cameFrom, dist, closed, current, d);
    forall q | WalkTo(m, start, q, g)
      ensures d + 1 <= |q|
    {
      if |q| <= d {
        WalkReachesVisited(m, start, q, dist, closed, d);
      }
    }
  }

  /**
   * Breadth-first search from `start` to `goal` through rooms and opened
   * doors; unknown cells are barriers. The start itself is never checked.
   */
  method FindPath(start: Position, goal: Position, m: array2<Tile>) returns (r: PathResult)
    ensures r.status == Found || r.status == PathStatus.NotFound
    ensures r.nearestUnknown == None
    ensures start == goal ==> r == PathResult.Success([])
    ensures start != goal && !OnGrid(m, goal) ==> r == PathResult.NotFound()
    ensures r.status == Found ==> Shortest(m, start, r.path, goal)
    ensures r.status == PathStatus.NotFound ==> r.path == [] && forall q :: !WalkTo(m, start, q, goal)
  {
    if start == goal {
      return PathResult.Success([]);
    }
    if !IsInBounds(goal, m.Length0, m.Length1) {
      forall q | WalkTo(m, start, q, goal)
        ensures false
      {
        WalkEndOpen(m, start, q, goal);
      }
      return PathResult.NotFound();
    }

    var visited := {start};
    var queue := [start];
    var cameFrom: map<Position, Position> := map[];
    ghost var dist: map<Position, nat> := map[start := 0];
    ghost var closed: set<Position> := {};

    while |queue| > 0
      invariant Searching(m, start, visited, queue, cameFrom, dist, closed)
      invariant Distinct(queue)
      invariant goal !in visited
      decreases |Cells(m) + {start} - closed|
    {
      DequeueStartsScan(m, start, visited, queue, cameFrom, dist, closed);
      DistinctTail(queue);
      var current := queue[0];
      queue := queue[1..];
      var found;
      visited, queue, cameFrom, dist, found :=
        ScanForGoal(m, start, goal, current, visited, queue, cameFrom, dist, closed, dist[current]);
      if found.Some? {
        return PathResult.Success(found.value);
      }
      ShrinkingRemainder(Cells(m) + {start}, closed, current);
      closed := closed + {current};
    }

    // every visited cell has been expanded, and the goal was never visited
    forall q | WalkTo(m, start, q, goal)
      ensures false
    {
      WalkReachesVisited(m, start, q, dist, closed, |q|);
    }
    return PathResult.NotFound();
  }

  /**
   * One round of the search: the neighbours of `current`, in North, East,
   * South, West order, that are open and not yet visited are visited and
   * queued. Reaching the goal ends the search with the path to it.
   */
  method ScanForGoal(m: array2<Tile>, start: Position, goal: Position, current: Position,
                     visited: set<Position>, queue: seq<Position>, cameFrom: map<Position, Position>,
                     ghost dist: map<Position, nat>, ghost closed: set<Position>, ghost d: nat)
    returns (visited': set<Position>, queue': seq<Position>, cameFrom': map<Position, Position>,
             ghost dist': map<Position, nat>, found: Option<seq<Position>>)
    requires Scanning(m, start, visited, queue, cameFrom, dist, closed, current, d)
    requires Distinct(queue) && goal !in visited
    ensures found.Some? ==> Shortest(m, start, found.value, goal)
    ensures found.None? ==> Searching(m, start, visited', queue', cameFrom', dist', closed + {current})
    ensures found.None? ==> Distinct(queue') && goal !in visited'
  {
    visited', queue', cameFrom', dist' := visited, queue, cameFrom, dist;
    var neighbors := Neighbors(current);
    for k := 0 to |neighbors|
      invariant Scanning(m, start, visited', queue', cameFrom', dist', closed, current, d)
      invariant Distinct(queue')
      invariant HandledUpTo(m, neighbors, k, dist', d)
      invariant goal !in visited'
    {
      var neighbor := neighbors[k];
      // visited, off the grid, unknown (a barrier for this search) or not traversable
      if neighbor in visited' || !IsInBounds(neighbor, m.Length0, m.Length1)
         || m[neighbor.x, neighbor.y].Unknown? || !IsTraversable(m[neighbor.x, neighbor.y]) {
        SkipStep(m, start, visited', queue', cameFrom', dist', closed, current, d, neighbors, k);
        continue;
      }

      if neighbor == goal {
        NoShorterWalk(m, start, visited', queue', cameFrom', dist', closed, current, d, goal);
      }
      VisitStep(m, start, visited', queue', cameFrom', dist', closed, current, d, neighbors, k);
      visited' := visited' + {neighbor};
      cameFrom' := cameFrom'[neighbor := current];
      dist' := dist'[neighbor := d + 1];

      if neighbor == goal {
        var path := ReconstructPath(cameFrom', start, goal, visited', dist');
        ChainIsWalk(m, start, visited', cameFrom', dist', path, goal);
        return visited', queue', cameFrom', dist', Some(path);
      }

      queue' := queue' + [neighbor];
    }
    ScanDone(m, start, visited', queue', cameFrom', dist', closed, current, d);
    found := None;
  }

  // ---------------------------------------------------------------------
  // The nearest unexplored cell.
  // ---------------------------------------------------------------------

  /** An unknown neighbour examined so far has been visited, which only the start can be. */
  ghost predicate Seen(m: array2<Tile>, w: Position, dist: map<Position, nat>)
    reads m
  {
    IsUnknownCell(m, w) ==> w in dist
  }

  ghost predicate SeenUpTo(m: array2<Tile>, ns: seq<Position>, k: int, dist: map<Position, nat>)
    reads m
  {
    forall j :: 0 <= j < k && j < |ns| ==> Seen(m, ns[j], dist)
  }

  lemma SeenUpToNext(m: array2<Tile>, ns: seq<Position>, k: int, dist: map<Position, nat>)
    requires 0 <= k < |ns| && SeenUpTo(m, ns, k, dist) && Seen(m, ns[k], dist)
    ensures SeenUpTo(m, ns, k + 1, dist)
  {
  }

  lemma SeenUpToGrows(m: array2<Tile>, ns: seq<Position>, k: int, dist: map<Position, nat>, x: Position, e: nat)
    requires SeenUpTo(m, ns, k, dist) && x !in dist
    ensures SeenUpTo(m, ns, k, dist[x := e])
  {
  }

  lemma SawNoUnknownGrows(m: array2<Tile>, closed: set<Position>, dist: map<Position, nat>, x: Position, e: nat)
    requires SawNoUnknown(m, closed, dist) && x !in dist
    ensures SawNoUnknown(m, closed, dist[x := e])
  {
  }

  /** Once all four neighbours of `current` are seen, `current` borders no unvisited unknown cell. */
  lemma SawCurrent(m: array2<Tile>, closed: set<Position>, dist: map<Position, nat>, current: Position)
    requires SawNoUnknown(m, closed, dist)
    requires SeenUpTo(m, Neighbors(current), |Neighbors(current)|, dist)
    ensures SawNoUnknown(m, closed + {current}, dist)
  {
    forall v, w | v in closed + {current} && w in Neighbors(v) && IsUnknownCell(m, w)
      ensures w in dist
    {
      if v == current {
        var j :| 0 <= j < |Neighbors(current)| && Neighbors(current)[j] == w;
        assert Seen(m, Neighbors(current)[j], dist);
      }
    }
  }

  /** A visited cell is never unknown, unless it is the start. */
  lemma VisitedNotUnknown(m: array2<Tile>, start: Position, visited: set<Position>, u: Position)
    requires EnteredOpen(m, start, visited) && u in visited && u != start
    ensures !IsUnknownCell(m, u)
  {
  }

  /**
   * While cells of depth `d` are expanded and no expanded cell borders an
   * unvisited unknown cell, every frontier is at least `d` steps away.
   */
  lemma NoNearerFrontier(m: array2<Tile>, start: Position, visited: set<Position>, queue: seq<Position>,
                         cameFrom: map<Position, Position>, dist: map<Position, nat>, closed: set<Position>,
                         current: Position, d: nat)
    requires Scanning(m, start, visited, queue, cameFrom, dist, closed, current, d)
    requires SawNoUnknown(m, closed, dist)
    ensures forall q, u :: IsFrontier(m, start, q, u) ==> d <= |q|
  {
    ScanningExpandedBelow(m, start, visited, queue, cameFrom, dist, closed, current, d);
    forall q, u | IsFrontier(m, start, q, u)
      ensures d <= |q|
    {
      if |q| < d {
        WalkReachesVisited(m, start, q, dist, closed, d);
        VisitedNotUnknown(m, start, visited, u);
      }
    }
  }

  /** With nothing left to expand, no expanded cell borders an unvisited unknown cell: there is no frontier. */
  lemma NoFrontierLeft(m: array2<Tile>, start: Position, visited: set<Position>, queue: seq<Position>,
                       cameFrom: map<Position, Position>, dist: map<Position, nat>, closed: set<Position>)
    requires Searching(m, start, visited, queue, cameFrom, dist, closed) && |queue| == 0
    requires SawNoUnknown(m, closed, dist)
    ensures forall q, u :: !IsFrontier(m, start, q, u)
  {
    forall q, u | IsFrontier(m, start, q, u)
      ensures false
    {
      WalkReachesVisited(m, start, q, dist, closed, |q|);
      VisitedNotUnknown(m, start, visited, u);
    }
  }

  /**
   * The chain to a newly discovered unknown cell `u`, with `u` itself
   * dropped, is a walk to a cell beside `u`: every cell before `u` was
   * visited earlier, so it is open.
   */
  lemma FrontierFromChain(m: array2<Tile>, start: Position, visited: set<Position>,
                          cameFrom: map<Position, Position>, dist: map<Position, nat>,
                          path: seq<Position>, u: Position)
    requires Tree(start, visited + {u}, cameFrom, dist) && EnteredOpen(m, start, visited)
    requires start in visited && u !in visited && IsUnknownCell(m, u)
    requires ChainFrom(cameFrom, dist, start, path, u) && |path| == dist[u]
    ensures |path| > 0
    ensures IsFrontier(m, start, path[..|path| - 1], u)
  {
    assert u in cameFrom;
    var n := |path|;
    ChainPrefixIsWalk(m, start, visited, cameFrom, dist, path, u);
    LastPrefix(start, path);
    var c := Prev(start, path, n - 1);
    assert cameFrom[u] == c;
  }

  /** The cells of the chain before `u` lie at depths below that of `u`, so they were visited before it. */
  lemma ChainPrefixIsWalk(m: array2<Tile>, start: Position, visited: set<Position>,
                          cameFrom: map<Position, Position>, dist: map<Position, nat>,
                          path: seq<Position>, u: Position)
    requires Tree(start, visited + {u}, cameFrom, dist) && EnteredOpen(m, start, visited)
    requires start in visited && u !in visited
    requires ChainFrom(cameFrom, dist, start, path, u) && |path| == dist[u] && |path| > 0
    ensures IsWalk(m, start, path[..|path| - 1])
  {
    var p := path[..|path| - 1];
    forall i | 0 <= i < |p|
      ensures Open(m, p[i]) && p[i] in Neighbors(Prev(start, p, i))
    {
      var b := Prev(start, path, i);
      assert p[i] == path[i] && cameFrom[path[i]] == b;
      assert Prev(start, p, i) == b;
    }
  }

  /** Setting aside the `k`-th neighbour also keeps every unknown neighbour seen. */
  lemma SkipSeen(m: array2<Tile>, ns: seq<Position>, k: int, dist: map<Position, nat>)
    requires 0 <= k < |ns| && SeenUpTo(m, ns, k, dist)
    requires ns[k] in dist || !IsUnknownCell(m, ns[k])
    ensures SeenUpTo(m, ns, k + 1, dist)
  {
    SeenUpToNext(m, ns, k, dist);
  }

  /** Visiting an open neighbour keeps every unknown neighbour seen and the expanded cells bordering none. */
  lemma VisitSeen(m: array2<Tile>, closed: set<Position>, ns: seq<Position>, k: int, dist: map<Position, nat>, d: nat)
    requires 0 <= k < |ns| && SeenUpTo(m, ns, k, dist) && SawNoUnknown(m, closed, dist)
    requires ns[k] !in dist && Open(m, ns[k])
    ensures SeenUpTo(m, ns, k + 1, dist[ns[k] := d + 1])
    ensures SawNoUnknown(m, closed, dist[ns[k] := d + 1])
  {
    SeenUpToGrows(m, ns, k, dist, ns[k], d + 1);
    SeenUpToNext(m, ns, k, dist[ns[k] := d + 1]);
    SawNoUnknownGrows(m, closed, dist, ns[k], d + 1);
  }

  /** Setting aside a neighbour that is visited or not open keeps the scan for unknown cells going. */
  lemma SkipUnseen(m: array2<Tile>, start: Position, visited: set<Position>, queue: seq<Position>,
                   cameFrom: map<Position, Position>, dist: map<Position, nat>, closed: set<Position>,
                   current: Position, d: nat, ns: seq<Position>, k: int)
    requires Scanning(m, start, visited, queue, cameFrom, dist, closed, current, d)
    requires 0 <= k < |ns| && HandledUpTo(m, ns, k, dist, d) && SeenUpTo(m, ns, k, dist)
    requires ns[k] in visited || (!Open(m, ns[k]) && !IsUnknownCell(m, ns[k]))
    ensures HandledUpTo(m, ns, k + 1, dist, d) && SeenUpTo(m, ns, k + 1, dist)
  {
    SkipStep(m, start, visited, queue, cameFrom, dist, closed, current, d, ns, k);
    SkipSeen(m, ns, k, dist);
  }

  /** Discovering an unknown neighbour of `current`: it is discovered at the least depth of any frontier. */
  lemma UnknownStep(m: array2<Tile>, start: Position, visited: set<Position>, queue: seq<Position>,
                    cameFrom: map<Position, Position>, dist: map<Position, nat>, closed: set<Position>,
                    current: Position, d: nat, u: Position)
    requires Scanning(m, start, visited, queue, cameFrom, dist, closed, current, d)
    requires SawNoUnknown(m, closed, dist)
    requires u !in visited && IsUnknownCell(m, u) && u in Neighbors(current)
    ensures Tree(start, visited + {u}, cameFrom[u := current], dist[u := d + 1])
    ensures forall q, w :: IsFrontier(m, start, q, w) ==> d <= |q|
  {
    NoNearerFrontier(m, start, visited, queue, cameFrom, dist, closed, current, d);
    TreeGrows(start, visited, cameFrom, dist, current, u, d + 1);
  }

  /**
   * Breadth-first search from `start` for the nearest unknown cell, through
   * rooms and opened doors. The result is the walk to the cell beside it,
   * leaving the unknown cell out, and the unknown cell itself.
   */
  method FindNearestUnknown(start: Position, m: array2<Tile>) returns (r: PathResult)
    ensures r.status == UnknownReached || r.status == PathStatus.NotFound
    ensures r.status == UnknownReached ==>
      r.nearestUnknown.Some? && IsFrontier(m, start, r.path, r.nearestUnknown.value)
    ensures r.status == UnknownReached ==> forall q, u :: IsFrontier(m, start, q, u) ==> |r.path| <= |q|
    ensures r.status == PathStatus.NotFound ==>
      r == PathResult.NotFound() && forall q, u :: !IsFrontier(m, start, q, u)
  {
    var visited := {start};
    var queue := [start];
    var cameFrom: map<Position, Position> := map[];
    ghost var dist: map<Position, nat> := map[start := 0];
    ghost var closed: set<Position> := {};

    while |queue| > 0
      invariant Searching(m, start, visited, queue, cameFrom, dist, closed)
      invariant SawNoUnknown(m, closed, dist)
      invariant Distinct(queue)
      decreases |Cells(m) + {start} - closed|
    {
      DequeueStartsScan(m, start, visited, queue, cameFrom, dist, closed);
      DistinctTail(queue);
      var current := queue[0];
      queue := queue[1..];
      var found;
      visited, queue, cameFrom, dist, found :=
        ScanForUnknown(m, start, current, visited, queue, cameFrom, dist, closed, dist[current]);
      if found.Some? {
        return PathResult.UnknownFound(found.value.0, found.value.1);
      }
      ShrinkingRemainder(Cells(m) + {start}, closed, current);
      closed := closed + {current};
    }

    // the map is fully explored
    NoFrontierLeft(m, start, visited, queue, cameFrom, dist, closed);
    return PathResult.NotFound();
  }

  /**
   * One round of the search for the nearest unknown cell: the first unknown
   * neighbour of `current` ends the search; open, unvisited neighbours are
   * visited and queued.
   */
  method ScanForUnknown(m: array2<Tile>, start: Position, current: Position,
                        visited: set<Position>, queue: seq<Position>, cameFrom: map<Position, Position>,
                        ghost dist: map<Position, nat>, ghost closed: set<Position>, ghost d: nat)
    returns (visited': set<Position>, queue': seq<Position>, cameFrom': map<Position, Position>,
             ghost dist': map<Position, nat>, found: Option<(seq<Position>, Position)>)
    requires Scanning(m, start, visited, queue, cameFrom, dist, closed, current, d)
    requires SawNoUnknown(m, closed, dist) && Distinct(queue)
    ensures found.Some? ==> IsFrontier(m, start, found.value.0, found.value.1)
    ensures found.Some? ==> forall q, u :: IsFrontier(m, start, q, u) ==> |found.value.0| <= |q|
    ensures found.None? ==> Searching(m, start, visited', queue', cameFrom', dist', closed + {current})
    ensures found.None? ==> SawNoUnknown(m, closed + {current}, dist') && Distinct(queue')
  {
    visited', queue', cameFrom', dist' := visited, queue, cameFrom, dist;
    var neighbors := Neighbors(current);
    for k := 0 to |neighbors|
      invariant Scanning(m, start, visited', queue', cameFrom', dist', closed, current, d)
      invariant SawNoUnknown(m, closed, dist') && Distinct(queue')
      invariant HandledUpTo(m, neighbors, k, dist', d) && SeenUpTo(m, neighbors, k, dist')
    {
      var neighbor := neighbors[k];
      if neighbor in visited' || !IsInBounds(neighbor, m.Length0, m.Length1) {
        SkipUnseen(m, start, visited', queue', cameFrom', dist', closed, current, d, neighbors, k);
        continue;
      }

      var tile := m[neighbor.x, neighbor.y];
      if tile.Unknown? {
        UnknownStep(m, start, visited', queue', cameFrom', dist', closed, current, d, neighbor);
        ghost var visited0 := visited';
        visited' := visited' + {neighbor};
        cameFrom' := cameFrom'[neighbor := current];
        dist' := dist'[neighbor := d + 1];
        var path := ReconstructPath(cameFrom', start, neighbor, visited', dist');
        FrontierFromChain(m, start, visited0, cameFrom', dist', path, neighbor);
        // the unknown cell itself is not part of the path
        var pathToFrontier := if |path| > 0 then path[..|path| - 1] else [];
        return visited', queue', cameFrom', dist', Some((pathToFrontier, neighbor));
      }

      if !IsTraversable(tile) {
        SkipUnseen(m, start, visited', queue', cameFrom', dist', closed, current, d, neighbors, k);
        continue;
      }

      VisitStep(m, start, visited', queue', cameFrom', dist', closed, current, d, neighbors, k);
      VisitSeen(m, closed, neighbors, k, dist', d);
      visited' := visited' + {neighbor};
      cameFrom' := cameFrom'[neighbor := current];
      dist' := dist'[neighbor := d + 1];
      queue' := queue' + [neighbor];
    }
    ScanDone(m, start, visited', queue', cameFrom', dist', closed, current, d);
    SawCurrent(m, closed, dist', current);
    found := None;
  }
}

/**
 * The cluster segmenter of support_functions.py: a 4-connected breadth-first
 * flood fill over a boolean grid that clears visited cells in place, repeated
 * from the first remaining cell in row-major order until the grid is empty,
 * with a noise filter and strip splitting on the boxes it produces.
 */
module Segmenter {
  import opened Rasters
  import opened Boxes

  /** A grid index as the flood fill takes it: (row, col). */
  type Cell = (int, int)

  predicate InGrid(grid: array2<bool>, c: Cell) {
    0 <= c.0 < grid.Length0 && 0 <= c.1 < grid.Length1
  }

  /** The two cells share an edge. */
  predicate Adjacent(a: Cell, b: Cell) {
    || (a.0 == b.0 && (a.1 == b.1 + 1 || b.1 == a.1 + 1))
    || (a.1 == b.1 && (a.0 == b.0 + 1 || b.0 == a.0 + 1))
  }

  /** The neighbour of c that fetch_neighbours tries d-th: up, down, left, right. */
  function Neighbour(c: Cell, d: int): Cell {
    if d == 0 then (c.0 - 1, c.1)
    else if d == 1 then (c.0 + 1, c.1)
    else if d == 2 then (c.0, c.1 - 1)
    else (c.0, c.1 + 1)
  }

  /** The rank, in that order, of neighbour n of c. */
  function Direction(c: Cell, n: Cell): (r: int)
    ensures 0 <= r < 4
    ensures Adjacent(c, n) ==> Neighbour(c, r) == n
  {
    if n == (c.0 - 1, c.1) then 0
    else if n == (c.0 + 1, c.1) then 1
    else if n == (c.0, c.1 - 1) then 2
    else 3
  }

  /** a comes strictly before b when the grid is read row by row. */
  predicate RowMajorBefore(a: Cell, b: Cell) {
    a.0 < b.0 || (a.0 == b.0 && a.1 < b.1)
  }

  predicate NoDup<T(==)>(s: seq<T>) {
    forall i, j :: 0 <= i < j < |s| ==> s[i] != s[j]
  }

  /** Every cell of an h-by-w grid. */
  ghost function Cells(h: int, w: int): set<Cell> {
    set r, c | 0 <= r < h && 0 <= c < w :: (r, c)
  }

  ghost function TrueCells(grid: array2<bool>): set<Cell>
    reads grid
  {
    set c | c in Cells(grid.Length0, grid.Length1) && grid[c.0, c.1]
  }

  ghost function NonZero(img: Raster): set<Cell>
    requires img.Valid()
  {
    set c | c in Cells(img.height, img.width) && img.px[c.0][c.1] != 0
  }

  // ----- 4-connectivity -----

  /** A walk of edge-sharing steps whose every cell after the first lies in T. */
  ghost predicate IsPath(T: set<Cell>, p: seq<Cell>) {
    |p| > 0 && forall k :: 1 <= k < |p| ==> p[k] in T && Adjacent(p[k - 1], p[k])
  }

  ghost predicate Reachable(T: set<Cell>, s: Cell, t: Cell) {
    exists p {:trigger IsPath(T, p)} :: IsPath(T, p) && p[0] == s && p[|p| - 1] == t
  }

  /** The cells a flood fill from s through the cells of T reaches, s included. */
  ghost function Component(T: set<Cell>, s: Cell): set<Cell> {
    set t | t in T + {s} && Reachable(T, s, t)
  }

  /** No cell of U has a neighbour in T outside U. */
  ghost predicate ClosedIn(U: set<Cell>, T: set<Cell>) {
    forall u, n :: u in U && n in T && Adjacent(u, n) ==> n in U
  }

  lemma ReachSelf(T: set<Cell>, s: Cell)
    ensures Reachable(T, s, s)
  {
    assert IsPath(T, [s]);
  }

  lemma ReachStep(T: set<Cell>, s: Cell, a: Cell, b: Cell)
    requires Reachable(T, s, a) && b in T && Adjacent(a, b)
    ensures Reachable(T, s, b)
  {
    var p :| IsPath(T, p) && p[0] == s && p[|p| - 1] == a;
    assert IsPath(T, p + [b]);
  }

  /** A set containing s and closed under stepping into T holds all of s's component. */
  lemma {:induction false} ClosedHoldsComponent(T: set<Cell>, s: Cell, V: set<Cell>)
    requires s in V
    requires forall v, n :: v in V && n in T && Adjacent(v, n) ==> n in V
    ensures Component(T, s) <= V
  {
    forall t | t in Component(T, s)
      ensures t in V
    {
      var p :| IsPath(T, p) && p[0] == s && p[|p| - 1] == t;
      PathStaysIn(T, p, V, |p| - 1);
    }
  }

  lemma {:induction false} PathStaysIn(T: set<Cell>, p: seq<Cell>, V: set<Cell>, k: nat)
    requires IsPath(T, p) && p[0] in V && k < |p|
    requires forall v, n :: v in V && n in T && Adjacent(v, n) ==> n in V
    ensures p[k] in V
  {
    if k > 0 {
      PathStaysIn(T, p, V, k - 1);
    }
  }

  /** A component never leaves T, apart from its seed, and is closed in T. */
  lemma ComponentShape(T: set<Cell>, s: Cell)
    ensures s in Component(T, s) && Component(T, s) <= T + {s}
    ensures ClosedIn(Component(T, s), T)
  {
    ReachSelf(T, s);
    forall u, n | u in Component(T, s) && n in T && Adjacent(u, n)
      ensures n in Component(T, s)
    {
      ReachStep(T, s, u, n);
    }
  }

  /** A walk through T that starts outside a set U closed in T never enters U. */
  lemma {:induction false} PathAvoids(T: set<Cell>, U: set<Cell>, p: seq<Cell>, k: nat)
    requires IsPath(T, p) && p[0] in T && p[0] !in U && ClosedIn(U, T) && k < |p|
    ensures p[k] !in U
  {
    if k > 0 {
      PathAvoids(T, U, p, k - 1);
      assert Adjacent(p[k], p[k - 1]);
    }
  }

  /**
   * Once the components found so far (U, closed in T) are cleared, a flood fill
   * from a remaining cell finds exactly that cell's component in all of T.
   */
  lemma ComponentAfterClearing(T: set<Cell>, U: set<Cell>, s: Cell)
    requires ClosedIn(U, T) && s in T - U
    ensures Component(T - U, s) == Component(T, s)
  {
    forall t | t in Component(T - U, s)
      ensures t in Component(T, s)
    {
      var p :| IsPath(T - U, p) && p[0] == s && p[|p| - 1] == t;
      assert IsPath(T, p);
    }
    forall t | t in Component(T, s)
      ensures t in Component(T - U, s)
    {
      var p :| IsPath(T, p) && p[0] == s && p[|p| - 1] == t;
      forall k | 0 <= k < |p|
        ensures p[k] !in U
      {
        PathAvoids(T, U, p, k);
      }
      assert IsPath(T - U, p);
    }
  }

  /** Adding the next component to the cleared cells keeps them closed in T. */
  lemma ClearingStaysClosed(T: set<Cell>, U: set<Cell>, s: Cell)
    requires ClosedIn(U, T) && s in T - U
    ensures ClosedIn(U + Component(T - U, s), T)
  {
    var C := Component(T - U, s);
    ComponentShape(T - U, s);
    forall u, n | u in U + C && n in T && Adjacent(u, n)
      ensures n in U + C
    {
      if u in C && n !in U {
        assert n in T - U;
      }
    }
  }

  // ----- fetch_neighbours and bfs (support_functions.py:25-47) -----

  /**
   * The cells fetch_neighbours appends to the queue `base` once it has tested
   * the first d directions around c: in direction order, each in-grid neighbour
   * whose grid cell is True and which is not queued yet.
   */
  ghost function Appended(grid: array2<bool>, c: Cell, base: seq<Cell>, d: nat): seq<Cell>
    reads grid
  {
    if d == 0 then []
    else
      var a := Appended(grid, c, base, d - 1);
      var n := Neighbour(c, d - 1);
      if InGrid(grid, n) && grid[n.0, n.1] && n !in base + a then a + [n] else a
  }

  /**
   * After the first d tests, the appended cells are True in-grid neighbours of
   * c that were not queued, in strictly increasing direction, and every True
   * neighbour in those d directions is queued.
   */
  lemma {:induction false} AppendedSpec(grid: array2<bool>, c: Cell, base: seq<Cell>, d: nat)
    requires d <= 4
    ensures var a := Appended(grid, c, base, d);
      && (forall k :: 0 <= k < |a| ==>
            InGrid(grid, a[k]) && Adjacent(c, a[k]) && grid[a[k].0, a[k].1] && a[k] !in base && Direction(c, a[k]) < d)
      && (forall k, l :: 0 <= k < l < |a| ==> Direction(c, a[k]) < Direction(c, a[l]))
      && (forall e :: 0 <= e < d && InGrid(grid, Neighbour(c, e)) && grid[Neighbour(c, e).0, Neighbour(c, e).1] ==>
            Neighbour(c, e) in base + a)
  {
    if d > 0 {
      AppendedSpec(grid, c, base, d - 1);
      var a := Appended(grid, c, base, d - 1);
      var n := Neighbour(c, d - 1);
      if InGrid(grid, n) && grid[n.0, n.1] && n !in base + a {
        assert Adjacent(c, n) && Direction(c, n) == d - 1;
        assert base + (a + [n]) == (base + a) + [n];
      }
    }
  }

  /** One test of fetch_neighbours, for the neighbour n in direction d, extends the appended cells by one step. */
  lemma AppendedStep(grid: array2<bool>, c: Cell, base: seq<Cell>, d: nat, q: seq<Cell>, n: Cell, q': seq<Cell>)
    requires q == base + Appended(grid, c, base, d) && n == Neighbour(c, d)
    requires q' == if InGrid(grid, n) && grid[n.0, n.1] && n !in q then q + [n] else q
    ensures q' == base + Appended(grid, c, base, d + 1)
  {
    var a := Appended(grid, c, base, d);
    if InGrid(grid, n) && grid[n.0, n.1] && n !in q {
      assert base + (a + [n]) == (base + a) + [n];
    }
  }

  /**
   * The queue after all four tests: the old queue, then exactly the True
   * neighbours it lacked, in direction order; it holds no cell twice when the
   * old queue did not.
   */
  lemma Fetched(grid: array2<bool>, c: Cell, base: seq<Cell>, q: seq<Cell>)
    requires q == base + Appended(grid, c, base, 4)
    ensures |base| <= |q| && q[..|base|] == base
    ensures forall k :: |base| <= k < |q| ==>
              InGrid(grid, q[k]) && Adjacent(c, q[k]) && grid[q[k].0, q[k].1] && q[k] !in base
    ensures forall k, l :: |base| <= k < l < |q| ==> Direction(c, q[k]) < Direction(c, q[l])
    ensures forall n :: InGrid(grid, n) && Adjacent(c, n) && grid[n.0, n.1] ==> n in q
    ensures NoDup(base) ==> NoDup(q)
  {
    AppendedSpec(grid, c, base, 4);
    var a := Appended(grid, c, base, 4);
    assert forall k {:trigger q[k]} :: |base| <= k < |q| ==> q[k] == a[k - |base|];
    forall n | InGrid(grid, n) && Adjacent(c, n) && grid[n.0, n.1]
      ensures n in q
    {
      assert Neighbour(c, Direction(c, n)) == n;
    }
    if NoDup(base) {
      AppendedDistinct(c, base, q);
    }
  }

  /**
   * One test of fetch_neighbours: queue n when it lies inside the grid, its
   * grid cell is True and it is not queued yet. For a neighbour of an in-grid
   * cell, "inside the grid" is the source's test against 0 or the grid's
   * shape in the one coordinate that moved.
   */
  method EnqueueIfTrue(grid: array2<bool>, q: seq<Cell>, n: Cell) returns (q': seq<Cell>)
    ensures q' == if InGrid(grid, n) && grid[n.0, n.1] && n !in q then q + [n] else q
  {
    q' := q;
    if 0 <= n.0 < grid.Length0 && 0 <= n.1 < grid.Length1 && grid[n.0, n.1] && n !in q {
      q' := q + [n];
    }
  }

  /**
   * Appends to the queue, in the order up, down, left, right, each in-grid
   * neighbour of `current` whose grid cell is still True and which is not
   * already queued. Afterwards every such neighbour is queued, and a queue
   * that held no cell twice still holds none twice.
   */
  method FetchNeighbours(current: Cell, cellsToCheck: seq<Cell>, grid: array2<bool>) returns (q: seq<Cell>)
    requires InGrid(grid, current)
    ensures |cellsToCheck| <= |q| && q[..|cellsToCheck|] == cellsToCheck
    ensures forall k :: |cellsToCheck| <= k < |q| ==>
              InGrid(grid, q[k]) && Adjacent(current, q[k]) && grid[q[k].0, q[k].1] && q[k] !in cellsToCheck
    ensures forall k, l :: |cellsToCheck| <= k < l < |q| ==> Direction(current, q[k]) < Direction(current, q[l])
    ensures forall n :: InGrid(grid, n) && Adjacent(current, n) && grid[n.0, n.1] ==> n in q
    ensures NoDup(cellsToCheck) ==> NoDup(q)
  {
    var (i, j) := current;
    ghost var base := cellsToCheck;
    assert base == base + Appended(grid, current, base, 0);
    var q1 := EnqueueIfTrue(grid, cellsToCheck, (i - 1, j));
    AppendedStep(grid, current, base, 0, base, (i - 1, j), q1);
    var q2 := EnqueueIfTrue(grid, q1, (i + 1, j));
    AppendedStep(grid, current, base, 1, q1, (i + 1, j), q2);
    var q3 := EnqueueIfTrue(grid, q2, (i, j - 1));
    AppendedStep(grid, current, base, 2, q2, (i, j - 1), q3);
    q := EnqueueIfTrue(grid, q3, (i, j + 1));
    AppendedStep(grid, current, base, 3, q3, (i, j + 1), q);
    Fetched(grid, current, base, q);
  }

  /** Cells appended in strictly increasing direction, none already queued, keep a queue free of repeats. */
  lemma AppendedDistinct(c: Cell, base: seq<Cell>, q: seq<Cell>)
    requires NoDup(base) && |base| <= |q| && q[..|base|] == base
    requires forall k :: |base| <= k < |q| ==> q[k] !in base
    requires forall k, l :: |base| <= k < l < |q| ==> Direction(c, q[k]) < Direction(c, q[l])
    ensures NoDup(q)
  {
    forall k, l | 0 <= k < l < |q|
      ensures q[k] != q[l]
    {
      if k < |base| {
        assert q[k] == base[k];
      }
    }
  }

  /** The (x, y) points of a set of (row, col) cells. */
  ghost function Points(cells: set<Cell>): set<Point> {
    set c {:trigger c in cells} | c in cells :: (c.1, c.0)
  }

  lemma PointsSwap(cells: set<Cell>, pt: Point)
    ensures pt in Points(cells) <==> (pt.1, pt.0) in cells
  {
    if (pt.1, pt.0) in cells {
      assert pt == ((pt.1, pt.0).1, (pt.1, pt.0).0);
    }
  }

  /** The box records the tight bounds and the 0/255 mask of exactly the cells of comp. */
  ghost predicate Describes(b: Box, comp: set<Cell>) {
    && b.Extent().Tight(Points(comp))
    && b.mask.Valid()
    && b.mask.Dims() == (b.yMax - b.yMin + 1, b.xMax - b.xMin + 1)
    && forall r, c :: 0 <= r < b.mask.height && 0 <= c < b.mask.width ==>
         b.mask.px[r][c] == if (r + b.yMin, c + b.xMin) in comp then 255 else 0
  }

  /**
   * The flood fill's bookkeeping: the queue holds no cell twice and nothing
   * visited; queued and visited cells lie in T (the start may not) and are
   * reachable from the start; and every neighbour in T of a visited cell is
   * visited or queued.
   */
  ghost predicate Frontier(T: set<Cell>, s: Cell, visited: set<Cell>, queue: seq<Cell>) {
    && NoDup(queue)
    && (forall q :: q in queue ==> q !in visited && (q in T || q == s) && Reachable(T, s, q))
    && (forall v :: v in visited ==> (v in T || v == s) && Reachable(T, s, v))
    && (s in visited || (visited == {} && queue == [s]))
    && (forall v, n {:trigger Adjacent(v, n)} :: v in visited && n in T && Adjacent(v, n) ==> n in visited || n in queue)
  }

  lemma FrontierStart(T: set<Cell>, s: Cell)
    ensures Frontier(T, s, {}, [s])
  {
    ReachSelf(T, s);
  }

  /**
   * One turn of the loop in bfs: the head of the queue is visited, and the
   * queue becomes its tail followed by the head's unvisited neighbours in T.
   */
  lemma FrontierStep(T: set<Cell>, s: Cell, visited: set<Cell>, queue: seq<Cell>, queue': seq<Cell>)
    requires Frontier(T, s, visited, queue) && |queue| > 0
    requires |queue| - 1 <= |queue'| && queue'[..|queue| - 1] == queue[1..] && NoDup(queue')
    requires forall k :: |queue| - 1 <= k < |queue'| ==>
               queue'[k] in T && queue'[k] !in visited && queue'[k] != queue[0] && Adjacent(queue[0], queue'[k])
    requires forall n :: n in T && n !in visited && n != queue[0] && Adjacent(queue[0], n) ==> n in queue'
    ensures Frontier(T, s, visited + {queue[0]}, queue')
  {
    var cur, rest := queue[0], queue[1..];
    var visited' := visited + {cur};
    assert cur !in visited && Reachable(T, s, cur);
    forall q | q in queue'
      ensures q !in visited' && (q in T || q == s) && Reachable(T, s, q)
    {
      var k :| 0 <= k < |queue'| && queue'[k] == q;
      if k < |rest| {
        assert q == queue[k + 1];
      } else {
        ReachStep(T, s, cur, q);
      }
    }
    forall v, n | v in visited' && n in T && Adjacent(v, n)
      ensures n in visited' || n in queue'
    {
      if v in visited && n !in visited && n != cur {
        var k :| 0 <= k < |queue| && queue[k] == n;
        assert queue'[k - 1] == n;
      }
    }
  }

  /** When the queue runs dry the visited cells are exactly the start's component. */
  lemma FrontierDone(T: set<Cell>, s: Cell, visited: set<Cell>)
    requires Frontier(T, s, visited, [])
    ensures visited == Component(T, s)
  {
    ClosedHoldsComponent(T, s, visited);
  }

  /** The grid's True cells are those of T not yet visited. */
  ghost predicate Unvisited(grid: array2<bool>, T: set<Cell>, visited: set<Cell>)
    reads grid
  {
    && (forall c :: c in T ==> InGrid(grid, c))
    && forall r, c {:trigger grid[r, c]} :: 0 <= r < grid.Length0 && 0 <= c < grid.Length1 ==>
         (grid[r, c] <==> (r, c) in T && (r, c) !in visited)
  }

  lemma UnvisitedStart(grid: array2<bool>)
    ensures Unvisited(grid, TrueCells(grid), {})
  {
  }

  lemma UnvisitedCells(grid: array2<bool>, T: set<Cell>, visited: set<Cell>)
    requires Unvisited(grid, T, visited)
    ensures TrueCells(grid) == T - visited
  {
  }

  /**
   * One turn of the loop in bfs, read off the grid: once the head of the queue
   * is cleared, fetch_neighbours appends exactly its unvisited neighbours in T.
   */
  lemma FillStep(grid: array2<bool>, T: set<Cell>, s: Cell, visited: set<Cell>, queue: seq<Cell>, queue': seq<Cell>)
    requires |queue| > 0 && InGrid(grid, s)
    requires Frontier(T, s, visited, queue) && Unvisited(grid, T, visited + {queue[0]})
    requires |queue| - 1 <= |queue'| && queue'[..|queue| - 1] == queue[1..]
    requires forall k :: |queue| - 1 <= k < |queue'| ==>
               InGrid(grid, queue'[k]) && Adjacent(queue[0], queue'[k]) && grid[queue'[k].0, queue'[k].1]
    requires forall n :: InGrid(grid, n) && Adjacent(queue[0], n) && grid[n.0, n.1] ==> n in queue'
    requires NoDup(queue[1..]) ==> NoDup(queue')
    ensures Frontier(T, s, visited + {queue[0]}, queue')
  {
    forall k | |queue| - 1 <= k < |queue'|
      ensures queue'[k] in T && queue'[k] !in visited && queue'[k] != queue[0]
    {
      assert queue'[k] == (queue'[k].0, queue'[k].1);
    }
    forall n | n in T && n !in visited && n != queue[0] && Adjacent(queue[0], n)
      ensures n in queue'
    {
      assert n == (n.0, n.1);
    }
    FrontierStep(T, s, visited, queue, queue');
  }

  /** `listed` holds each visited cell once, as (col, row). */
  ghost predicate Lists(listed: seq<Point>, visited: set<Cell>) {
    NoDup(listed) && forall p {:trigger p in listed} :: p in listed <==> (p.1, p.0) in visited
  }

  /** Listing a newly visited cell as (col, row) keeps the positions in step with the visited cells. */
  lemma ListStep(origin: Point, listed: seq<Point>, visited: set<Cell>, current: Cell)
    requires Lists(listed, visited) && current !in visited
    ensures var listed' := listed + [(current.1, current.0)];
      && Lists(listed', visited + {current})
      && Hull(Bounds(origin.0, origin.0, origin.1, origin.1), listed')
         == Grow(Hull(Bounds(origin.0, origin.0, origin.1, origin.1), listed), (current.1, current.0))
  {
    var pt := (current.1, current.0);
    var listed' := listed + [pt];
    assert listed'[..|listed|] == listed;
    assert (pt.1, pt.0) == current;
    assert pt !in listed;
    forall i, j | 0 <= i < j < |listed'|
      ensures listed'[i] != listed'[j]
    {
      if j == |listed| {
        assert listed'[i] in listed;
      }
    }
    forall p
      ensures p in listed' <==> (p.1, p.0) in visited + {current}
    {
      assert p in listed' <==> p in listed || p == pt;
    }
  }

  lemma HullContains(s: Point, ps: seq<Point>)
    ensures var h := Hull(Bounds(s.0, s.0, s.1, s.1), ps);
      h.Ordered() && forall p :: p in ps ==> h.Contains(p)
  {
    HullTight(s, ps);
  }

  /** With the start listed first, the listed positions are exactly the points of the visited cells. */
  lemma ListedPoints(origin: Point, visited: set<Cell>, listed: seq<Point>)
    requires (origin.1, origin.0) in visited && Lists(listed, visited)
    ensures Points(visited) == (set p | p in listed) + {origin}
  {
    forall pt | true
      ensures pt in Points(visited) <==> pt in (set p | p in listed) + {origin}
    {
      PointsSwap(visited, pt);
    }
  }

  /**
   * What bfs ends with: a box whose bounds come from growing the start's box
   * by every listed position and whose mask marks the listed positions
   * describes the visited cells, when those are the listed positions swapped.
   */
  lemma FillResult(b: Box, origin: Point, visited: set<Cell>, listed: seq<Point>)
    requires (origin.1, origin.0) in visited
    requires Lists(listed, visited)
    requires b.Extent() == Hull(Bounds(origin.0, origin.0, origin.1, origin.1), listed)
    requires b.mask.Valid() && b.mask.Dims() == (b.yMax - b.yMin + 1, b.xMax - b.xMin + 1)
    requires forall r, c :: 0 <= r < b.mask.height && 0 <= c < b.mask.width ==>
               b.mask.px[r][c] == if (c + b.xMin, r + b.yMin) in listed then 255 else 0
    ensures Describes(b, visited)
  {
    HullTight(origin, listed);
    ListedPoints(origin, visited, listed);
    forall r, c | 0 <= r < b.mask.height && 0 <= c < b.mask.width
      ensures b.mask.px[r][c] == if (r + b.yMin, c + b.xMin) in visited then 255 else 0
    {
      var pt := (c + b.xMin, r + b.yMin);
      assert pt in listed <==> (pt.1, pt.0) in visited;
    }
  }

  /**
   * The queue loop of bfs (lines 28-34): pop the front cell, clear it, queue
   * its True neighbours and grow the box by it. Exactly the start's component
   * is cleared and listed, each cell once as (col, row), and the box's bounds
   * are the start's grown by every listed position.
   */
  method Flood(start: Cell, grid: array2<bool>, box: BoundingBox) returns (listed: seq<Point>)
    requires InGrid(grid, start)
    requires box.Extent() == Bounds(start.1, start.1, start.0, start.0)
    modifies grid, box
    ensures TrueCells(grid) == old(TrueCells(grid)) - Component(old(TrueCells(grid)), start)
    ensures Lists(listed, Component(old(TrueCells(grid)), start))
    ensures box.Extent() == Hull(Bounds(start.1, start.1, start.0, start.0), listed)
    ensures box.mask == old(box.mask)
  {
    ghost var T := TrueCells(grid);
    ghost var visited: set<Cell> := {};
    UnvisitedStart(grid);
    var origin := (start.1, start.0);
    listed := [];
    var cellsToCheck := [start];
    FrontierStart(T, start);
    while |cellsToCheck| > 0
      invariant Unvisited(grid, T, visited) && Frontier(T, start, visited, cellsToCheck)
      invariant Lists(listed, visited)
      invariant box.Extent() == Hull(Bounds(origin.0, origin.0, origin.1, origin.1), listed)
      invariant box.mask == old(box.mask)
      decreases T + {start} - visited
    {
      var current := cellsToCheck[0];
      ghost var queue := cellsToCheck;
      assert current in queue && InGrid(grid, current);
      cellsToCheck := cellsToCheck[1..];
      grid[current.0, current.1] := false;
      assert Unvisited(grid, T, visited + {current});
      cellsToCheck := FetchNeighbours(current, cellsToCheck, grid);
      FillStep(grid, T, start, visited, queue, cellsToCheck);
      box.UpdateBoundaries((current.1, current.0));
      ListStep(origin, listed, visited, current);
      listed := listed + [(current.1, current.0)];
      visited := visited + {current};
    }
    FrontierDone(T, start, visited);
    UnvisitedCells(grid, T, visited);
  }

  /**
   * Breadth-first flood fill from `start`. Exactly the start's component of the
   * grid's True cells is cleared; the new box describes that component, and the
   * positions it was built from list each of its cells once, as (col, row).
   */
  method Bfs(start: Cell, grid: array2<bool>) returns (box: BoundingBox, ghost positions: seq<Point>)
    requires InGrid(grid, start)
    modifies grid
    ensures fresh(box)
    ensures TrueCells(grid) == old(TrueCells(grid)) - Component(old(TrueCells(grid)), start)
    ensures Describes(box.Value(), Component(old(TrueCells(grid)), start))
    ensures NoDup(positions)
    ensures forall p :: p in positions <==> (p.1, p.0) in Component(old(TrueCells(grid)), start)
  {
    ghost var T := TrueCells(grid);
    var origin := (start.1, start.0);
    box := new BoundingBox(origin);
    var listed := Flood(start, grid, box);
    ComponentShape(T, start);
    HullContains(origin, listed);
    box.CreateMask(listed);
    positions := listed;
    FillResult(box.Value(), origin, Component(T, start), listed);
  }

  // ----- get_letter_boundries (support_functions.py:49-73) -----

  /**
   * `grid.any()` and `np.unravel_index(np.argmax(grid), grid.shape)`: whether
   * some cell is True, and then the first True cell in row-major order.
   */
  method FirstTrue(grid: array2<bool>) returns (found: bool, cell: Cell)
    ensures found <==> TrueCells(grid) != {}
    ensures found ==> cell in TrueCells(grid) && forall c :: c in TrueCells(grid) ==> !RowMajorBefore(c, cell)
  {
    var i := 0;
    while i < grid.Length0
      invariant 0 <= i <= grid.Length0
      invariant forall r, c :: 0 <= r < i && 0 <= c < grid.Length1 ==> !grid[r, c]
    {
      var j := 0;
      while j < grid.Length1
        invariant 0 <= j <= grid.Length1
        invariant forall c :: 0 <= c < j ==> !grid[i, c]
      {
        if grid[i, j] {
          assert (i, j) in TrueCells(grid);
          return true, (i, j);
        }
        j := j + 1;
      }
      i := i + 1;
    }
    assert forall c :: c !in TrueCells(grid);
    return false, (0, 0);
  }

  ghost function UnionOf(cs: seq<set<Cell>>): set<Cell> {
    if cs == [] then {} else UnionOf(cs[..|cs| - 1]) + cs[|cs| - 1]
  }

  /**
   * What the segmenter has found so far: components of nz, each grown from a
   * seed that was the first uncleared cell in row-major order when it was
   * taken, pairwise disjoint, and together closed in nz.
   */
  ghost predicate Segmented(nz: set<Cell>, comps: seq<set<Cell>>, seeds: seq<Cell>) {
    && |comps| == |seeds|
    && UnionOf(comps) <= nz && ClosedIn(UnionOf(comps), nz)
    && (forall k {:trigger comps[k]} :: 0 <= k < |comps| ==>
          seeds[k] in comps[k] && comps[k] == Component(nz, seeds[k]) && comps[k] <= UnionOf(comps))
    && (forall k {:trigger seeds[k]} :: 0 <= k < |seeds| ==>
          forall c :: c in nz - UnionOf(comps[..k]) ==> !RowMajorBefore(c, seeds[k]))
    && (forall i, j {:trigger comps[i], comps[j]} :: 0 <= i < j < |comps| ==> comps[i] !! comps[j])
  }

  /**
   * Flood-filling from the first uncleared cell finds that cell's component of
   * nz, and adding it keeps what has been found a segmentation.
   */
  lemma SegmentStep(nz: set<Cell>, comps: seq<set<Cell>>, seeds: seq<Cell>, seed: Cell)
    requires Segmented(nz, comps, seeds) && seed in nz - UnionOf(comps)
    requires forall c :: c in nz - UnionOf(comps) ==> !RowMajorBefore(c, seed)
    ensures Component(nz - UnionOf(comps), seed) == Component(nz, seed)
    ensures seed in Component(nz, seed)
    ensures UnionOf(comps + [Component(nz, seed)]) == UnionOf(comps) + Component(nz, seed)
    ensures Segmented(nz, comps + [Component(nz, seed)], seeds + [seed])
  {
    var U, C := UnionOf(comps), Component(nz, seed);
    var comps', seeds' := comps + [C], seeds + [seed];
    ComponentAfterClearing(nz, U, seed);
    ClearingStaysClosed(nz, U, seed);
    ComponentShape(nz - U, seed);
    assert comps'[..|comps|] == comps;
    assert UnionOf(comps') == U + C;
    forall k | 0 <= k < |comps'|
      ensures seeds'[k] in comps'[k] && comps'[k] == Component(nz, seeds'[k]) && comps'[k] <= U + C
    {
      if k < |comps| {
        assert comps'[k] == comps[k];
      }
    }
    forall k | 0 <= k < |seeds'|
      ensures forall c :: c in nz - UnionOf(comps'[..k]) ==> !RowMajorBefore(c, seeds'[k])
    {
      if k < |seeds| {
        assert comps'[..k] == comps[..k] && seeds'[k] == seeds[k];
      } else {
        assert comps'[..k] == comps;
      }
    }
    forall i, j | 0 <= i < j < |comps'|
      ensures comps'[i] !! comps'[j]
    {
      if j == |comps| {
        assert comps'[i] == comps[i] && comps[i] <= U;
      } else {
        assert comps'[i] == comps[i] && comps'[j] == comps[j];
      }
    }
  }

  /** The boxes emitted, in order, for a sequence of flood-filled boxes. */
  function EmitAll(bs: seq<Box>, splitBoxes: bool): seq<Box>
    requires forall k :: 0 <= k < |bs| ==> bs[k].mask.Valid()
  {
    if bs == [] then [] else EmitAll(bs[..|bs| - 1], splitBoxes) + Emit(bs[|bs| - 1], splitBoxes)
  }

  lemma EmitAllSnoc(bs: seq<Box>, b: Box, splitBoxes: bool)
    requires forall k :: 0 <= k < |bs| ==> bs[k].mask.Valid()
    requires b.mask.Valid()
    ensures EmitAll(bs + [b], splitBoxes) == EmitAll(bs, splitBoxes) + Emit(b, splitBoxes)
  {
    assert (bs + [b])[..|bs|] == bs;
  }

  /**
   * Lines 63-70: a new box takes the leftmost 500 mask columns and the
   * matching x range; the box keeps the rest and its xMin moves right by 500.
   */
  method CutStrip(box: BoundingBox) returns (strip: BoundingBox)
    requires box.mask.Valid()
    modifies box
    ensures fresh(strip)
    ensures strip.Value() == Strip(old(box.Value()))
    ensures box.mask.Valid() && box.Value() == Rest(old(box.Value()))
  {
    strip := new BoundingBox((0, 0));
    strip.xMin := box.xMin;
    strip.xMax := box.xMin + StripWidth;
    strip.yMin := box.yMin;
    strip.yMax := box.yMax;
    strip.mask := Block(box.mask, 0, box.mask.height, 0, StripWidth);
    box.xMin := box.xMin + StripWidth;
    box.mask := Block(box.mask, 0, box.mask.height, StripWidth, box.mask.width);
  }

  /**
   * Lines 63-71: cut n strips of 500 mask columns, one after another, from
   * the left of the box. Each strip is a new box; the box itself keeps what
   * is left, with its xMin moved right by 500 per strip.
   */
  method CutStrips(box: BoundingBox, n: nat) returns (strips: seq<BoundingBox>)
    requires box.mask.Valid()
    modifies box
    ensures box.mask.Valid() && box.Value() == Strips(old(box.Value()), n)[n]
    ensures |strips| == n
    ensures forall k {:trigger strips[k]} :: 0 <= k < n ==> strips[k].Value() == Strips(old(box.Value()), n)[k] && fresh(strips[k])
  {
    ghost var b0 := box.Value();
    strips := [];
    var i := 0;
    while i < n
      invariant 0 <= i <= n
      invariant box.mask.Valid() && box.Value() == Cut(b0, i)
      invariant |strips| == i
      invariant forall k {:trigger strips[k]} :: 0 <= k < i ==> strips[k].Value() == Strip(Cut(b0, k)) && fresh(strips[k])
    {
      var strip := CutStrip(box);
      strips := strips + [strip];
      i := i + 1;
    }
    StripsCutAll(b0, n);
  }

  /**
   * Lines 58-72 for one box: drop it as noise unless both extents exceed 20;
   * with splitting on and more than 500 mask columns, append W // 500 strips
   * cut from its left, then the box with what is left.
   */
  method AppendBox(boxes: seq<BoundingBox>, ghost values: seq<Box>, box: BoundingBox, splitBoxes: bool)
    returns (out: seq<BoundingBox>)
    requires box !in boxes && box.mask.Valid()
    requires |boxes| == |values| && forall k {:trigger boxes[k]} :: 0 <= k < |boxes| ==> boxes[k].Value() == values[k]
    modifies box
    ensures |out| == |values + Emit(old(box.Value()), splitBoxes)|
    ensures forall k {:trigger out[k]} :: 0 <= k < |out| ==> out[k].Value() == (values + Emit(old(box.Value()), splitBoxes))[k]
    ensures forall k {:trigger out[k]} :: |boxes| <= k < |out| ==> out[k] == box || fresh(out[k])
  {
    ghost var b := box.Value();
    out := boxes;
    if box.xMax - box.xMin > NoiseExtent && box.yMax - box.yMin > NoiseExtent {
      ghost var pieces := [b];
      if splitBoxes && box.mask.width > StripWidth {
        var strips := CutStrips(box, box.mask.width / StripWidth);
        out := out + strips;
        pieces := Split(b);
      }
      out := out + [box];
      assert Emit(b, splitBoxes) == pieces && |out| == |values| + |pieces|;
      forall k | 0 <= k < |out|
        ensures out[k].Value() == (values + pieces)[k]
      {
        if k < |boxes| {
          assert out[k] == boxes[k];
        }
      }
    } else {
      assert Emit(b, splitBoxes) == [];
    }
  }

  /**
   * The segmentation so far together with the box flood-filled from each
   * component, every box valid as a mask for the emitting step.
   */
  ghost predicate Found(nz: set<Cell>, comps: seq<set<Cell>>, seeds: seq<Cell>, found: seq<Box>) {
    && Segmented(nz, comps, seeds)
    && |found| == |comps|
    && (forall k {:trigger found[k]} :: 0 <= k < |found| ==> Describes(found[k], comps[k]) && found[k].mask.Valid())
  }

  /** The boxes appended so far are, in order, those emitted for the flood-filled boxes. */
  ghost predicate Holds(boxes: seq<BoundingBox>, values: seq<Box>)
    reads boxes
  {
    |boxes| == |values| && forall k {:trigger boxes[k]} :: 0 <= k < |boxes| ==> boxes[k].Value() == values[k]
  }

  ghost predicate Emitted(found: seq<Box>, values: seq<Box>, splitBoxes: bool) {
    && (forall k {:trigger found[k]} :: 0 <= k < |found| ==> found[k].mask.Valid())
    && values == EmitAll(found, splitBoxes)
  }

  /** AppendBox for the next flood-filled box, with what has been emitted so far given by EmitAll. */
  method KeepBox(boxes: seq<BoundingBox>, ghost values: seq<Box>, ghost found: seq<Box>, box: BoundingBox, ghost b: Box, splitBoxes: bool)
    returns (out: seq<BoundingBox>, ghost values': seq<Box>)
    requires Holds(boxes, values) && Emitted(found, values, splitBoxes)
    requires box !in boxes && box.Value() == b && b.mask.Valid()
    modifies box
    ensures Holds(out, values') && Emitted(found + [b], values', splitBoxes)
  {
    out := AppendBox(boxes, values, box, splitBoxes);
    values' := values + Emit(b, splitBoxes);
    EmitAllSnoc(found, b, splitBoxes);
  }

  /** Once no cell is left outside the components found, they cover the whole image. */
  lemma FoundDone(nz: set<Cell>, comps: seq<set<Cell>>, seeds: seq<Cell>, found: seq<Box>)
    requires Found(nz, comps, seeds, found) && nz - UnionOf(comps) == {}
    ensures |comps| == |seeds| == |found|
    ensures forall k {:trigger comps[k]} :: 0 <= k < |comps| ==>
              seeds[k] in comps[k] && comps[k] == Component(nz, seeds[k])
    ensures forall k {:trigger seeds[k]} :: 0 <= k < |seeds| ==>
              forall c :: c in nz - UnionOf(comps[..k]) ==> !RowMajorBefore(c, seeds[k])
    ensures forall i, j {:trigger comps[i], comps[j]} :: 0 <= i < j < |comps| ==> comps[i] !! comps[j]
    ensures UnionOf(comps) == nz
    ensures forall k {:trigger found[k]} :: 0 <= k < |found| ==> Describes(found[k], comps[k]) && found[k].mask.Valid()
  {
    assert Segmented(nz, comps, seeds);
    forall c | c in nz
      ensures c in UnionOf(comps)
    {
      assert c !in nz - UnionOf(comps);
    }
  }

  /**
   * One round of the segmenter's loop, on the sets alone: the box flood-filled
   * from the first uncleared cell describes that cell's component of the
   * whole image, the cells left afterwards are those outside every component
   * found, and fewer cells are left than before.
   */
  lemma FoundStep(nz: set<Cell>, comps: seq<set<Cell>>, seeds: seq<Cell>, found: seq<Box>,
                  remaining: set<Cell>, seed: Cell, b: Box)
    requires Found(nz, comps, seeds, found) && remaining == nz - UnionOf(comps)
    requires seed in remaining && forall c :: c in remaining ==> !RowMajorBefore(c, seed)
    requires Describes(b, Component(remaining, seed))
    ensures Found(nz, comps + [Component(nz, seed)], seeds + [seed], found + [b])
    ensures remaining - Component(remaining, seed) == nz - UnionOf(comps + [Component(nz, seed)])
    ensures nz - UnionOf(comps + [Component(nz, seed)]) < remaining
  {
    var C := Component(nz, seed);
    SegmentStep(nz, comps, seeds, seed);
    var found' := found + [b];
    forall k | 0 <= k < |found'|
      ensures Describes(found'[k], (comps + [C])[k]) && found'[k].mask.Valid()
    {
      if k < |found| {
        assert found'[k] == found[k] && (comps + [C])[k] == comps[k];
      }
    }
  }

  /**
   * Where the segmenter's loop stands: the cells still set in the grid are the
   * nonzero cells outside every component found so far.
   */
  ghost predicate Progress(grid: array2<bool>, nz: set<Cell>, comps: seq<set<Cell>>, seeds: seq<Cell>, found: seq<Box>)
    reads grid
  {
    TrueCells(grid) == nz - UnionOf(comps) && Found(nz, comps, seeds, found)
  }

  /** `any` and `seed` are what the scan for the first set cell of the grid returns. */
  ghost predicate FirstSet(grid: array2<bool>, any: bool, seed: Cell)
    reads grid
  {
    && (any <==> TrueCells(grid) != {})
    && (any ==> seed in TrueCells(grid) && forall c :: c in TrueCells(grid) ==> !RowMajorBefore(c, seed))
  }

  /**
   * Lines 56-57: flood-fill from the first True cell. The grid loses that
   * cell's component and the new box describes it, which extends the
   * segmentation found so far by one component.
   */
  method FloodComponent(grid: array2<bool>, seed: Cell, ghost nz: set<Cell>, ghost comps: seq<set<Cell>>,
                        ghost seeds: seq<Cell>, ghost found: seq<Box>) returns (box: BoundingBox, ghost b: Box)
    requires Progress(grid, nz, comps, seeds, found) && FirstSet(grid, true, seed)
    modifies grid
    ensures fresh(box) && box.Value() == b && b.mask.Valid()
    ensures Progress(grid, nz, comps + [Component(nz, seed)], seeds + [seed], found + [b])
    ensures nz - UnionOf(comps + [Component(nz, seed)]) < nz - UnionOf(comps)
  {
    ghost var remaining := TrueCells(grid);
    ghost var positions;
    box, positions := Bfs(seed, grid);
    b := box.Value();
    FoundStep(nz, comps, seeds, found, remaining, seed, b);
  }

  /** Lines 50-52: the grid of cells whose label is nonzero. */
  method Binarize(img: Raster) returns (grid: array2<bool>)
    requires img.Valid()
    ensures fresh(grid) && grid.Length0 == img.height && grid.Length1 == img.width
    ensures TrueCells(grid) == NonZero(img)
  {
    grid := new bool[img.height, img.width];
    var r := 0;
    while r < img.height
      invariant 0 <= r <= img.height
      invariant forall i, j {:trigger grid[i, j]} :: 0 <= i < r && 0 <= j < img.width ==> (grid[i, j] <==> img.px[i][j] != 0)
    {
      var c := 0;
      while c < img.width
        invariant 0 <= c <= img.width
        invariant forall i, j {:trigger grid[i, j]} :: 0 <= i < r && 0 <= j < img.width ==> (grid[i, j] <==> img.px[i][j] != 0)
        invariant forall j {:trigger grid[r, j]} :: 0 <= j < c ==> (grid[r, j] <==> img.px[r][j] != 0)
      {
        grid[r, c] := img.px[r][c] != 0;
        c := c + 1;
      }
      r := r + 1;
    }
  }

  /**
   * Lines 56-72, one pass of the loop body: flood-fill from the first set
   * cell and append the boxes emitted for its component.
   */
  method Round(grid: array2<bool>, seed: Cell, boxes: seq<BoundingBox>, splitBoxes: bool,
               ghost nz: set<Cell>, ghost comps: seq<set<Cell>>, ghost seeds: seq<Cell>, ghost found: seq<Box>, ghost values: seq<Box>)
    returns (boxes': seq<BoundingBox>, ghost comps': seq<set<Cell>>, ghost seeds': seq<Cell>, ghost found': seq<Box>, ghost values': seq<Box>)
    requires Progress(grid, nz, comps, seeds, found) && FirstSet(grid, true, seed)
    requires Holds(boxes, values) && Emitted(found, values, splitBoxes)
    modifies grid
    ensures Progress(grid, nz, comps', seeds', found') && Holds(boxes', values') && Emitted(found', values', splitBoxes)
    ensures nz - UnionOf(comps') < nz - UnionOf(comps)
  {
    var box;
    ghost var b;
    box, b := FloodComponent(grid, seed, nz, comps, seeds, found);
    boxes', values' := KeepBox(boxes, values, found, box, b, splitBoxes);
    comps', seeds', found' := comps + [Component(nz, seed)], seeds + [seed], found + [b];
  }

  /**
   * Segments a label image into letter boxes. The flood-filled components are
   * exactly the 4-connected components of the nonzero cells, found in the
   * row-major order of their first cell, pairwise disjoint and together
   * covering every nonzero cell; `found` holds the box of each, and the boxes
   * returned are those the noise filter keeps, split into strips when wide.
   */
  method GetLetterBoundries(labelImage: Raster, splitBoxes: bool)
    returns (boxes: seq<BoundingBox>, ghost comps: seq<set<Cell>>, ghost seeds: seq<Cell>, ghost found: seq<Box>)
    requires labelImage.Valid()
    ensures |comps| == |seeds| == |found|
    ensures forall k {:trigger comps[k]} :: 0 <= k < |comps| ==>
              seeds[k] in comps[k] && comps[k] == Component(NonZero(labelImage), seeds[k])
    ensures forall k {:trigger seeds[k]} :: 0 <= k < |seeds| ==>
              forall c :: c in NonZero(labelImage) - UnionOf(comps[..k]) ==> !RowMajorBefore(c, seeds[k])
    ensures forall i, j {:trigger comps[i], comps[j]} :: 0 <= i < j < |comps| ==> comps[i] !! comps[j]
    ensures UnionOf(comps) == NonZero(labelImage)
    ensures forall k {:trigger found[k]} :: 0 <= k < |found| ==> Describes(found[k], comps[k]) && found[k].mask.Valid()
    ensures |boxes| == |EmitAll(found, splitBoxes)|
    ensures forall k {:trigger boxes[k]} :: 0 <= k < |boxes| ==> boxes[k].Value() == EmitAll(found, splitBoxes)[k]
  {
    var grid := Binarize(labelImage);
    ghost var nz := NonZero(labelImage);
    boxes, comps, seeds, found := [], [], [], [];
    ghost var values := [];
    var any, seed := FirstTrue(grid);
    while any
      invariant Progress(grid, nz, comps, seeds, found) && FirstSet(grid, any, seed)
      invariant Holds(boxes, values) && Emitted(found, values, splitBoxes)
      decreases nz - UnionOf(comps)
    {
      boxes, comps, seeds, found, values := Round(grid, seed, boxes, splitBoxes, nz, comps, seeds, found, values);
      any, seed := FirstTrue(grid);
    }
    FoundDone(nz, comps, seeds, found);
  }
}

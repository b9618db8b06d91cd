/**
 * The `PathfindingVisualizer` component: its state (the grid, the running and
 * mouse flags, the selected tool, the marker positions and the two counters)
 * and the handlers that change it, with a run of the search as one call that
 * returns the animation frames it would show, in order.
 */
module PathfindingVisualizer {
  import opened Grid
  import opened Editing
  import opened Dijkstra
  import opened Reconstruction

  /** The editing tool picked in the toolbar. */
  datatype Tool = WallTool | StartTool | EndTool

  /**
   * One animation frame of a run: a node turning visited, which bumps the
   * visited counter, or a node turning into a path node, which sets the
   * displayed path length to `length`.
   */
  datatype Frame = VisitFrame(at: Pos) | PathFrame(at: Pos, length: nat)

  /** The visited frames for the nodes of `l`, in order. */
  function VisitFrames(l: seq<Pos>): (f: seq<Frame>)
    ensures |f| == |l|
    ensures forall i :: 0 <= i < |l| ==> f[i].VisitFrame? && f[i].at == l[i]
  {
    seq(|l|, i requires 0 <= i < |l| => VisitFrame(l[i]))
  }

  /** The path frames for the marked nodes `m`: the j-th sets the length to j + 1. */
  function PathFrames(m: seq<Pos>): (f: seq<Frame>)
    ensures |f| == |m|
    ensures forall j :: 0 <= j < |m| ==> f[j].PathFrame? && f[j].at == m[j] && f[j].length == j + 1
  {
    seq(|m|, j requires 0 <= j < |m| => PathFrame(m[j], j + 1))
  }

  /** The two grids have their walls at the same positions. */
  ghost predicate SameWalls(a: Board, b: Board)
    requires Shaped(a) && Shaped(b)
  {
    forall p :: InBounds(p) ==> (At(a, p).typ == Wall <==> At(b, p).typ == Wall)
  }

  /** Whether a walk is possible depends on the walls alone. */
  lemma SameWallsSameWalks(a: Board, b: Board)
    requires Shaped(a) && Shaped(b) && SameWalls(a, b)
    ensures forall w {:trigger IsWalk(a, w)} {:trigger IsWalk(b, w)} :: IsWalk(a, w) <==> IsWalk(b, w)
  {
    forall w | IsWalk(a, w) ensures IsWalk(b, w) {
      forall i | 0 <= i < |w| ensures At(b, w[i]).typ != Wall {
        assert InBounds(w[i]);
      }
    }
    forall w | IsWalk(b, w) ensures IsWalk(a, w) {
      forall i | 0 <= i < |w| ensures At(a, w[i]).typ != Wall {
        assert InBounds(w[i]);
      }
    }
  }

  /** A walk on `g` leads from `s` to `e`. */
  ghost predicate Reachable(g: Board, s: Pos, e: Pos)
    requires Shaped(g)
  {
    exists w {:trigger WalkFrom(g, s, w)} :: WalkFrom(g, s, w) && Last(w) == e
  }

  /** A walk from `s` to `e` on `g` with no more nodes than any other such walk. */
  ghost predicate ShortestWalk(g: Board, s: Pos, e: Pos, path: seq<Pos>)
    requires Shaped(g)
  {
    && WalkFrom(g, s, path) && Last(path) == e
    && forall w {:trigger WalkFrom(g, s, w)} :: WalkFrom(g, s, w) && Last(w) == e ==> |path| <= |w|
  }

  /**
   * The type a run leaves at `p` of the grid `before` it started from: the
   * intermediate nodes of the path are path nodes, the settled nodes that were
   * empty once cleared are visited, and every other node has its cleared type.
   */
  function RunType(before: Board, s: Pos, e: Pos, order: seq<Pos>, path: seq<Pos>, p: Pos): NodeType
    requires Shaped(before) && InBounds(p)
  {
    if p in path && p != s && p != e then Path
    else if ClearedType(At(before, p).typ) == Empty && p in order then Visited
    else ClearedType(At(before, p).typ)
  }

  /** Clearing keeps the walls, and the search only turns empty nodes visited. */
  lemma SearchKeepsWalls(before: Board, s: Pos, e: Pos, g: Board, order: seq<Pos>, frames: seq<Pos>)
    requires Shaped(before) && Markers(before, s, e)
    requires Prepared(Prepare(before, s), s, e)
    requires forall p :: InBounds(p) ==> At(Prepare(before, s), p).typ == ClearedType(At(before, p).typ)
    requires Settlement(Prepare(before, s), s, e, g, order, frames)
    ensures SameWalls(before, Prepare(before, s)) && SameWalls(before, g)
    ensures forall p :: InBounds(p) ==> At(g, p).typ == RunType(before, s, e, order, [], p)
  {
  }

  /**
   * When the search reaches the end, the reconstructed path, which has
   * distance-of-the-end plus one nodes, is a shortest walk on the grid the
   * run started from.
   */
  lemma ReachedShortest(before: Board, s: Pos, e: Pos, g: Board, order: seq<Pos>, path: seq<Pos>)
    requires Shaped(before) && InBounds(s) && Shaped(g) && AllIn(order)
    requires LowerBounds(Prepare(before, s), s, g, order) && e in order
    requires SameWalls(before, Prepare(before, s)) && SameWalls(before, g)
    requires InBounds(e) && At(g, e).distance.Fin? && |path| == At(g, e).distance.n + 1
    requires IsWalk(g, path) && path[0] == s && Last(path) == e
    ensures ShortestWalk(before, s, e, path)
  {
    var g0 := Prepare(before, s);
    SameWallsSameWalks(before, g);
    SameWallsSameWalks(before, g0);
    forall w | WalkFrom(before, s, w) && Last(w) == e ensures |path| <= |w| {
      assert WalkFrom(g0, s, w);
      assert DistLe(At(g, Last(w)).distance, Fin(|w| - 1));
    }
  }

  /**
   * When the search stops without the end, no walk on the grid the run
   * started from leads from the start to the end.
   */
  lemma TrappedUnreachable(before: Board, s: Pos, e: Pos, order: seq<Pos>)
    requires Shaped(before) && Markers(before, s, e)
    requires SameWalls(before, Prepare(before, s)) && e !in order
    requires forall w {:trigger WalkFrom(Prepare(before, s), s, w)} ::
      WalkFrom(Prepare(before, s), s, w) ==> Last(w) in order
    ensures !Reachable(before, s, e)
  {
    var g0 := Prepare(before, s);
    SameWallsSameWalks(before, g0);
    if Reachable(before, s, e) {
      var w :| WalkFrom(before, s, w) && Last(w) == e;
      assert WalkFrom(g0, s, w);
      assert false;
    }
  }

  /**
   * Marking the intermediate nodes of a walk as path nodes keeps the walls and
   * gives every node its `RunType`.
   */
  lemma MarkingTypes(before: Board, s: Pos, e: Pos, g: Board, order: seq<Pos>, path: seq<Pos>, r: Board)
    requires Shaped(before) && Shaped(g) && Shaped(r) && SameWalls(before, g) && IsWalk(g, path)
    requires forall p :: InBounds(p) ==> At(g, p).typ == RunType(before, s, e, order, [], p)
    requires forall p {:trigger At(r, p)} :: InBounds(p) ==>
      At(r, p) == if p in path && p != s && p != e then At(g, p).(typ := Path) else At(g, p)
    ensures SameWalls(before, r)
    ensures forall p :: InBounds(p) ==> At(r, p).typ == RunType(before, s, e, order, path, p)
    ensures forall p :: InBounds(p) ==> At(r, p).distance == At(g, p).distance
  {
    forall p | InBounds(p) && p in path ensures At(g, p).typ != Wall {
      var i :| 0 <= i < |path| && path[i] == p;
    }
  }

  /**
   * What a run from the grid `before` with markers `s` and `e` promises of the
   * grid `after` it leaves, the sequence `order` of settled nodes and the
   * reconstructed `path`: the settled nodes start at the start node and never
   * get closer; the walls stay where they were and every node ends with its
   * `RunType`; the path is empty exactly when no walk leads from the start to
   * the end, and is otherwise a shortest such walk, its i-th node at distance i.
   */
  ghost predicate RunOutcome(before: Board, s: Pos, e: Pos, after: Board, order: seq<Pos>, path: seq<Pos>)
    requires Shaped(before)
  {
    && Shaped(after)
    && SettledOrder(s, after, order)
    && SettledShortest(before, s, after, order)
    && Covered(before, s, order, path)
    && RunTypes(before, s, e, after, order, path)
    && RunPath(before, s, e, after, order, path)
  }

  /**
   * Every settled node is at its shortest distance from the start: some walk
   * reaches it in exactly that many steps, and none in fewer.
   */
  ghost predicate SettledShortest(before: Board, s: Pos, after: Board, order: seq<Pos>)
    requires Shaped(before) && Shaped(after) && AllIn(order)
  {
    forall p :: p in order ==>
      && At(after, p).distance.Fin?
      && (exists w {:trigger WalkFrom(before, s, w)} ::
            WalkFrom(before, s, w) && Last(w) == p && |w| == At(after, p).distance.n + 1)
      && (forall w {:trigger WalkFrom(before, s, w)} ::
            WalkFrom(before, s, w) && Last(w) == p ==> At(after, p).distance.n + 1 <= |w|)
  }

  /**
   * The search settles every node that a walk from the start reaches with fewer
   * nodes than the path (every node closer than the end), or with any number of
   * nodes when there is no path (every reachable node).
   */
  ghost predicate Covered(before: Board, s: Pos, order: seq<Pos>, path: seq<Pos>)
    requires Shaped(before)
  {
    forall w {:trigger WalkFrom(before, s, w)} :: WalkFrom(before, s, w) && (path == [] || |w| < |path|) ==>
      Last(w) in order
  }

  /**
   * The settled nodes of a search from the cleared grid are exactly at their
   * shortest distance on the grid the run started from.
   */
  lemma RunSettledShortest(before: Board, s: Pos, g: Board, order: seq<Pos>)
    requires Shaped(before) && InBounds(s) && Shaped(g) && AllIn(order) && ChainOk(g, s)
    requires LowerBounds(Prepare(before, s), s, g, order) && NonDecreasing(g, order)
    requires forall p :: p in order ==> At(g, p).typ != Wall
    requires SameWalls(before, Prepare(before, s)) && SameWalls(before, g)
    ensures SettledShortest(before, s, g, order)
  {
    var g0 := Prepare(before, s);
    SameWallsSameWalks(before, g0);
    SameWallsSameWalks(before, g);
    SettledReachable(g, s, order);
    forall p, w | p in order && WalkFrom(before, s, w) && Last(w) == p
      ensures At(g, p).distance.n + 1 <= |w|
    {
      assert WalkFrom(g0, s, w);
    }
  }

  /** The settled nodes start at the start node, none twice, and never get closer. */
  ghost predicate SettledOrder(s: Pos, after: Board, order: seq<Pos>)
    requires Shaped(after)
  {
    && |order| > 0 && order[0] == s && AllIn(order) && NoDup(order)
    && NonDecreasing(after, order)
  }

  /** The walls stay where they were and every node ends with its `RunType`. */
  ghost predicate RunTypes(before: Board, s: Pos, e: Pos, after: Board, order: seq<Pos>, path: seq<Pos>)
    requires Shaped(before) && Shaped(after)
  {
    && SameWalls(before, after)
    && forall p :: InBounds(p) ==> At(after, p).typ == RunType(before, s, e, order, path, p)
  }

  /**
   * The path is empty exactly when no walk leads from the start to the end and
   * the end is not settled, and is otherwise a shortest such walk, the end
   * settled last, the i-th node of the path at distance i.
   */
  ghost predicate RunPath(before: Board, s: Pos, e: Pos, after: Board, order: seq<Pos>, path: seq<Pos>)
    requires Shaped(before) && Shaped(after)
  {
    && (path != [] <==> Reachable(before, s, e))
    && (path != [] <==> e in order)
    && (path != [] ==> ShortestWalk(before, s, e, path) && NoDup(path) && |order| > 0 && Last(order) == e)
    && (forall i :: 0 <= i < |path| ==> At(after, path[i]).distance == Fin(i))
  }

  /** `NonDecreasing` and `SettledShortest` depend on the distances alone. */
  lemma SameDistancesShortest(before: Board, s: Pos, g: Board, order: seq<Pos>, r: Board)
    requires Shaped(before) && Shaped(g) && Shaped(r) && AllIn(order)
    requires NonDecreasing(g, order) && SettledShortest(before, s, g, order)
    requires forall p :: InBounds(p) ==> At(r, p).distance == At(g, p).distance
    ensures NonDecreasing(r, order) && SettledShortest(before, s, r, order)
  {
    forall p | p in order ensures At(r, p).distance == At(g, p).distance {
    }
  }

  /** When the end is reached, every walk with fewer nodes than the path ends at a settled node. */
  lemma ReachedCovered(before: Board, s: Pos, e: Pos, g: Board, order: seq<Pos>, path: seq<Pos>)
    requires Shaped(before) && Shaped(g) && InBounds(s) && InBounds(e) && At(g, e).distance.Fin?
    requires SameWalls(before, Prepare(before, s)) && |path| == At(g, e).distance.n + 1
    requires forall w {:trigger WalkFrom(Prepare(before, s), s, w)} ::
      WalkFrom(Prepare(before, s), s, w) && |w| - 1 < At(g, e).distance.n ==> Last(w) in order
    ensures Covered(before, s, order, path)
  {
    SameWallsSameWalks(before, Prepare(before, s));
    forall w | WalkFrom(before, s, w) && |w| < |path| ensures Last(w) in order {
      assert WalkFrom(Prepare(before, s), s, w);
    }
  }

  /** A run whose search reaches the end, followed by the path animation. */
  lemma ReachedOutcome(before: Board, s: Pos, e: Pos, g: Board, order: seq<Pos>, r: Board, path: seq<Pos>)
    requires Shaped(before) && Markers(before, s, e) && Shaped(g) && AllIn(order) && NoDup(order)
    requires LowerBounds(Prepare(before, s), s, g, order) && NonDecreasing(g, order)
    requires |order| > 0 && order[0] == s && e in order && Last(order) == e
    requires SameWalls(before, Prepare(before, s)) && SameWalls(before, g)
    requires forall p :: InBounds(p) ==> At(g, p).typ == RunType(before, s, e, order, [], p)
    requires At(g, e).distance.Fin? && |path| == At(g, e).distance.n + 1
    requires path[0] == s && Last(path) == e && IsWalk(g, path) && NoDup(path)
    requires forall i :: 0 <= i < |path| ==> At(g, path[i]).distance == Fin(i)
    requires SettledShortest(before, s, g, order)
    requires forall w {:trigger WalkFrom(Prepare(before, s), s, w)} ::
      WalkFrom(Prepare(before, s), s, w) && |w| - 1 < At(g, e).distance.n ==> Last(w) in order
    requires Shaped(r)
    requires forall p {:trigger At(r, p)} :: InBounds(p) ==>
      At(r, p) == if p in path && p != s && p != e then At(g, p).(typ := Path) else At(g, p)
    ensures RunOutcome(before, s, e, r, order, path)
  {
    ReachedShortest(before, s, e, g, order, path);
    MarkingTypes(before, s, e, g, order, path, r);
    SameDistancesShortest(before, s, g, order, r);
    ReachedCovered(before, s, e, g, order, path);
    assert forall i :: 0 <= i < |path| ==> At(r, path[i]).distance == Fin(i);
  }

  /** A run whose search stops without reaching the end. */
  lemma TrappedOutcome(before: Board, s: Pos, e: Pos, g: Board, order: seq<Pos>)
    requires Shaped(before) && Markers(before, s, e) && Shaped(g) && AllIn(order) && NoDup(order)
    requires NonDecreasing(g, order)
    requires |order| > 0 && order[0] == s && e !in order
    requires SameWalls(before, Prepare(before, s)) && SameWalls(before, g)
    requires forall p :: InBounds(p) ==> At(g, p).typ == RunType(before, s, e, order, [], p)
    requires forall w {:trigger WalkFrom(Prepare(before, s), s, w)} ::
      WalkFrom(Prepare(before, s), s, w) ==> Last(w) in order
    requires SettledShortest(before, s, g, order)
    ensures RunOutcome(before, s, e, g, order, [])
  {
    TrappedUnreachable(before, s, e, order);
    SameWallsSameWalks(before, Prepare(before, s));
    assert Covered(before, s, order, []) by {
      forall w | WalkFrom(before, s, w) ensures Last(w) in order {
        assert WalkFrom(Prepare(before, s), s, w);
      }
    }
  }

  /** A run keeps the start and end nodes where they were. */
  lemma OutcomeMarkers(before: Board, s: Pos, e: Pos, after: Board, order: seq<Pos>, path: seq<Pos>)
    requires Shaped(before) && Markers(before, s, e) && RunOutcome(before, s, e, after, order, path)
    ensures Markers(after, s, e)
  {
    assert At(after, s).typ == RunType(before, s, e, order, path, s);
    assert At(after, e).typ == RunType(before, s, e, order, path, e);
  }

  /**
   * One run of `visualizeDijkstra`: the grid `before` it started from with the
   * markers `start` and `end`, the grid `after` it left, the settled nodes
   * `order`, the nodes `visited` shown turning visited, the reconstructed
   * `path` (empty when the end is not reached) and the nodes `marked` shown
   * turning into path nodes.
   */
  datatype RunRecord = RunRecord(before: Board, start: Pos, end: Pos, after: Board,
                                 order: seq<Pos>, visited: seq<Pos>, path: seq<Pos>, marked: seq<Pos>)

  /**
   * What a run promises: its `RunOutcome`, the markers kept in place, the
   * visited nodes shown being the settled nodes that were empty once cleared,
   * in settling order, and the marked nodes the intermediate nodes of the path.
   */
  ghost predicate Completed(r: RunRecord) {
    && Shaped(r.before)
    && RunOutcome(r.before, r.start, r.end, r.after, r.order, r.path)
    && Markers(r.after, r.start, r.end)
    && InBounds(r.start) && r.visited == NewlyVisited(Prepare(r.before, r.start), r.order)
    && r.marked == if r.path == [] then [] else r.path[1..|r.path| - 1]
  }

  /**
   * The visited frames of a completed run show every node that was empty once
   * cleared and that a walk from the start reaches with fewer nodes than the
   * path (with any number of nodes when there is no path), and only settled
   * nodes that were empty once cleared.
   */
  lemma VisitedCoverage(r: RunRecord)
    requires Completed(r)
    ensures forall w {:trigger WalkFrom(r.before, r.start, w)} ::
      (WalkFrom(r.before, r.start, w) && (r.path == [] || |w| < |r.path|) &&
       ClearedType(At(r.before, Last(w)).typ) == Empty) ==> Last(w) in r.visited
    ensures forall p :: p in r.visited <==> p in r.order && ClearedType(At(r.before, p).typ) == Empty
  {
    var g0 := Prepare(r.before, r.start);
    NewlyVisitedMembers(g0, r.order);
    forall p | p in r.order ensures At(g0, p).typ == ClearedType(At(r.before, p).typ) {
    }
  }

  /** The animation frames of a run, in the order they are shown: all visited frames, then the path frames. */
  function Frames(r: RunRecord): (f: seq<Frame>)
    ensures |f| == |r.visited| + |r.marked|
    ensures forall i :: 0 <= i < |f| ==> (f[i].VisitFrame? <==> i < |r.visited|)
    ensures forall i :: 0 <= i < |f| ==> f[i].at == if i < |r.visited| then r.visited[i] else r.marked[i - |r.visited|]
  {
    VisitFrames(r.visited) + PathFrames(r.marked)
  }

  /**
   * A run of `visualizeDijkstra` on the grid value `before`: clearing, the
   * search loop, and `animatePath` when the end is reached. `pathLength` is the
   * displayed path length after the run, `pathLength0` when no node is marked.
   */
  method Run(before: Board, s: Pos, e: Pos, pathLength0: nat) returns (run: RunRecord, pathLength: nat)
    requires Shaped(before) && Markers(before, s, e)
    ensures Completed(run) && (run.before, run.start, run.end) == (before, s, e)
    ensures pathLength == if |run.path| > 2 then |run.path| - 2 else pathLength0
  {
    PrepareIsPrepared(before, s, e);
    var g0 := Prepare(before, s);
    var g, order, visited, reached := Search(g0, s, e);
    SearchKeepsWalls(before, s, e, g, order, visited);
    SettledNotWall(g0, s, e, g, order, visited);
    RunSettledShortest(before, s, g, order);
    var after, path, marked;
    if reached {
      after, path, marked, pathLength := AnimatePath(g, s, e, pathLength0);
      ReachedOutcome(before, s, e, g, order, after, path);
    } else {
      TrappedOutcome(before, s, e, g, order);
      after, path, marked, pathLength := g, [], [], pathLength0;
    }
    OutcomeMarkers(before, s, e, after, order, path);
    run := RunRecord(before, s, e, after, order, visited, path, marked);
  }

  class Visualizer {
    var grid: Board
    var isRunning: bool
    var mouseIsPressed: bool
    var tool: Tool
    var startNode: Pos
    var endNode: Pos
    var visitedCount: nat
    var pathLength: nat

    /** The grid has its shape, with the start and end nodes where `startNode` and `endNode` say. */
    ghost predicate Valid()
      reads this
    {
      Shaped(grid) && Markers(grid, startNode, endNode)
    }

    /** The initial state, with the grid built by `resetGrid` on mount. */
    constructor ()
      ensures Valid()
      ensures grid == FreshGrid(Pos(7, 4), Pos(7, 20))
      ensures startNode == Pos(7, 4) && endNode == Pos(7, 20)
      ensures !isRunning && !mouseIsPressed && tool == WallTool
      ensures visitedCount == 0 && pathLength == 0
    {
      grid := [];
      isRunning, mouseIsPressed, tool := false, false, WallTool;
      startNode, endNode := Pos(7, 4), Pos(7, 20);
      visitedCount, pathLength := 0, 0;
      new;
      ResetGrid();
    }

    /**
     * `resetGrid`: a fresh grid for the current markers, the counters at zero
     * and no run in progress. The new state depends only on what the call
     * leaves unchanged, so a second call changes nothing more.
     */
    method ResetGrid()
      requires InBounds(startNode) && InBounds(endNode) && startNode != endNode
      modifies this
      ensures Valid()
      ensures grid == FreshGrid(startNode, endNode)
      ensures visitedCount == 0 && pathLength == 0 && !isRunning
      ensures startNode == old(startNode) && endNode == old(endNode)
      ensures tool == old(tool) && mouseIsPressed == old(mouseIsPressed)
    {
      ghost var built := FreshGrid(startNode, endNode);
      var newGrid: Board := [];
      for row := 0 to ROWS
        invariant newGrid == built[..row]
      {
        var currentRow: seq<Node> := [];
        for col := 0 to COLS
          invariant currentRow == built[row][..col]
        {
          var typ := Empty;
          if row == startNode.row && col == startNode.col {
            typ := Start;
          } else if row == endNode.row && col == endNode.col {
            typ := End;
          }
          assert built[row][col] == At(built, Pos(row, col));
          currentRow := currentRow + [Node(row, col, typ, Inf, None)];
        }
        assert currentRow == built[row];
        newGrid := newGrid + [currentRow];
      }
      assert newGrid == built;
      grid := newGrid;
      visitedCount, pathLength, isRunning := 0, 0, false;
      FreshGridMarkers(startNode, endNode);
    }

    /** `toggleWall` at `(row, col)`: the grid becomes `Toggled`, nothing else changes. */
    method ToggleWall(row: nat, col: nat)
      requires Valid() && InBounds(Pos(row, col))
      modifies this
      ensures Valid()
      ensures grid == Toggled(old(grid), Pos(row, col))
      ensures isRunning == old(isRunning) && mouseIsPressed == old(mouseIsPressed) && tool == old(tool)
      ensures startNode == old(startNode) && endNode == old(endNode)
      ensures visitedCount == old(visitedCount) && pathLength == old(pathLength)
    {
      var p := Pos(row, col);
      ToggleKeepsMarkers(grid, startNode, endNode, p);
      grid := Toggled(grid, p);
    }

    /**
     * `handleMouseDown` on the node at `(row, col)`: nothing while a run is in
     * progress or on a marker's node; with the start or end tool, that marker
     * moves there, its old node turning empty and the target overwritten; with
     * the wall tool, the node's wall is toggled and the mouse counts as pressed.
     */
    method HandleMouseDown(row: nat, col: nat)
      requires Valid() && InBounds(Pos(row, col))
      modifies this
      ensures Valid()
      ensures old(isRunning) || Pos(row, col) == old(startNode) || Pos(row, col) == old(endNode) ==>
        unchanged(this)
      ensures !old(isRunning) && Pos(row, col) != old(startNode) && Pos(row, col) != old(endNode) ==>
        match old(tool)
        case StartTool =>
          && grid == MovedMarker(old(grid), old(startNode), Pos(row, col), Start)
          && startNode == Pos(row, col) && endNode == old(endNode) && mouseIsPressed == old(mouseIsPressed)
        case EndTool =>
          && grid == MovedMarker(old(grid), old(endNode), Pos(row, col), End)
          && startNode == old(startNode) && endNode == Pos(row, col) && mouseIsPressed == old(mouseIsPressed)
        case WallTool =>
          && grid == Toggled(old(grid), Pos(row, col))
          && startNode == old(startNode) && endNode == old(endNode) && mouseIsPressed
      ensures isRunning == old(isRunning) && tool == old(tool)
      ensures visitedCount == old(visitedCount) && pathLength == old(pathLength)
    {
      if isRunning {
        return;
      }
      var p := Pos(row, col);
      if p == startNode || p == endNode {
        return;
      }
      if tool == StartTool {
        MoveStartKeepsMarkers(grid, startNode, endNode, p);
        grid := MovedMarker(grid, startNode, p, Start);
        startNode := p;
      } else if tool == EndTool {
        MoveEndKeepsMarkers(grid, startNode, endNode, p);
        grid := MovedMarker(grid, endNode, p, End);
        endNode := p;
      } else {
        ToggleWall(row, col);
        mouseIsPressed := true;
      }
    }

    /** `handleMouseEnter`: drag-painting toggles a wall only with the mouse pressed, no run and the wall tool. */
    method HandleMouseEnter(row: nat, col: nat)
      requires Valid() && InBounds(Pos(row, col))
      modifies this
      ensures Valid()
      ensures !old(mouseIsPressed) || old(isRunning) || old(tool) != WallTool ==> unchanged(this)
      ensures old(mouseIsPressed) && !old(isRunning) && old(tool) == WallTool ==>
        grid == Toggled(old(grid), Pos(row, col))
      ensures isRunning == old(isRunning) && mouseIsPressed == old(mouseIsPressed) && tool == old(tool)
      ensures startNode == old(startNode) && endNode == old(endNode)
      ensures visitedCount == old(visitedCount) && pathLength == old(pathLength)
    {
      if !mouseIsPressed || isRunning {
        return;
      }
      if tool == WallTool {
        ToggleWall(row, col);
      }
    }

    /** `handleMouseUp` (also on leaving the grid): only the pressed flag is cleared. */
    method HandleMouseUp()
      requires Valid()
      modifies this
      ensures Valid()
      ensures !mouseIsPressed
      ensures grid == old(grid) && isRunning == old(isRunning) && tool == old(tool)
      ensures startNode == old(startNode) && endNode == old(endNode)
      ensures visitedCount == old(visitedCount) && pathLength == old(pathLength)
    {
      mouseIsPressed := false;
    }

    /** A toolbar button: only the tool changes. */
    method SetTool(t: Tool)
      requires Valid()
      modifies this
      ensures Valid()
      ensures tool == t
      ensures grid == old(grid) && isRunning == old(isRunning) && mouseIsPressed == old(mouseIsPressed)
      ensures startNode == old(startNode) && endNode == old(endNode)
      ensures visitedCount == old(visitedCount) && pathLength == old(pathLength)
    {
      tool := t;
    }

    /**
     * `visualizeDijkstra`, with `animatePath` when the end is reached, as one
     * call: nothing while a run is in progress; otherwise `run` is a completed
     * run from the current grid and markers, the grid becomes the one it left,
     * `frames` are its animation frames in the order they are shown, and the
     * counters move with them: one visited count per visited frame, the path
     * length set by the last path frame. The flag is set for the run and
     * cleared at its end.
     */
    method VisualizeDijkstra() returns (frames: seq<Frame>, run: RunRecord)
      requires Valid()
      modifies this
      ensures Valid()
      ensures old(isRunning) ==> unchanged(this) && frames == []
      ensures !old(isRunning) ==> Completed(run) && (run.before, run.start, run.end) == (old(grid), old(startNode), old(endNode))
      ensures !old(isRunning) ==> frames == Frames(run)
      ensures !old(isRunning) ==> (grid, startNode, endNode) == (run.after, old(startNode), old(endNode))
      ensures !old(isRunning) ==> (isRunning, mouseIsPressed, tool) == (false, old(mouseIsPressed), old(tool))
      ensures !old(isRunning) ==> visitedCount == old(visitedCount) + |run.visited|
      ensures !old(isRunning) ==> pathLength == if |run.path| > 2 then |run.path| - 2 else old(pathLength)
    {
      if isRunning {
        frames, run := [], RunRecord(grid, startNode, endNode, grid, [], [], [], []);
        return;
      }
      isRunning := true;
      var pl;
      run, pl := Run(grid, startNode, endNode, pathLength);
      frames := Frames(run);
      Finish(run.after, |run.visited|, pl);
    }

    /** The end of a run: the grid it left, the visited counter moved by `visited`, the path length `pl`, no run in progress. */
    method Finish(after: Board, visited: nat, pl: nat)
      requires Shaped(after) && Markers(after, startNode, endNode)
      modifies this
      ensures Valid()
      ensures (grid, startNode, endNode) == (after, old(startNode), old(endNode))
      ensures (isRunning, mouseIsPressed, tool) == (false, old(mouseIsPressed), old(tool))
      ensures visitedCount == old(visitedCount) + visited
      ensures pathLength == pl
    {
      grid, pathLength, visitedCount, isRunning := after, pl, visitedCount + visited, false;
    }
  }
}

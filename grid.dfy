/**
 * The grid of the pathfinding visualizer: node types, distances, positions and
 * the board of ROWS x COLS nodes, with the predicates the other modules share.
 *
 * A source `Node` is an object that the grid, the worklist of the search and the
 * predecessor links all refer to. Here a reference to a node is its position
 * `Pos(row, col)`; the board holds node values, and `Shaped` says that the node
 * stored at a position carries that position in its `row` and `col` fields.
 */
module Grid {

  const ROWS: nat := 15
  const COLS: nat := 25

  datatype Option<T> = None | Some(value: T)

  datatype NodeType = Empty | Wall | Start | End | Path | Visited

  /** A distance that may be infinite (the source's `Infinity`). */
  datatype Dist = Inf | Fin(n: nat)

  datatype Pos = Pos(row: nat, col: nat)

  /** `previous` is the source's `previousNode`; `None` is `null`. */
  datatype Node = Node(row: nat, col: nat, typ: NodeType, distance: Dist, previous: Option<Pos>)

  type Board = seq<seq<Node>>

  predicate InBounds(p: Pos) {
    p.row < ROWS && p.col < COLS
  }

  /** ROWS rows of COLS nodes each, every node knowing its own position. */
  ghost predicate Shaped(g: Board) {
    && |g| == ROWS
    && (forall r :: 0 <= r < ROWS ==> |g[r]| == COLS)
    && (forall p: Pos {:trigger g[p.row][p.col]} :: InBounds(p) ==> g[p.row][p.col].row == p.row && g[p.row][p.col].col == p.col)
  }

  /** The node at position `p` (the source's `grid[row][col]`). */
  function At(g: Board, p: Pos): Node
    requires Shaped(g) && InBounds(p)
  {
    g[p.row][p.col]
  }

  /** The board with the node at `p` replaced; every other node is the same. */
  function Update(g: Board, p: Pos, n: Node): (r: Board)
    requires Shaped(g) && InBounds(p) && n.row == p.row && n.col == p.col
    ensures Shaped(r)
    ensures forall q {:trigger At(r, q)} :: InBounds(q) ==> At(r, q) == if q == p then n else At(g, q)
  {
    g[p.row := g[p.row][p.col := n]]
  }

  /** The board with only the type of the node at `p` changed. */
  function SetType(g: Board, p: Pos, t: NodeType): (r: Board)
    requires Shaped(g) && InBounds(p)
    ensures Shaped(r)
    ensures forall q {:trigger At(r, q)} :: InBounds(q) ==> At(r, q) == if q == p then At(g, p).(typ := t) else At(g, q)
  {
    Update(g, p, At(g, p).(typ := t))
  }

  /**
   * The marker invariant: `s` and `e` are distinct in-bounds positions, the node
   * at `s` is the only `Start` node and the node at `e` the only `End` node.
   */
  ghost predicate Markers(g: Board, s: Pos, e: Pos)
    requires Shaped(g)
  {
    && InBounds(s) && InBounds(e) && s != e
    && At(g, s).typ == Start && At(g, e).typ == End
    && forall p :: InBounds(p) && p != s && p != e ==> At(g, p).typ != Start && At(g, p).typ != End
  }

  /** Orthogonal neighbours on the grid. */
  predicate Adjacent(p: Pos, q: Pos) {
    || (p.row == q.row && (p.col + 1 == q.col || q.col + 1 == p.col))
    || (p.col == q.col && (p.row + 1 == q.row || q.row + 1 == p.row))
  }

  /**
   * A walk: a non-empty sequence of in-bounds, non-wall nodes, each orthogonally
   * adjacent to the next. A walk of |w| nodes takes |w| - 1 unit steps.
   */
  ghost predicate IsWalk(g: Board, w: seq<Pos>)
    requires Shaped(g)
  {
    && |w| > 0
    && (forall i :: 0 <= i < |w| ==> InBounds(w[i]) && At(g, w[i]).typ != Wall)
    && (forall i, j :: 0 <= i && j == i + 1 && j < |w| ==> Adjacent(w[i], w[j]))
  }

  function Last(w: seq<Pos>): Pos
    requires |w| > 0
  {
    w[|w| - 1]
  }

  /** A walk that starts at `s`. */
  ghost predicate WalkFrom(g: Board, s: Pos, w: seq<Pos>)
    requires Shaped(g)
  {
    IsWalk(g, w) && w[0] == s
  }

  /** The order of the source's numeric comparison on distances, `Infinity` last. */
  predicate DistLe(a: Dist, b: Dist) {
    match (a, b)
    case (_, Inf) => true
    case (Inf, Fin(_)) => false
    case (Fin(x), Fin(y)) => x <= y
  }

  /** One more than `d`; infinity stays infinite. */
  function Succ(d: Dist): Dist {
    match d
    case Inf => Inf
    case Fin(n) => Fin(n + 1)
  }

  predicate AllIn(l: seq<Pos>) {
    forall p :: p in l ==> InBounds(p)
  }

  predicate NoDup(l: seq<Pos>) {
    forall i, j :: 0 <= i < j < |l| ==> l[i] != l[j]
  }
}

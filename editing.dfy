/**
 * The board-level effect of the editing handlers: the freshly built grid of
 * `resetGrid`, the wall toggle of `toggleWall` and the marker move of
 * `handleMouseDown`. The class in visualizer.dfy applies these to its state.
 */
module Editing {
  import opened Grid

  /** The type `resetGrid` gives the node at `p`: the start wins over the end. */
  function FreshType(p: Pos, s: Pos, e: Pos): NodeType {
    if p == s then Start else if p == e then End else Empty
  }

  /** The grid `resetGrid` builds for markers at `s` and `e`. */
  function FreshGrid(s: Pos, e: Pos): (g: Board)
    ensures Shaped(g)
    ensures forall p :: InBounds(p) ==> At(g, p) == Node(p.row, p.col, FreshType(p, s, e), Inf, None)
  {
    seq(ROWS, r requires 0 <= r < ROWS =>
      seq(COLS, c requires 0 <= c < COLS => Node(r, c, FreshType(Pos(r, c), s, e), Inf, None)))
  }

  /**
   * The fresh grid has exactly one start node, at `s`, exactly one end node, at
   * `e`, and every other node is empty, at infinite distance, without predecessor.
   */
  lemma FreshGridMarkers(s: Pos, e: Pos)
    requires InBounds(s) && InBounds(e) && s != e
    ensures Markers(FreshGrid(s, e), s, e)
    ensures forall p :: InBounds(p) && p != s && p != e ==> At(FreshGrid(s, e), p).typ == Empty
    ensures forall p :: InBounds(p) ==> At(FreshGrid(s, e), p).distance == Inf && At(FreshGrid(s, e), p).previous == None
  {
  }

  /** The type `toggleWall` gives a node of type `t`. */
  function ToggledType(t: NodeType): (r: NodeType)
    ensures t == Start || t == End ==> r == t
    ensures t == Wall ==> r == Empty
    ensures t != Start && t != End && t != Wall ==> r == Wall
  {
    if t == Start || t == End then t else if t == Wall then Empty else Wall
  }

  /** The grid after `toggleWall` at `p`: only the type of that node may change. */
  function Toggled(g: Board, p: Pos): (r: Board)
    requires Shaped(g) && InBounds(p)
    ensures Shaped(r)
    ensures At(r, p) == At(g, p).(typ := ToggledType(At(g, p).typ))
    ensures forall q {:trigger At(r, q)} :: InBounds(q) && q != p ==> At(r, q) == At(g, q)
  {
    if At(g, p).typ == Start || At(g, p).typ == End then g
    else SetType(g, p, ToggledType(At(g, p).typ))
  }

  /**
   * Toggling turns a wall into an empty node and any other node that is not a
   * marker into a wall; a start or end node and every other node stay as they were.
   */
  lemma ToggledEffect(g: Board, p: Pos)
    requires Shaped(g) && InBounds(p)
    ensures At(g, p).typ == Wall ==> At(Toggled(g, p), p).typ == Empty
    ensures At(g, p).typ in {Empty, Visited, Path} ==> At(Toggled(g, p), p).typ == Wall
    ensures At(g, p).typ in {Start, End} ==> Toggled(g, p) == g
    ensures At(Toggled(g, p), p) == At(g, p).(typ := At(Toggled(g, p), p).typ)
    ensures forall q :: InBounds(q) && q != p ==> At(Toggled(g, p), q) == At(g, q)
  {
  }

  /** Toggling an empty node or a wall twice gives back the same grid. */
  lemma ToggleTwice(g: Board, p: Pos)
    requires Shaped(g) && InBounds(p)
    requires At(g, p).typ == Empty || At(g, p).typ == Wall
    ensures Toggled(Toggled(g, p), p) == g
  {
    var r := Toggled(Toggled(g, p), p);
    assert forall q :: InBounds(q) ==> At(r, q) == At(g, q);
    BoardsEqual(r, g);
  }

  /** Toggling keeps the marker invariant. */
  lemma ToggleKeepsMarkers(g: Board, s: Pos, e: Pos, p: Pos)
    requires Shaped(g) && Markers(g, s, e) && InBounds(p)
    ensures Markers(Toggled(g, p), s, e)
  {
  }

  /**
   * The grid after `handleMouseDown` with the start or end tool: the marker's old
   * node `from` becomes empty, then the node at `to` takes the marker type `t`,
   * whatever it was before (a wall included).
   */
  function MovedMarker(g: Board, from: Pos, to: Pos, t: NodeType): (r: Board)
    requires Shaped(g) && InBounds(from) && InBounds(to)
    ensures Shaped(r)
    ensures At(r, to) == At(g, to).(typ := t)
    ensures from != to ==> At(r, from) == At(g, from).(typ := Empty)
    ensures forall q {:trigger At(r, q)} :: InBounds(q) && q != from && q != to ==> At(r, q) == At(g, q)
  {
    SetType(SetType(g, from, Empty), to, t)
  }

  /**
   * Moving the start from `s` to a node `p` that holds neither marker leaves
   * exactly one start node, at `p`, the end at `e`, turns `s` empty and changes
   * nothing else; in particular a wall at `p` is overwritten.
   */
  lemma MoveStartKeepsMarkers(g: Board, s: Pos, e: Pos, p: Pos)
    requires Shaped(g) && Markers(g, s, e) && InBounds(p) && p != s && p != e
    ensures Markers(MovedMarker(g, s, p, Start), p, e)
    ensures At(MovedMarker(g, s, p, Start), s).typ == Empty
    ensures forall q :: InBounds(q) && q != s && q != p ==> At(MovedMarker(g, s, p, Start), q) == At(g, q)
  {
  }

  /** Moving the end from `e` to `p` is the mirror image of moving the start. */
  lemma MoveEndKeepsMarkers(g: Board, s: Pos, e: Pos, p: Pos)
    requires Shaped(g) && Markers(g, s, e) && InBounds(p) && p != s && p != e
    ensures Markers(MovedMarker(g, e, p, End), s, p)
    ensures At(MovedMarker(g, e, p, End), e).typ == Empty
    ensures forall q :: InBounds(q) && q != e && q != p ==> At(MovedMarker(g, e, p, End), q) == At(g, q)
  {
  }

  /** Two shaped boards that agree at every position are equal. */
  lemma BoardsEqual(a: Board, b: Board)
    requires Shaped(a) && Shaped(b)
    requires forall q :: InBounds(q) ==> At(a, q) == At(b, q)
    ensures a == b
  {
    forall r | 0 <= r < ROWS
      ensures a[r] == b[r]
    {
      forall c | 0 <= c < COLS
        ensures a[r][c] == b[r][c]
      {
        assert At(a, Pos(r, c)) == At(b, Pos(r, c));
      }
    }
  }
}

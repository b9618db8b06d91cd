/**
 * `getUnvisitedNeighbors` and `updateUnvisitedNeighbors`: the orthogonal
 * neighbours a settled node relaxes, and the relaxation itself.
 */
module Neighbors {
  import opened Grid

  /** Rank of the direction from `h` to an adjacent `q`: up 0, down 1, left 2, right 3. */
  function Direction(h: Pos, q: Pos): nat {
    if q.row + 1 == h.row then 0
    else if q.row == h.row + 1 then 1
    else if q.col + 1 == h.col then 2
    else 3
  }

  /** Strictly increasing direction from `h`: up before down before left before right. */
  predicate InDirectionOrder(h: Pos, l: seq<Pos>) {
    forall i, j :: 0 <= i < j < |l| ==> Direction(h, l[i]) < Direction(h, l[j])
  }

  /** A neighbour the search may relax: not visited, not a wall and not the start. */
  predicate Unvisited(t: NodeType) {
    t != Visited && t != Wall && t != Start
  }

  /** The in-bounds orthogonal neighbours of `h`, pushed up, down, left, right. */
  function Candidates(h: Pos): (c: seq<Pos>)
    requires InBounds(h)
    ensures forall q {:trigger q in c} :: q in c <==> InBounds(q) && Adjacent(h, q)
    ensures InDirectionOrder(h, c)
  {
    (if h.row > 0 then [Pos(h.row - 1, h.col)] else [])
    + (if h.row < ROWS - 1 then [Pos(h.row + 1, h.col)] else [])
    + (if h.col > 0 then [Pos(h.row, h.col - 1)] else [])
    + (if h.col < COLS - 1 then [Pos(h.row, h.col + 1)] else [])
  }

  /** The `filter` of the source: the elements of `l` whose node is `Unvisited`, in order. */
  function KeepUnvisited(g: Board, l: seq<Pos>): (r: seq<Pos>)
    requires Shaped(g) && AllIn(l)
    ensures AllIn(r)
    ensures forall q {:trigger q in r} :: q in r <==> q in l && Unvisited(At(g, q).typ)
  {
    if l == [] then []
    else (if Unvisited(At(g, l[0]).typ) then [l[0]] else []) + KeepUnvisited(g, l[1..])
  }

  /** Filtering keeps the direction order. */
  lemma {:induction false} KeepUnvisitedOrder(g: Board, h: Pos, l: seq<Pos>)
    requires Shaped(g) && AllIn(l) && InDirectionOrder(h, l)
    ensures InDirectionOrder(h, KeepUnvisited(g, l))
  {
    if l != [] {
      var rest := KeepUnvisited(g, l[1..]);
      assert InDirectionOrder(h, l[1..]);
      KeepUnvisitedOrder(g, h, l[1..]);
      forall q | q in rest ensures Direction(h, l[0]) < Direction(h, q) {
        var j :| 0 <= j < |l[1..]| && l[1..][j] == q;
        assert l[j + 1] == q;
      }
    }
  }

  /**
   * `getUnvisitedNeighbors`: exactly the in-bounds orthogonal neighbours of `h`
   * that are neither visited, nor a wall, nor the start, in the order up, down,
   * left, right (so none twice).
   */
  function GetUnvisitedNeighbors(h: Pos, g: Board): (r: seq<Pos>)
    requires Shaped(g) && InBounds(h)
    ensures AllIn(r) && NoDup(r)
    ensures forall q {:trigger q in r} :: q in r <==> InBounds(q) && Adjacent(h, q) && Unvisited(At(g, q).typ)
    ensures InDirectionOrder(h, r)
  {
    KeepUnvisitedOrder(g, h, Candidates(h));
    KeepUnvisited(g, Candidates(h))
  }

  /**
   * `r` is `g` after relaxing from `h`: every unvisited neighbour of `h` gets the
   * distance of `h` plus one and `h` as predecessor, unconditionally; no other
   * node changes, and no type changes.
   */
  ghost predicate RelaxedFrom(g: Board, h: Pos, r: Board)
    requires Shaped(g) && InBounds(h) && At(g, h).distance.Fin?
  {
    && Shaped(r)
    && forall p {:trigger At(r, p)} :: InBounds(p) ==>
         At(r, p) == if Adjacent(h, p) && Unvisited(At(g, p).typ)
                     then At(g, p).(distance := Fin(At(g, h).distance.n + 1), previous := Some(h))
                     else At(g, p)
  }

  /** `g` with the neighbours in `done` relaxed from `h` at distance `d`. */
  ghost predicate RelaxedSome(g: Board, h: Pos, d: nat, done: set<Pos>, r: Board)
    requires Shaped(g)
  {
    && Shaped(r)
    && forall p {:trigger At(r, p)} :: InBounds(p) ==>
         At(r, p) == if p in done then At(g, p).(distance := Fin(d + 1), previous := Some(h)) else At(g, p)
  }

  lemma RelaxOne(g: Board, h: Pos, d: nat, done: set<Pos>, r: Board, q: Pos)
    requires Shaped(g) && RelaxedSome(g, h, d, done, r) && InBounds(q) && q !in done
    ensures RelaxedSome(g, h, d, done + {q}, Update(r, q, At(r, q).(distance := Fin(d + 1), previous := Some(h))))
  {
    var r' := Update(r, q, At(r, q).(distance := Fin(d + 1), previous := Some(h)));
    forall p | InBounds(p)
      ensures At(r', p) == if p in done + {q} then At(g, p).(distance := Fin(d + 1), previous := Some(h)) else At(g, p)
    {
      if p != q {
        assert At(r', p) == At(r, p);
      }
    }
  }

  /** Once `done` holds exactly the unvisited neighbours of `h`, all of them are relaxed. */
  lemma AllRelaxed(g: Board, h: Pos, done: set<Pos>, r: Board)
    requires Shaped(g) && InBounds(h) && At(g, h).distance.Fin?
    requires RelaxedSome(g, h, At(g, h).distance.n, done, r)
    requires forall p :: p in done <==> p in GetUnvisitedNeighbors(h, g)
    ensures RelaxedFrom(g, h, r)
  {
  }

  /** `updateUnvisitedNeighbors` on the grid value `g`, for a node `h` at a finite distance. */
  method UpdateUnvisitedNeighbors(h: Pos, g: Board) returns (r: Board)
    requires Shaped(g) && InBounds(h) && At(g, h).distance.Fin?
    ensures RelaxedFrom(g, h, r)
  {
    var neighbors := GetUnvisitedNeighbors(h, g);
    var d := At(g, h).distance.n;
    r := g;
    ghost var done: set<Pos> := {};
    for i := 0 to |neighbors|
      invariant RelaxedSome(g, h, d, done, r)
      invariant forall p :: p in done <==> exists j :: 0 <= j < i && neighbors[j] == p
      invariant forall j :: i <= j < |neighbors| ==> neighbors[j] !in done
    {
      var q := neighbors[i];
      RelaxOne(g, h, d, done, r, q);
      r := Update(r, q, At(r, q).(distance := Fin(d + 1), previous := Some(h)));
      done := done + {q};
    }
    AllRelaxed(g, h, done, r);
  }
}

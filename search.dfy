/**
 * The search loop of `visualizeDijkstra`: clearing the grid, then repeatedly
 * sorting the worklist by distance, taking its head, settling it and relaxing
 * its neighbours, until the head is at infinite distance or is the end node.
 */
module Dijkstra {
  import opened Grid
  import opened Worklist
  import opened Neighbors

  /** The types a settled node has: the search turns empty into visited and keeps the start. */
  predicate Settled(t: NodeType) {
    t == Visited || t == Start
  }

  /** The type the clearing step gives a node of type `t`. */
  function ClearedType(t: NodeType): (r: NodeType)
    ensures r != Visited && r != Path
    ensures t != Visited && t != Path ==> r == t
    ensures r == Empty <==> t == Empty || t == Visited || t == Path
  {
    if t == Visited || t == Path then Empty else t
  }

  /**
   * The clearing step of `visualizeDijkstra`: every node keeps its position,
   * visited and path nodes become empty, every other type is kept, and all
   * distances become infinite and all predecessors null.
   */
  function Cleared(g: Board): (r: Board)
    requires Shaped(g)
    ensures Shaped(r)
    ensures forall p {:trigger At(r, p)} :: InBounds(p) ==>
      At(r, p) == At(g, p).(typ := ClearedType(At(g, p).typ), distance := Inf, previous := None)
  {
    seq(|g|, i requires 0 <= i < |g| =>
      seq(|g[i]|, j requires 0 <= j < |g[i]| =>
        g[i][j].(typ := ClearedType(g[i][j].typ), distance := Inf, previous := None)))
  }

  /** The cleared grid with the start node at distance 0: where the loop begins. */
  function Prepare(g: Board, s: Pos): (r: Board)
    requires Shaped(g) && InBounds(s)
    ensures Shaped(r)
    ensures forall p {:trigger At(r, p)} :: InBounds(p) ==>
      && At(r, p).typ == ClearedType(At(g, p).typ) && At(r, p).previous == None
      && At(r, p).distance == if p == s then Fin(0) else Inf
  {
    var c := Cleared(g);
    Update(c, s, At(c, s).(distance := Fin(0)))
  }

  /**
   * The state the loop starts from: the markers in place, no visited or path
   * node, every predecessor null, and every distance infinite except the start's, 0.
   */
  ghost predicate Prepared(g: Board, s: Pos, e: Pos) {
    && Shaped(g) && Markers(g, s, e)
    && forall p :: InBounds(p) ==>
         && At(g, p).typ != Visited && At(g, p).typ != Path
         && At(g, p).previous == None
         && At(g, p).distance == (if p == s then Fin(0) else Inf)
  }

  /**
   * Clearing a grid that satisfies the marker invariant and setting the start's
   * distance to 0 gives a prepared grid with the same walls and markers.
   */
  lemma PrepareIsPrepared(g: Board, s: Pos, e: Pos)
    requires Shaped(g) && Markers(g, s, e)
    ensures Prepared(Prepare(g, s), s, e)
    ensures forall p :: InBounds(p) ==> At(Prepare(g, s), p).typ == ClearedType(At(g, p).typ)
  {
    var c := Cleared(g);
    assert forall p :: InBounds(p) ==> At(Prepare(g, s), p).typ == At(c, p).typ;
  }

  /**
   * The predecessor of a node at finite distance n > 0 is an in-bounds,
   * orthogonally adjacent, settled node at distance n - 1.
   */
  ghost predicate PrevOk(g: Board, p: Pos)
    requires Shaped(g) && InBounds(p) && At(g, p).distance.Fin?
  {
    var n := At(g, p).distance.n;
    && n > 0
    && At(g, p).previous.Some?
    && var q := At(g, p).previous.value;
       InBounds(q) && Adjacent(p, q) && At(g, q).distance == Fin(n - 1) && Settled(At(g, q).typ)
  }

  /**
   * The predecessor links are well formed: the start is at distance 0 with a
   * null predecessor, and every other node at a finite distance has a good
   * predecessor. Following predecessors from any such node thus reaches the
   * start in exactly its distance many steps.
   */
  ghost predicate ChainOk(g: Board, s: Pos)
    requires Shaped(g) && InBounds(s)
  {
    && At(g, s).distance == Fin(0) && At(g, s).previous == None
    && forall p :: InBounds(p) && p != s && At(g, p).distance.Fin? ==> PrevOk(g, p)
  }

  /** The type the search gives the node at `p` once the nodes in `order` are settled. */
  function TypeAfter(g0: Board, order: seq<Pos>, p: Pos): NodeType
    requires Shaped(g0) && InBounds(p)
  {
    if At(g0, p).typ == Empty && p in order then Visited else At(g0, p).typ
  }

  /** The settled nodes of `order` that were empty: those the source animates as visited. */
  function NewlyVisited(g0: Board, order: seq<Pos>): seq<Pos>
    requires Shaped(g0) && AllIn(order)
  {
    if order == [] then []
    else
      var last := order[|order| - 1];
      assert AllIn(order[..|order| - 1]) by {
        forall p | p in order[..|order| - 1] ensures p in order {
          var k :| 0 <= k < |order| - 1 && order[k] == p;
        }
      }
      NewlyVisited(g0, order[..|order| - 1]) + (if At(g0, last).typ == Empty then [last] else [])
  }

  /** The nodes animated as visited are exactly the settled nodes that were empty. */
  lemma {:induction false} NewlyVisitedMembers(g0: Board, order: seq<Pos>)
    requires Shaped(g0) && AllIn(order)
    decreases |order|
    ensures forall p :: p in NewlyVisited(g0, order) <==> p in order && At(g0, p).typ == Empty
  {
    if order != [] {
      var front := order[..|order| - 1];
      assert order == front + [order[|order| - 1]];
      assert AllIn(front);
      NewlyVisitedMembers(g0, front);
    }
  }

  /** Every node settled so far is at a finite distance, and no later node is closer. */
  ghost predicate NonDecreasing(g: Board, order: seq<Pos>)
    requires Shaped(g) && AllIn(order)
  {
    && (forall p :: p in order ==> At(g, p).distance.Fin?)
    && forall i, j :: 0 <= i < j < |order| ==> DistLe(At(g, order[i]).distance, At(g, order[j]).distance)
  }

  /**
   * No walk on `g0` from the start to a node of `order` is shorter than that
   * node's distance in `g`: settled distances are shortest distances.
   */
  ghost predicate LowerBounds(g0: Board, s: Pos, g: Board, order: seq<Pos>)
    requires Shaped(g0) && Shaped(g) && AllIn(order)
  {
    forall w {:trigger WalkFrom(g0, s, w)} :: WalkFrom(g0, s, w) && Last(w) in order ==>
      DistLe(At(g, Last(w)).distance, Fin(|w| - 1))
  }

  /**
   * Facts that hold of the search's grid `g` after settling the nodes of `order`,
   * both inside the loop and when it stops.
   */
  ghost predicate Settlement(g0: Board, s: Pos, e: Pos, g: Board, order: seq<Pos>, frames: seq<Pos>)
    requires Prepared(g0, s, e)
  {
    && Shaped(g) && AllIn(order) && NoDup(order)
    && (|order| > 0 ==> order[0] == s)
    && (forall p :: p in order ==> At(g0, p).typ == Empty || At(g0, p).typ == Start || p == e)
    && (forall p :: InBounds(p) ==> At(g, p).typ == TypeAfter(g0, order, p))
    && (forall p :: InBounds(p) && At(g0, p).typ == Wall ==> At(g, p).distance == Inf)
    && ChainOk(g, s)
    && NonDecreasing(g, order)
    && LowerBounds(g0, s, g, order)
    && frames == NewlyVisited(g0, order)
  }

  /** The colour of `p` on the checkerboard. */
  function Parity(p: Pos): nat {
    (p.row + p.col) % 2
  }

  /** Orthogonal neighbours have opposite colours. */
  lemma AdjacentParity(p: Pos, q: Pos)
    requires Adjacent(p, q)
    ensures Parity(p) != Parity(q)
  {
  }

  /** Every finite distance has the parity of the node's checkerboard distance from the start. */
  ghost predicate ParityOk(g: Board, s: Pos)
    requires Shaped(g)
  {
    forall p :: InBounds(p) && At(g, p).distance.Fin? ==> At(g, p).distance.n % 2 == (Parity(p) + Parity(s)) % 2
  }

  /**
   * Every in-bounds non-wall neighbour `q` of a node `p` of `order` that is not
   * itself in `order` is at most one step further than `p`.
   */
  ghost predicate Frontier(g0: Board, g: Board, order: seq<Pos>)
    requires Shaped(g0) && Shaped(g) && AllIn(order)
  {
    forall p, q :: p in order && InBounds(q) && q !in order && Adjacent(p, q) && At(g0, q).typ != Wall ==>
      DistLe(At(g, q).distance, Succ(At(g, p).distance))
  }

  /** The loop invariant of the search. */
  ghost predicate SearchInv(g0: Board, s: Pos, e: Pos, g: Board, wl: seq<Pos>,
                            order: seq<Pos>, frames: seq<Pos>, floor: nat)
    requires Prepared(g0, s, e)
  {
    && Settlement(g0, s, e, g, order, frames)
    && AllIn(wl) && NoDup(wl)
    && (forall p :: InBounds(p) ==> (p in wl <==> p !in order))
    && e !in order
    && (|order| == 0 ==> g == g0)
    && (forall p :: p in order ==> DistLe(At(g, p).distance, Fin(floor)))
    && (forall p :: p in wl ==> DistLe(Fin(floor), At(g, p).distance))
    && ParityOk(g, s)
    && Frontier(g0, g, order)
    && |frames| + (if |order| > 0 then 1 else 0) == |order|
  }

  /** The type settling gives a node of type `t`: empty becomes visited, the rest is kept. */
  function SettledType(t: NodeType): (r: NodeType)
    ensures t == Empty ==> r == Visited
    ensures t != Empty ==> r == t
  {
    if t == Empty then Visited else t
  }

  /** Without duplicates, the tail of a list holds exactly its elements other than the head. */
  lemma TailMembers(l: seq<Pos>)
    requires NoDup(l) && |l| > 0
    ensures forall p {:trigger p in l[1..]} :: p in l[1..] <==> p in l && p != l[0]
  {
    assert l == [l[0]] + l[1..];
    forall p | p in l[1..] ensures p != l[0] {
      var j :| 0 <= j < |l[1..]| && l[1..][j] == p;
      assert l[j + 1] == p;
    }
  }

  /** A sorted list has its least element first. */
  lemma SortedHead(g: Board, l: seq<Pos>)
    requires Shaped(g) && AllIn(l) && SortedBy(g, l) && |l| > 0
    ensures forall p :: p in l ==> DistLe(Key(g, l[0]), Key(g, p))
  {
    forall p | p in l ensures DistLe(Key(g, l[0]), Key(g, p)) {
      var j :| 0 <= j < |l| && l[j] == p;
      if j == 0 {
        assert p == l[0];
      }
    }
  }

  /** What the loop knows about the head of the sorted worklist. */
  lemma HeadFacts(g0: Board, s: Pos, e: Pos, g: Board, wl: seq<Pos>, order: seq<Pos>, floor: nat, sorted: seq<Pos>)
    requires Prepared(g0, s, e) && Shaped(g) && AllIn(wl) && NoDup(wl) && AllIn(order)
    requires forall p :: InBounds(p) ==> (p in wl <==> p !in order)
    requires |order| > 0 ==> s in order
    requires |order| == 0 ==> g == g0
    requires forall p :: p in wl ==> DistLe(Fin(floor), At(g, p).distance)
    requires |wl| > 0 && sorted == SortByDistance(g, wl)
    ensures |sorted| == |wl| && AllIn(sorted) && NoDup(sorted)
    ensures InBounds(sorted[0]) && sorted[0] !in order
    ensures AllIn(sorted[1..]) && NoDup(sorted[1..])
    ensures forall p :: InBounds(p) ==> (p in sorted[1..] <==> p !in order + [sorted[0]])
    ensures forall p :: InBounds(p) && p !in order ==> DistLe(Key(g, sorted[0]), Key(g, p))
    ensures DistLe(Fin(floor), Key(g, sorted[0]))
    ensures |order| == 0 ==> sorted[0] == s && Key(g, s) == Fin(0)
  {
    assert |sorted| == |wl| by {
      assert |multiset(sorted)| == |multiset(wl)|;
    }
    PermutationNoDup(wl, sorted);
    var h := sorted[0];
    assert h in multiset(wl);
    TailMembers(sorted);
    SortedHead(g, sorted);
    forall p | InBounds(p) ensures p in sorted <==> p in wl {
      assert p in sorted <==> p in multiset(sorted);
    }
    if |order| == 0 {
      assert s in wl;
      assert DistLe(Key(g, h), Key(g, s));
    }
  }

  /** No settled node is a wall. */
  lemma SettledNotWall(g0: Board, s: Pos, e: Pos, g: Board, order: seq<Pos>, frames: seq<Pos>)
    requires Prepared(g0, s, e) && Settlement(g0, s, e, g, order, frames)
    ensures forall p :: p in order ==> At(g, p).typ != Wall
  {
    forall p | p in order ensures At(g, p).typ != Wall {
      assert At(g, p).typ == TypeAfter(g0, order, p);
    }
  }

  /** A walk that starts inside `order` and ends outside it leaves it at some step k. */
  lemma {:induction false} FirstOutside(w: seq<Pos>, order: seq<Pos>) returns (k: nat)
    requires |w| > 0 && w[0] in order && Last(w) !in order
    ensures 0 < k < |w| && w[k - 1] in order && w[k] !in order
  {
    if w[1] !in order {
      k := 1;
    } else {
      var k' := FirstOutside(w[1..], order);
      k := k' + 1;
    }
  }

  /** A non-empty prefix of a walk from `s` is a walk from `s`. */
  lemma WalkPrefix(g: Board, s: Pos, w: seq<Pos>, k: nat)
    requires Shaped(g) && WalkFrom(g, s, w) && 0 < k <= |w|
    ensures WalkFrom(g, s, w[..k]) && Last(w[..k]) == w[k - 1]
  {
  }

  /**
   * A walk from `s` to a node outside `order` has a first step out of `order`,
   * from a node within the lower bounds to a node within the frontier bound.
   */
  lemma LeaveStep(g0: Board, s: Pos, g: Board, order: seq<Pos>, w: seq<Pos>) returns (k: nat)
    requires Shaped(g0) && Shaped(g) && AllIn(order) && s in order
    requires LowerBounds(g0, s, g, order) && Frontier(g0, g, order)
    requires WalkFrom(g0, s, w) && Last(w) !in order
    ensures 0 < k < |w| && w[k] !in order && InBounds(w[k])
    ensures DistLe(At(g, w[k]).distance, Fin(k))
  {
    k := FirstOutside(w, order);
    WalkPrefix(g0, s, w, k);
    assert DistLe(At(g, w[k - 1]).distance, Fin(k - 1));
    assert Adjacent(w[k - 1], w[k]) && At(g0, w[k]).typ != Wall;
    assert DistLe(At(g, w[k]).distance, Succ(At(g, w[k - 1]).distance));
  }

  /**
   * The head `h` of the sorted worklist is no further than any walk from the
   * start to it: a walk to `h` leaves the settled nodes at some first node,
   * which is at most its index away by the bounds so far and the frontier,
   * and `h` is no further than that node.
   */
  lemma HeadLower(g0: Board, s: Pos, g: Board, order: seq<Pos>, h: Pos)
    requires Shaped(g0) && Shaped(g) && AllIn(order) && InBounds(h) && h !in order
    requires LowerBounds(g0, s, g, order) && Frontier(g0, g, order)
    requires |order| > 0 ==> s in order
    requires |order| == 0 ==> h == s && At(g, h).distance == Fin(0)
    requires forall p :: InBounds(p) && p !in order ==> DistLe(At(g, h).distance, At(g, p).distance)
    ensures forall w {:trigger WalkFrom(g0, s, w)} :: WalkFrom(g0, s, w) && Last(w) == h ==>
      DistLe(At(g, h).distance, Fin(|w| - 1))
  {
    forall w | WalkFrom(g0, s, w) && Last(w) == h
      ensures DistLe(At(g, h).distance, Fin(|w| - 1))
    {
      if |order| > 0 {
        var k := LeaveStep(g0, s, g, order, w);
        assert DistLe(At(g, h).distance, At(g, w[k]).distance);
      }
    }
  }

  /** Settling gives the types `TypeAfter` and changes no distance. */
  lemma SettleTypes(g0: Board, s: Pos, e: Pos, g: Board, order: seq<Pos>, h: Pos, g1: Board)
    requires Prepared(g0, s, e) && Shaped(g) && AllIn(order) && InBounds(h) && h !in order
    requires forall p :: InBounds(p) ==> At(g, p).typ == TypeAfter(g0, order, p)
    requires g1 == SetType(g, h, SettledType(At(g, h).typ))
    ensures forall p :: InBounds(p) ==> At(g1, p).typ == TypeAfter(g0, order + [h], p)
    ensures forall p :: InBounds(p) ==> At(g1, p).distance == At(g, p).distance && At(g1, p).previous == At(g, p).previous
  {
    forall p | InBounds(p) ensures At(g1, p).typ == TypeAfter(g0, order + [h], p) {
      if p != h {
        assert At(g1, p) == At(g, p);
      }
    }
  }

  /** Settling `h`, an empty node, the start or the end, keeps the predecessor links well formed. */
  lemma SettleChain(g: Board, s: Pos, h: Pos, g1: Board)
    requires Shaped(g) && InBounds(s) && InBounds(h) && ChainOk(g, s)
    requires At(g, h).typ == Empty || At(g, h).typ == Start || At(g, h).typ == End
    requires g1 == SetType(g, h, SettledType(At(g, h).typ))
    ensures ChainOk(g1, s)
  {
    forall p | InBounds(p) && p != s && At(g1, p).distance.Fin? ensures PrevOk(g1, p) {
      assert PrevOk(g, p);
    }
  }

  /** Settling `h` keeps the order non-decreasing and the lower bounds, given that `h` is the closest unsettled node. */
  lemma SettleBounds(g0: Board, s: Pos, g: Board, order: seq<Pos>, h: Pos, floor: nat, g1: Board)
    requires Shaped(g0) && Shaped(g) && Shaped(g1) && AllIn(order) && InBounds(h) && h !in order
    requires NonDecreasing(g, order) && LowerBounds(g0, s, g, order) && Frontier(g0, g, order)
    requires forall p :: p in order ==> DistLe(At(g, p).distance, Fin(floor))
    requires DistLe(Fin(floor), At(g, h).distance) && At(g, h).distance.Fin?
    requires |order| > 0 ==> s in order
    requires |order| == 0 ==> h == s && At(g, h).distance == Fin(0)
    requires forall p :: InBounds(p) && p !in order ==> DistLe(At(g, h).distance, At(g, p).distance)
    requires forall p :: InBounds(p) ==> At(g1, p).distance == At(g, p).distance
    ensures NonDecreasing(g1, order + [h]) && LowerBounds(g0, s, g1, order + [h])
  {
    var order1 := order + [h];
    HeadLower(g0, s, g, order, h);
    forall i, j | 0 <= i < j < |order1|
      ensures DistLe(At(g1, order1[i]).distance, At(g1, order1[j]).distance)
    {
      assert order1[i] in order;
      if j < |order| {
        assert order1[j] in order;
      }
    }
    forall w | WalkFrom(g0, s, w) && Last(w) in order1
      ensures DistLe(At(g1, Last(w)).distance, Fin(|w| - 1))
    {
      if Last(w) in order {
        assert DistLe(At(g, Last(w)).distance, Fin(|w| - 1));
      }
    }
  }

  /** Appending `h` to the order appends it to the frames exactly when it was empty. */
  lemma SettleFrames(g0: Board, order: seq<Pos>, h: Pos)
    requires Shaped(g0) && AllIn(order) && InBounds(h)
    ensures AllIn(order + [h])
    ensures NewlyVisited(g0, order + [h]) == NewlyVisited(g0, order) + (if At(g0, h).typ == Empty then [h] else [])
  {
    assert (order + [h])[..|order|] == order;
  }

  /** Settling the head `h` of the worklist turns the settlement for `order` into one for `order + [h]`. */
  lemma SettleSettlement(g0: Board, s: Pos, e: Pos, g: Board, order: seq<Pos>, frames: seq<Pos>,
                         floor: nat, h: Pos, g1: Board)
    requires Prepared(g0, s, e) && Settlement(g0, s, e, g, order, frames) && Frontier(g0, g, order)
    requires InBounds(h) && h !in order && At(g, h).distance.Fin?
    requires forall p :: p in order ==> DistLe(At(g, p).distance, Fin(floor))
    requires DistLe(Fin(floor), At(g, h).distance)
    requires |order| == 0 ==> h == s && At(g, h).distance == Fin(0)
    requires forall p :: InBounds(p) && p !in order ==> DistLe(At(g, h).distance, At(g, p).distance)
    requires g1 == SetType(g, h, SettledType(At(g, h).typ))
    ensures Settlement(g0, s, e, g1, order + [h], frames + (if At(g0, h).typ == Empty then [h] else []))
  {
    var order1 := order + [h];
    SettleTypes(g0, s, e, g, order, h, g1);
    assert At(g, h).typ == At(g0, h).typ;
    assert At(g0, h).typ != Wall;
    SettleChain(g, s, h, g1);
    if |order| > 0 {
      assert order[0] in order;
    }
    SettleBounds(g0, s, g, order, h, floor, g1);
    SettleFrames(g0, order, h);
    assert NoDup(order1);
  }

  /**
   * Settling the head `h` of the sorted worklist, at a finite distance, gives a
   * settlement with `h` added to the order, recorded as a frame when it becomes
   * visited.
   */
  lemma SettleHead(g0: Board, s: Pos, e: Pos, g: Board, wl: seq<Pos>, order: seq<Pos>,
                   frames: seq<Pos>, floor: nat, sorted: seq<Pos>, g1: Board)
    requires Prepared(g0, s, e) && SearchInv(g0, s, e, g, wl, order, frames, floor)
    requires |wl| > 0 && sorted == SortByDistance(g, wl)
    requires InBounds(sorted[0]) && Key(g, sorted[0]).Fin?
    requires g1 == SetType(g, sorted[0], SettledType(At(g, sorted[0]).typ))
    ensures Settlement(g0, s, e, g1, order + [sorted[0]],
                       frames + (if At(g1, sorted[0]).typ == Visited then [sorted[0]] else []))
    ensures |frames| + (if At(g1, sorted[0]).typ == Visited then 1 else 0) + 1
            + (if sorted[0] == e then 1 else 0) == |order| + 1
  {
    HeadFacts(g0, s, e, g, wl, order, floor, sorted);
    var h := sorted[0];
    assert At(g, h).typ == At(g0, h).typ;
    assert At(g1, h).typ == Visited <==> At(g0, h).typ == Empty;
    SettleSettlement(g0, s, e, g, order, frames, floor, h, g1);
  }

  /**
   * After settling the head `h` of the sorted worklist, the rest of the list is
   * the unsettled nodes, none closer than `h`, and no settled node is further.
   * Settling changes only a type, so `g1` has the distances of `g`.
   */
  lemma SettleRest(g0: Board, s: Pos, e: Pos, g: Board, wl: seq<Pos>, order: seq<Pos>,
                   frames: seq<Pos>, floor: nat, sorted: seq<Pos>, g1: Board)
    requires Prepared(g0, s, e) && SearchInv(g0, s, e, g, wl, order, frames, floor)
    requires |wl| > 0 && sorted == SortByDistance(g, wl)
    requires InBounds(sorted[0]) && Key(g, sorted[0]).Fin?
    requires Shaped(g1) && forall p :: InBounds(p) ==> At(g1, p).distance == At(g, p).distance
    ensures ParityOk(g1, s) && Frontier(g0, g1, order)
    ensures AllIn(sorted[1..]) && NoDup(sorted[1..])
    ensures forall p :: InBounds(p) ==> (p in sorted[1..] <==> p !in order + [sorted[0]])
    ensures forall p :: InBounds(p) && p !in order ==> DistLe(At(g1, sorted[0]).distance, At(g1, p).distance)
    ensures forall p :: p in order + [sorted[0]] ==> DistLe(At(g1, p).distance, At(g1, sorted[0]).distance)
    ensures |order| > 0 || sorted[0] == s
  {
    HeadFacts(g0, s, e, g, wl, order, floor, sorted);
    SameDistances(g0, s, g, order, g1);
  }

  /** Settling changes only a type: every distance stays as it was. */
  lemma SettleKeepsDistances(g: Board, h: Pos, g1: Board)
    requires Shaped(g) && InBounds(h)
    requires g1 == SetType(g, h, SettledType(At(g, h).typ))
    ensures Shaped(g1) && forall p :: InBounds(p) ==> At(g1, p).distance == At(g, p).distance
  {
  }

  /** The parity and frontier facts depend on the distances alone. */
  lemma SameDistances(g0: Board, s: Pos, g: Board, order: seq<Pos>, g1: Board)
    requires Shaped(g0) && Shaped(g) && Shaped(g1) && AllIn(order)
    requires ParityOk(g, s) && Frontier(g0, g, order)
    requires forall p :: InBounds(p) ==> At(g1, p).distance == At(g, p).distance
    ensures ParityOk(g1, s) && Frontier(g0, g1, order)
  {
  }

  /** Relaxing from `h`, the last settled node, keeps the predecessor links well formed. */
  lemma RelaxChain(g1: Board, s: Pos, h: Pos, g2: Board)
    requires Shaped(g1) && InBounds(s) && InBounds(h) && ChainOk(g1, s) && At(g1, s).typ == Start
    requires At(g1, h).distance.Fin? && Settled(At(g1, h).typ)
    requires RelaxedFrom(g1, h, g2)
    ensures ChainOk(g2, s)
  {
    assert At(g2, s) == At(g1, s);
    assert At(g2, h) == At(g1, h);
    forall p | InBounds(p) && p != s && At(g2, p).distance.Fin? ensures PrevOk(g2, p) {
      if !(Adjacent(h, p) && Unvisited(At(g1, p).typ)) {
        assert At(g2, p) == At(g1, p);
        assert PrevOk(g1, p);
        var q := At(g1, p).previous.value;
        assert At(g2, q) == At(g1, q);
      }
    }
  }

  /** Relaxation gives neighbours the parity opposite to that of `h`. */
  lemma RelaxParity(g1: Board, s: Pos, h: Pos, g2: Board)
    requires Shaped(g1) && InBounds(h) && At(g1, h).distance.Fin? && ParityOk(g1, s)
    requires RelaxedFrom(g1, h, g2)
    ensures ParityOk(g2, s)
  {
    forall p | InBounds(p) && At(g2, p).distance.Fin?
      ensures At(g2, p).distance.n % 2 == (Parity(p) + Parity(s)) % 2
    {
      if Adjacent(h, p) && Unvisited(At(g1, p).typ) {
        AdjacentParity(h, p);
      } else {
        assert At(g2, p) == At(g1, p);
      }
    }
  }

  /**
   * Relaxing from `h` restores the frontier for the order with `h` added. The
   * neighbours of `h` get one more than `h`; a neighbour that was one more than
   * an older settled node `p` is overwritten by the same value, because `p` and
   * `h` have the same parity and no more than one step between their distances.
   */
  lemma RelaxFrontier(g0: Board, s: Pos, g1: Board, order: seq<Pos>, h: Pos, g2: Board)
    requires Shaped(g0) && Shaped(g1) && AllIn(order) && InBounds(h) && h !in order
    requires forall p :: InBounds(p) && p !in order + [h] ==> Unvisited(At(g1, p).typ) || At(g0, p).typ == Wall
    requires forall p :: InBounds(p) ==> (At(g1, p).typ == Wall <==> At(g0, p).typ == Wall)
    requires At(g1, h).distance.Fin? && Frontier(g0, g1, order) && ParityOk(g1, s)
    requires forall p :: InBounds(p) && p !in order ==> DistLe(At(g1, h).distance, At(g1, p).distance)
    requires forall p :: p in order + [h] ==> DistLe(At(g1, p).distance, At(g1, h).distance)
    requires forall p :: p in order + [h] ==> Settled(At(g1, p).typ)
    requires forall p :: p in order ==> At(g1, p).distance.Fin?
    requires RelaxedFrom(g1, h, g2)
    ensures Frontier(g0, g2, order + [h])
  {
    var order1 := order + [h];
    var d := At(g1, h).distance.n;
    assert At(g2, h) == At(g1, h);
    forall p, q | p in order1 && InBounds(q) && q !in order1 && Adjacent(p, q) && At(g0, q).typ != Wall
      ensures DistLe(At(g2, q).distance, Succ(At(g2, p).distance))
    {
      assert Unvisited(At(g1, q).typ);
      if p != h {
        assert p in order;
        assert At(g2, p) == At(g1, p);
        if Adjacent(h, q) {
          var dp := At(g1, p).distance.n;
          AdjacentParity(p, q);
          AdjacentParity(h, q);
          assert DistLe(At(g1, q).distance, Succ(At(g1, p).distance));
          assert dp <= d <= dp + 1;
          assert d == dp;
        } else {
          assert At(g2, q) == At(g1, q);
        }
      }
    }
  }

  /**
   * The state after settling the head `h` of the sorted worklist, before
   * relaxing from it: a settlement for `order + [h]`, the parity and frontier
   * facts for `order`, `tail` the unsettled nodes, none closer than `h`, and
   * no settled node further.
   */
  ghost predicate HeadSettled(g0: Board, s: Pos, e: Pos, g1: Board, tail: seq<Pos>, order: seq<Pos>,
                              h: Pos, frames: seq<Pos>)
    requires Prepared(g0, s, e)
  {
    && InBounds(h) && h !in order && e !in order
    && Settlement(g0, s, e, g1, order + [h], frames)
    && |frames| + (if h == e then 1 else 0) == |order|
    && ParityOk(g1, s) && Frontier(g0, g1, order)
    && AllIn(tail) && NoDup(tail)
    && (forall p :: InBounds(p) ==> (p in tail <==> p !in order + [h]))
    && (forall p :: InBounds(p) && p !in order ==> DistLe(At(g1, h).distance, At(g1, p).distance))
    && (forall p :: p in order + [h] ==> DistLe(At(g1, p).distance, At(g1, h).distance))
    && At(g1, h).distance.Fin?
  }

  /** Settling the head of the sorted worklist at a finite distance gives `HeadSettled`. */
  lemma Settle(g0: Board, s: Pos, e: Pos, g: Board, wl: seq<Pos>, order: seq<Pos>,
               frames: seq<Pos>, floor: nat, sorted: seq<Pos>, g1: Board)
    requires Prepared(g0, s, e) && SearchInv(g0, s, e, g, wl, order, frames, floor)
    requires |wl| > 0 && sorted == SortByDistance(g, wl)
    requires InBounds(sorted[0]) && Key(g, sorted[0]).Fin?
    requires g1 == SetType(g, sorted[0], SettledType(At(g, sorted[0]).typ))
    ensures HeadSettled(g0, s, e, g1, sorted[1..], order, sorted[0],
                        frames + (if At(g1, sorted[0]).typ == Visited then [sorted[0]] else []))
  {
    SettleHead(g0, s, e, g, wl, order, frames, floor, sorted, g1);
    SettleKeepsDistances(g, sorted[0], g1);
    SettleRest(g0, s, e, g, wl, order, frames, floor, sorted, g1);
  }

  /**
   * Relaxing from the settled head `h`, when it is not the end node, keeps the
   * loop invariant with the remaining worklist and `h`'s distance as floor.
   */
  lemma RelaxHead(g0: Board, s: Pos, e: Pos, g1: Board, tail: seq<Pos>, order: seq<Pos>,
                  h: Pos, frames: seq<Pos>, g2: Board)
    requires Prepared(g0, s, e) && HeadSettled(g0, s, e, g1, tail, order, h, frames) && h != e
    requires RelaxedFrom(g1, h, g2)
    ensures SearchInv(g0, s, e, g2, tail, order + [h], frames, At(g1, h).distance.n)
  {
    var d := At(g1, h).distance.n;
    SettledTypes(g0, s, e, g1, tail, order, h, frames);
    RelaxSettlement(g0, s, e, g1, tail, order, h, frames, g2);
    RelaxParity(g1, s, h, g2);
    RelaxFrontier(g0, s, g1, order, h, g2);
    forall p | p in tail ensures DistLe(Fin(d), At(g2, p).distance) {
      if !(Adjacent(h, p) && Unvisited(At(g1, p).typ)) {
        assert At(g2, p) == At(g1, p);
      }
    }
  }

  /**
   * The unconditional overwrite of the relaxation never raises a distance:
   * with `h` the closest node outside the settled `order` and the parities of
   * `ParityOk`, a relaxed neighbour of `h` is unsettled, so no closer than `h`,
   * and has the opposite parity, so it is strictly further.
   */
  lemma RelaxNeverRaises(g1: Board, s: Pos, order: seq<Pos>, h: Pos, g2: Board)
    requires Shaped(g1) && AllIn(order) && InBounds(h) && At(g1, h).distance.Fin? && ParityOk(g1, s)
    requires forall p :: p in order ==> Settled(At(g1, p).typ)
    requires forall p :: InBounds(p) && p !in order ==> DistLe(At(g1, h).distance, At(g1, p).distance)
    requires RelaxedFrom(g1, h, g2)
    ensures forall p {:trigger At(g2, p)} :: InBounds(p) ==> DistLe(At(g2, p).distance, At(g1, p).distance)
  {
    forall p | InBounds(p) ensures DistLe(At(g2, p).distance, At(g1, p).distance) {
      if Adjacent(h, p) && Unvisited(At(g1, p).typ) {
        assert p !in order;
        AdjacentParity(h, p);
      }
    }
  }

  /** The types after settling `h`: settled nodes are visited or the start, the others are relaxable or walls. */
  lemma SettledTypes(g0: Board, s: Pos, e: Pos, g1: Board, tail: seq<Pos>, order: seq<Pos>, h: Pos, frames: seq<Pos>)
    requires Prepared(g0, s, e) && HeadSettled(g0, s, e, g1, tail, order, h, frames) && h != e
    ensures forall p :: p in order + [h] ==> Settled(At(g1, p).typ)
    ensures forall p :: InBounds(p) && p !in order + [h] ==> Unvisited(At(g1, p).typ) || At(g0, p).typ == Wall
    ensures forall p :: InBounds(p) ==> (At(g1, p).typ == Wall <==> At(g0, p).typ == Wall)
    ensures forall p :: p in order ==> At(g1, p).distance.Fin?
    ensures At(g1, s).typ == Start
  {
    var order1 := order + [h];
    assert h in order1;
    forall p | p in order1 ensures Settled(At(g1, p).typ) {
      assert At(g1, p).typ == TypeAfter(g0, order1, p);
    }
    forall p | InBounds(p) && p !in order1 ensures Unvisited(At(g1, p).typ) || At(g0, p).typ == Wall {
      assert At(g1, p).typ == TypeAfter(g0, order1, p);
    }
    forall p | InBounds(p) ensures At(g1, p).typ == Wall <==> At(g0, p).typ == Wall {
      assert At(g1, p).typ == TypeAfter(g0, order1, p);
    }
  }

  /** Relaxing from the settled head keeps the settlement: it changes no settled node and no type. */
  lemma RelaxSettlement(g0: Board, s: Pos, e: Pos, g1: Board, tail: seq<Pos>, order: seq<Pos>,
                        h: Pos, frames: seq<Pos>, g2: Board)
    requires Prepared(g0, s, e) && HeadSettled(g0, s, e, g1, tail, order, h, frames) && h != e
    requires RelaxedFrom(g1, h, g2)
    ensures Settlement(g0, s, e, g2, order + [h], frames)
  {
    var order1 := order + [h];
    SettledTypes(g0, s, e, g1, tail, order, h, frames);
    forall p | p in order1 ensures At(g2, p) == At(g1, p) {
    }
    RelaxChain(g1, s, h, g2);
    forall p | InBounds(p) ensures At(g2, p).typ == At(g1, p).typ {
    }
    assert NonDecreasing(g2, order1);
    assert LowerBounds(g0, s, g2, order1);
  }

  /** The invariant holds before the first iteration, with every node in the worklist. */
  lemma SearchStart(g0: Board, s: Pos, e: Pos, wl: seq<Pos>)
    requires Prepared(g0, s, e)
    requires AllIn(wl) && NoDup(wl) && forall p :: InBounds(p) ==> p in wl
    ensures SearchInv(g0, s, e, g0, wl, [], [], 0)
  {
    assert ChainOk(g0, s);
    assert ParityOk(g0, s);
  }

  /**
   * One iteration of the loop that neither stops nor reaches the end: settling
   * the head `h` of the sorted worklist and relaxing from it keeps the loop
   * invariant, with `h` added to the order and its distance as the new floor.
   */
  lemma Step(g0: Board, s: Pos, e: Pos, g: Board, wl: seq<Pos>, order: seq<Pos>,
             frames: seq<Pos>, floor: nat, sorted: seq<Pos>, g1: Board, g2: Board)
    requires Prepared(g0, s, e) && SearchInv(g0, s, e, g, wl, order, frames, floor)
    requires |wl| > 0 && sorted == SortByDistance(g, wl)
    requires InBounds(sorted[0]) && Key(g, sorted[0]).Fin? && sorted[0] != e
    requires g1 == SetType(g, sorted[0], SettledType(At(g, sorted[0]).typ))
    requires RelaxedFrom(g1, sorted[0], g2)
    ensures SearchInv(g0, s, e, g2, sorted[1..], order + [sorted[0]],
                      frames + (if At(g1, sorted[0]).typ == Visited then [sorted[0]] else []),
                      At(g1, sorted[0]).distance.n)
  {
    var h := sorted[0];
    var frames1 := frames + (if At(g1, h).typ == Visited then [h] else []);
    Settle(g0, s, e, g, wl, order, frames, floor, sorted, g1);
    RelaxHead(g0, s, e, g1, sorted[1..], order, h, frames1, g2);
  }

  /**
   * When the head of the sorted worklist is at infinite distance, every
   * unsettled node is, and the settled nodes are exactly what a walk from the
   * start can reach.
   */
  lemma Trapped(g0: Board, s: Pos, e: Pos, g: Board, wl: seq<Pos>, order: seq<Pos>,
                frames: seq<Pos>, floor: nat, sorted: seq<Pos>)
    requires Prepared(g0, s, e) && SearchInv(g0, s, e, g, wl, order, frames, floor)
    requires |wl| > 0 && sorted == SortByDistance(g, wl) && InBounds(sorted[0]) && Key(g, sorted[0]) == Inf
    ensures Settlement(g0, s, e, g, order, frames)
    ensures |order| > 0 && order[0] == s && e !in order
    ensures |frames| + 1 == |order|
    ensures forall p :: InBounds(p) && p !in order ==> At(g, p).distance == Inf
    ensures forall w {:trigger WalkFrom(g0, s, w)} :: WalkFrom(g0, s, w) ==> Last(w) in order
  {
    HeadFacts(g0, s, e, g, wl, order, floor, sorted);
    assert order[0] in order;
    forall w | WalkFrom(g0, s, w) ensures Last(w) in order {
      if Last(w) !in order {
        var k := LeaveStep(g0, s, g, order, w);
        assert false;
      }
    }
  }

  /**
   * With `h` the closest node outside the settled `order`, every walk from the
   * start with fewer steps than `h`'s distance ends at a settled node: a walk
   * leaving `order` would reach, within its length, an unsettled node closer
   * than `h`.
   */
  lemma CloserSettled(g0: Board, s: Pos, g: Board, order: seq<Pos>, h: Pos)
    requires Shaped(g0) && Shaped(g) && AllIn(order) && s in order && InBounds(h) && At(g, h).distance.Fin?
    requires LowerBounds(g0, s, g, order) && Frontier(g0, g, order)
    requires forall p :: InBounds(p) && p !in order ==> DistLe(At(g, h).distance, At(g, p).distance)
    ensures forall w {:trigger WalkFrom(g0, s, w)} :: WalkFrom(g0, s, w) && |w| - 1 < At(g, h).distance.n ==>
      Last(w) in order
  {
    forall w | WalkFrom(g0, s, w) && |w| - 1 < At(g, h).distance.n ensures Last(w) in order {
      if Last(w) !in order {
        var k := LeaveStep(g0, s, g, order, w);
        assert false;
      }
    }
  }

  /** When the head of the sorted worklist is the end node, settling it ends the search. */
  lemma Reached(g0: Board, s: Pos, e: Pos, g: Board, wl: seq<Pos>, order: seq<Pos>,
                frames: seq<Pos>, floor: nat, sorted: seq<Pos>, g1: Board)
    requires Prepared(g0, s, e) && SearchInv(g0, s, e, g, wl, order, frames, floor)
    requires |wl| > 0 && sorted == SortByDistance(g, wl)
    requires InBounds(sorted[0]) && Key(g, sorted[0]).Fin? && sorted[0] == e
    requires g1 == SetType(g, e, SettledType(At(g, e).typ))
    ensures Settlement(g0, s, e, g1, order + [e], frames)
    ensures order + [e] != [] && (order + [e])[0] == s
    ensures e in order + [e] && Last(order + [e]) == e
    ensures |frames| + 2 == |order + [e]|
    ensures At(g1, e).distance == At(g, e).distance
  {
    SettleHead(g0, s, e, g, wl, order, frames, floor, sorted, g1);
    assert At(g1, e).typ == End;
  }

  /** When the head of the sorted worklist is the end node, every node closer to the start is settled. */
  lemma ReachedCloser(g0: Board, s: Pos, e: Pos, g: Board, wl: seq<Pos>, order: seq<Pos>,
                      frames: seq<Pos>, floor: nat, sorted: seq<Pos>)
    requires Prepared(g0, s, e) && SearchInv(g0, s, e, g, wl, order, frames, floor)
    requires |wl| > 0 && sorted == SortByDistance(g, wl)
    requires InBounds(sorted[0]) && Key(g, sorted[0]).Fin? && sorted[0] == e
    ensures At(g, e).distance.Fin?
    ensures forall w {:trigger WalkFrom(g0, s, w)} :: WalkFrom(g0, s, w) && |w| - 1 < At(g, e).distance.n ==>
      Last(w) in order
  {
    HeadFacts(g0, s, e, g, wl, order, floor, sorted);
    assert s in order by {
      assert order[0] in order;
    }
    CloserSettled(g0, s, g, order, e);
  }

  /**
   * The search loop of `visualizeDijkstra` from the prepared grid `g0`: `order`
   * is the sequence of settled nodes (the source's `visitedNodesInOrder`),
   * `frames` the nodes that turned visited, one animation frame each, and
   * `reached` tells whether the loop stopped at the end node.
   */
  method Search(g0: Board, s: Pos, e: Pos) returns (g: Board, order: seq<Pos>, frames: seq<Pos>, reached: bool)
    requires Prepared(g0, s, e)
    ensures Settlement(g0, s, e, g, order, frames)
    ensures |order| > 0 && order[0] == s
    ensures reached <==> e in order
    ensures reached ==> Last(order) == e
    ensures !reached ==> forall p :: InBounds(p) && p !in order ==> At(g, p).distance == Inf
    ensures !reached ==> forall w {:trigger WalkFrom(g0, s, w)} :: WalkFrom(g0, s, w) ==> Last(w) in order
    ensures reached ==> At(g, e).distance.Fin? && forall w {:trigger WalkFrom(g0, s, w)} ::
      WalkFrom(g0, s, w) && |w| - 1 < At(g, e).distance.n ==> Last(w) in order
    ensures |frames| + 1 + (if reached then 1 else 0) == |order|
  {
    var wl := GetAllNodes(g0);
    RowMajorScan();
    g, order, frames, reached := g0, [], [], false;
    ghost var floor: nat := 0;
    SearchStart(g0, s, e, wl);
    while |wl| > 0
      invariant SearchInv(g0, s, e, g, wl, order, frames, floor)
      decreases |wl|
    {
      var sorted := SortByDistance(g, wl);
      HeadFacts(g0, s, e, g, wl, order, floor, sorted);
      var h := sorted[0];
      if At(g, h).distance == Inf {
        Trapped(g0, s, e, g, wl, order, frames, floor, sorted);
        return;
      }
      // The source skips a wall here; walls stay at infinite distance, so none is reached.
      assert At(g, h).typ != Wall;
      var g1 := SetType(g, h, SettledType(At(g, h).typ));
      var frames1 := frames + (if At(g1, h).typ == Visited then [h] else []);
      if h == e {
        Reached(g0, s, e, g, wl, order, frames, floor, sorted, g1);
        ReachedCloser(g0, s, e, g, wl, order, frames, floor, sorted);
        g, order, frames, reached := g1, order + [h], frames1, true;
        return;
      }
      var g2 := UpdateUnvisitedNeighbors(h, g1);
      Step(g0, s, e, g, wl, order, frames, floor, sorted, g1, g2);
      g, wl, order, frames, floor := g2, sorted[1..], order + [h], frames1, At(g1, h).distance.n;
    }
  }
}

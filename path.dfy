/**
 * `animatePath`: following the predecessor links back from the end node to
 * the start, then marking the nodes strictly between them as path nodes one
 * at a time, each mark setting the displayed path length to its index.
 */
module Reconstruction {
  import opened Grid
  import opened Dijkstra

  /**
   * The nodes met by following predecessor links from `p` back to the start,
   * start first: the start alone, or the chain of `p`'s predecessor followed
   * by `p`.
   */
  ghost function ChainFrom(g: Board, s: Pos, p: Pos): (c: seq<Pos>)
    requires Shaped(g) && InBounds(s) && ChainOk(g, s) && InBounds(p) && At(g, p).distance.Fin?
    decreases At(g, p).distance.n
    ensures |c| > 0 && c[0] == s && Last(c) == p
  {
    if p == s then [s]
    else
      assert PrevOk(g, p);
      ChainFrom(g, s, At(g, p).previous.value) + [p]
  }

  /**
   * With well-formed links, the chain from a node `p` at finite distance n has
   * n + 1 nodes and runs from the start to `p`, its i-th node at distance i.
   */
  lemma {:induction false} ChainShape(g: Board, s: Pos, p: Pos)
    requires Shaped(g) && InBounds(s) && ChainOk(g, s) && InBounds(p) && At(g, p).distance.Fin?
    decreases At(g, p).distance.n
    ensures |ChainFrom(g, s, p)| == At(g, p).distance.n + 1
    ensures ChainFrom(g, s, p)[0] == s && Last(ChainFrom(g, s, p)) == p
    ensures forall i :: 0 <= i < |ChainFrom(g, s, p)| ==>
      InBounds(ChainFrom(g, s, p)[i]) && At(g, ChainFrom(g, s, p)[i]).distance == Fin(i)
  {
    if p != s {
      assert PrevOk(g, p);
      var q := At(g, p).previous.value;
      ChainShape(g, s, q);
      var cq := ChainFrom(g, s, q);
      var c := cq + [p];
      assert ChainFrom(g, s, p) == c;
      forall i | 0 <= i < |c| ensures InBounds(c[i]) && At(g, c[i]).distance == Fin(i) {
        if i < |cq| {
          assert c[i] == cq[i];
        }
      }
    }
  }

  /** Along the chain from `p`, every node but `p` is settled and one step from the next. */
  lemma {:induction false} ChainSteps(g: Board, s: Pos, p: Pos)
    requires Shaped(g) && InBounds(s) && ChainOk(g, s) && InBounds(p) && At(g, p).distance.Fin?
    decreases At(g, p).distance.n
    ensures forall i :: 0 <= i < |ChainFrom(g, s, p)| - 1 ==>
      InBounds(ChainFrom(g, s, p)[i]) && Settled(At(g, ChainFrom(g, s, p)[i]).typ)
      && Adjacent(ChainFrom(g, s, p)[i], ChainFrom(g, s, p)[i + 1])
  {
    if p != s {
      assert PrevOk(g, p);
      var q := At(g, p).previous.value;
      ChainSteps(g, s, q);
      ChainShape(g, s, q);
      var cq := ChainFrom(g, s, q);
      var c := cq + [p];
      assert ChainFrom(g, s, p) == c;
      forall i | 0 <= i < |c| - 1
        ensures InBounds(c[i]) && Settled(At(g, c[i]).typ) && Adjacent(c[i], c[i + 1])
      {
        assert c[i] == cq[i];
        if i == |cq| - 1 {
          assert c[i + 1] == p;
        } else {
          assert c[i + 1] == cq[i + 1];
        }
      }
    }
  }

  /**
   * Every settled node is reached from the start by a walk with exactly its
   * distance many steps: the chain of its predecessor links.
   */
  lemma SettledReachable(g: Board, s: Pos, order: seq<Pos>)
    requires Shaped(g) && InBounds(s) && ChainOk(g, s) && AllIn(order)
    requires forall p :: p in order ==> At(g, p).distance.Fin? && At(g, p).typ != Wall
    ensures forall p :: p in order ==> exists w {:trigger WalkFrom(g, s, w)} ::
      WalkFrom(g, s, w) && Last(w) == p && |w| == At(g, p).distance.n + 1
  {
    forall p | p in order
      ensures exists w {:trigger WalkFrom(g, s, w)} :: WalkFrom(g, s, w) && Last(w) == p && |w| == At(g, p).distance.n + 1
    {
      var c := ChainFrom(g, s, p);
      ChainShape(g, s, p);
      ChainSteps(g, s, p);
      assert IsWalk(g, c) by {
        forall i | 0 <= i < |c| ensures At(g, c[i]).typ != Wall {
          if i < |c| - 1 {
            assert Settled(At(g, c[i]).typ);
          }
        }
      }
      assert WalkFrom(g, s, c);
    }
  }

  /**
   * One step back along the links: the start ends the walk, and for any other
   * node the chain from it is the chain from its predecessor followed by it.
   */
  lemma ChainBack(g: Board, s: Pos, p: Pos, path: seq<Pos>)
    requires Shaped(g) && InBounds(s) && ChainOk(g, s) && InBounds(p) && At(g, p).distance.Fin?
    ensures p == s ==> At(g, p).previous.None? && ChainFrom(g, s, p) + path == [p] + path
    ensures p != s ==> && At(g, p).previous.Some?
                       && InBounds(At(g, p).previous.value) && At(g, At(g, p).previous.value).distance.Fin?
                       && At(g, At(g, p).previous.value).distance.n < At(g, p).distance.n
                       && ChainFrom(g, s, p) + path == ChainFrom(g, s, At(g, p).previous.value) + ([p] + path)
  {
    if p != s {
      assert PrevOk(g, p);
    }
  }

  /**
   * The predecessor walk of `animatePath`, which collects the nodes from the
   * end node `e` back to the start, putting each in front: the chain from `e`,
   * which has distance-of-`e` plus one nodes, runs from the start to `e` with
   * the i-th node at distance i, every node but `e` settled and each one step
   * from the next.
   */
  method CollectPath(g: Board, s: Pos, e: Pos) returns (path: seq<Pos>)
    requires Shaped(g) && InBounds(s) && ChainOk(g, s) && InBounds(e) && At(g, e).distance.Fin?
    ensures |path| == At(g, e).distance.n + 1 && path[0] == s && Last(path) == e
    ensures forall i :: 0 <= i < |path| ==> InBounds(path[i]) && At(g, path[i]).distance == Fin(i)
    ensures forall i :: 0 <= i < |path| - 1 ==> Settled(At(g, path[i]).typ) && Adjacent(path[i], path[i + 1])
  {
    path := [];
    var current: Option<Pos> := Some(e);
    while current.Some?
      invariant current.Some? ==> InBounds(current.value) && At(g, current.value).distance.Fin?
      invariant current.Some? ==> ChainFrom(g, s, e) == ChainFrom(g, s, current.value) + path
      invariant current.None? ==> path == ChainFrom(g, s, e)
      decreases if current.Some? then At(g, current.value).distance.n + 1 else 0
    {
      var node := current.value;
      ChainBack(g, s, node, path);
      path := [node] + path;
      current := At(g, node).previous;
    }
    ChainShape(g, s, e);
    ChainSteps(g, s, e);
  }

  /** The nodes of a chain are at distinct distances, so none appears twice. */
  lemma PathNoDup(g: Board, path: seq<Pos>)
    requires Shaped(g) && AllIn(path)
    requires forall i :: 0 <= i < |path| ==> At(g, path[i]).distance == Fin(i)
    ensures NoDup(path)
  {
    forall i, j | 0 <= i < j < |path| ensures path[i] != path[j] {
      assert At(g, path[i]).distance != At(g, path[j]).distance;
    }
  }

  /** `r` is `g` with the nodes of `m` turned into path nodes. */
  ghost predicate MarkedSome(g: Board, m: seq<Pos>, r: Board)
    requires Shaped(g)
  {
    && Shaped(r)
    && forall p {:trigger At(r, p)} :: InBounds(p) ==> At(r, p) == if p in m then At(g, p).(typ := Path) else At(g, p)
  }

  lemma MarkOne(g: Board, m: seq<Pos>, r: Board, q: Pos)
    requires Shaped(g) && MarkedSome(g, m, r) && InBounds(q) && q !in m
    ensures MarkedSome(g, m + [q], SetType(r, q, Path))
  {
    var r' := SetType(r, q, Path);
    forall p | InBounds(p)
      ensures At(r', p) == if p in m + [q] then At(g, p).(typ := Path) else At(g, p)
    {
      if p != q {
        assert At(r', p) == At(r, p);
      }
    }
  }

  /** Before step i of the marking loop, `path[i]` is not yet marked and is the start or end only at the ends. */
  lemma NotYetMarked(path: seq<Pos>, marked: seq<Pos>, i: nat, s: Pos, e: Pos)
    requires NoDup(path) && |path| >= 2 && path[0] == s && Last(path) == e && i < |path|
    requires |marked| == MarkedUpTo(i, |path|) - 1 && forall j :: 0 <= j < |marked| ==> marked[j] == path[j + 1]
    ensures path[i] !in marked
    ensures path[i] == s <==> i == 0
    ensures path[i] == e <==> i == |path| - 1
  {
    forall j | 0 <= j < |marked| ensures marked[j] != path[i] {
      assert path[j + 1] != path[i];
    }
    if i != 0 {
      assert path[0] != path[i];
    }
    if i != |path| - 1 {
      assert path[i] != path[|path| - 1];
    }
  }

  /** After the marking loop, the marked nodes are exactly the intermediate nodes of the path, in order. */
  lemma AllMarked(path: seq<Pos>, marked: seq<Pos>, s: Pos, e: Pos)
    requires NoDup(path) && |path| >= 2 && path[0] == s && Last(path) == e
    requires |marked| == |path| - 2 && forall j :: 0 <= j < |marked| ==> marked[j] == path[j + 1]
    ensures marked == path[1..|path| - 1]
    ensures forall p :: p in marked <==> p in path && p != s && p != e
  {
    assert marked == path[1..|path| - 1];
    forall p ensures p in marked <==> p in path && p != s && p != e {
      if p in path && p != s && p != e {
        var j :| 0 <= j < |path| && path[j] == p;
        assert marked[j - 1] == p;
      }
      if p in marked {
        var j :| 0 <= j < |marked| && marked[j] == p;
        assert path[j + 1] == p;
      }
    }
  }

  /** The end of the marked prefix of the intermediate nodes after `i` steps of the marking loop. */
  function MarkedUpTo(i: nat, len: nat): nat {
    if i == 0 then 1 else if i == len then len - 1 else i
  }

  /**
   * The marking loop of `animatePath` over a path `path` from `s` to `e` without
   * repeated nodes: every node but the two markers becomes a path node, `marked`
   * lists them in path order, and `pathLength` is the index of the last one
   * marked, or the old `pathLength0` when there is none.
   */
  method MarkPath(g: Board, s: Pos, e: Pos, path: seq<Pos>, pathLength0: nat)
      returns (r: Board, marked: seq<Pos>, pathLength: nat)
    requires Shaped(g) && Markers(g, s, e) && AllIn(path) && NoDup(path)
    requires |path| >= 2 && path[0] == s && Last(path) == e
    ensures MarkedSome(g, marked, r)
    ensures marked == path[1..|path| - 1]
    ensures forall p :: p in marked <==> p in path && p != s && p != e
    ensures pathLength == if |path| > 2 then |path| - 2 else pathLength0
  {
    r, marked, pathLength := g, [], pathLength0;
    for i := 0 to |path|
      invariant MarkedSome(g, marked, r)
      invariant |marked| == MarkedUpTo(i, |path|) - 1
      invariant forall j :: 0 <= j < |marked| ==> marked[j] == path[j + 1]
      invariant pathLength == if MarkedUpTo(i, |path|) > 1 then MarkedUpTo(i, |path|) - 1 else pathLength0
    {
      var node := path[i];
      NotYetMarked(path, marked, i, s, e);
      assert At(r, node) == At(g, node);
      if At(r, node).typ != Start && At(r, node).typ != End {
        MarkOne(g, marked, r, node);
        r := SetType(r, node, Path);
        pathLength := i;
        marked := marked + [node];
      }
    }
    AllMarked(path, marked, s, e);
  }

  /**
   * `animatePath` on the search's final grid `g`: `path` is the chain from the
   * end node, `r` the grid with every node strictly between the start and the
   * end turned into a path node, `marked` the nodes so turned in the order they
   * are revealed, and `pathLength` the index of the last one, or the old
   * `pathLength0` when the path has no intermediate node.
   */
  method AnimatePath(g: Board, s: Pos, e: Pos, pathLength0: nat)
      returns (r: Board, path: seq<Pos>, marked: seq<Pos>, pathLength: nat)
    requires Shaped(g) && Markers(g, s, e) && ChainOk(g, s) && At(g, e).distance.Fin?
    ensures |path| == At(g, e).distance.n + 1 && |path| >= 2
    ensures path[0] == s && Last(path) == e
    ensures IsWalk(g, path) && NoDup(path)
    ensures forall i :: 0 <= i < |path| ==> At(g, path[i]).distance == Fin(i)
    ensures Shaped(r)
    ensures forall p {:trigger At(r, p)} :: InBounds(p) ==>
      At(r, p) == if p in path && p != s && p != e then At(g, p).(typ := Path) else At(g, p)
    ensures marked == path[1..|path| - 1]
    ensures pathLength == if |path| > 2 then |path| - 2 else pathLength0
  {
    path := CollectPath(g, s, e);
    PathNoDup(g, path);
    assert IsWalk(g, path) by {
      forall i | 0 <= i < |path| ensures At(g, path[i]).typ != Wall {
        if i < |path| - 1 {
          assert Settled(At(g, path[i]).typ);
        }
      }
    }
    r, marked, pathLength := MarkPath(g, s, e, path, pathLength0);
  }
}

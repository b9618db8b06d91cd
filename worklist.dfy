/**
 * The worklist of the search: `getAllNodes`, which lists the nodes in row-major
 * order, and `sortNodesByDistance`, which sorts the list by distance.
 *
 * `sortNodesByDistance` calls the built-in `Array.prototype.sort` with the
 * comparator `a.distance - b.distance`. That sort is stable, and for two
 * infinite distances the comparator yields NaN, which the sort reads as "equal",
 * so the list is ordered by `DistLe` with equal distances keeping their order.
 * The model states exactly that, with an insertion sort as the witness.
 */
module Worklist {
  import opened Grid

  /** `p` comes before `q` in a row-major scan. */
  predicate RowMajorBefore(p: Pos, q: Pos) {
    p.row < q.row || (p.row == q.row && p.col < q.col)
  }

  /** The first `k` positions of a row-major scan of the grid. */
  function RowMajor(k: nat): (l: seq<Pos>)
    ensures |l| == k
  {
    seq(k, i requires 0 <= i < k => Pos(i / COLS, i % COLS))
  }

  /**
   * The full row-major scan lists every position of the grid exactly once,
   * row by row and, within a row, column by column.
   */
  lemma RowMajorScan()
    ensures AllIn(RowMajor(ROWS * COLS)) && NoDup(RowMajor(ROWS * COLS))
    ensures forall p :: InBounds(p) ==> p in RowMajor(ROWS * COLS)
    ensures forall i, j :: 0 <= i < j < ROWS * COLS ==> RowMajorBefore(RowMajor(ROWS * COLS)[i], RowMajor(ROWS * COLS)[j])
  {
    var l := RowMajor(ROWS * COLS);
    forall p | InBounds(p) ensures p in l {
      assert l[p.row * COLS + p.col] == p;
    }
    forall i, j | 0 <= i < j < ROWS * COLS ensures RowMajorBefore(l[i], l[j]) {
      assert i / COLS <= j / COLS;
    }
  }

  /**
   * `getAllNodes`: the nodes of the grid in row-major order. The source pushes
   * the nodes themselves; here a node is named by its position, read from the
   * node's own `row` and `col`.
   */
  method GetAllNodes(g: Board) returns (nodes: seq<Pos>)
    requires Shaped(g)
    ensures nodes == RowMajor(ROWS * COLS)
  {
    nodes := [];
    for r := 0 to |g|
      invariant nodes == RowMajor(r * COLS)
    {
      for c := 0 to |g[r]|
        invariant nodes == RowMajor(r * COLS + c)
      {
        var node := g[r][c];
        assert node == At(g, Pos(r, c));
        assert RowMajor(r * COLS + c + 1) == RowMajor(r * COLS + c) + [Pos(r, c)];
        nodes := nodes + [Pos(node.row, node.col)];
      }
    }
  }

  /** The distance of the node at `p`, the sort key. */
  function Key(g: Board, p: Pos): Dist
    requires Shaped(g) && InBounds(p)
  {
    At(g, p).distance
  }

  ghost predicate SortedBy(g: Board, l: seq<Pos>)
    requires Shaped(g) && AllIn(l)
  {
    forall i, j :: 0 <= i < j < |l| ==> DistLe(Key(g, l[i]), Key(g, l[j]))
  }

  /** The elements of `l` at distance `d`, in their order in `l`. */
  function AtDistance(g: Board, l: seq<Pos>, d: Dist): seq<Pos>
    requires Shaped(g) && AllIn(l)
  {
    if l == [] then [] else (if Key(g, l[0]) == d then [l[0]] else []) + AtDistance(g, l[1..], d)
  }

  /** Insert `x` into `l` in front of the first element whose distance is not smaller. */
  function Insert(g: Board, x: Pos, l: seq<Pos>): (r: seq<Pos>)
    requires Shaped(g) && InBounds(x) && AllIn(l)
    ensures AllIn(r) && multiset(r) == multiset(l) + multiset{x}
  {
    if l == [] then [x]
    else if DistLe(Key(g, x), Key(g, l[0])) then [x] + l
    else
      assert l == [l[0]] + l[1..];
      [l[0]] + Insert(g, x, l[1..])
  }

  /** Inserting into a sorted list gives a sorted list. */
  lemma {:induction false} InsertSorted(g: Board, x: Pos, l: seq<Pos>)
    requires Shaped(g) && InBounds(x) && AllIn(l) && SortedBy(g, l)
    ensures SortedBy(g, Insert(g, x, l))
  {
    if l != [] && !DistLe(Key(g, x), Key(g, l[0])) {
      var t := l[1..];
      InsertSorted(g, x, t);
      InsertAbove(g, x, l);
      ConsSorted(g, l[0], Insert(g, x, t));
    }
  }

  /** When `x` goes after the head of a sorted `l`, everything it joins is at least the head. */
  lemma InsertAbove(g: Board, x: Pos, l: seq<Pos>)
    requires Shaped(g) && InBounds(x) && AllIn(l) && SortedBy(g, l)
    requires l != [] && !DistLe(Key(g, x), Key(g, l[0]))
    ensures forall y :: y in Insert(g, x, l[1..]) ==> InBounds(y) && DistLe(Key(g, l[0]), Key(g, y))
  {
    var t := l[1..];
    var rest := Insert(g, x, t);
    forall y | y in rest ensures InBounds(y) && DistLe(Key(g, l[0]), Key(g, y)) {
      assert y in multiset(rest);
      if y != x {
        assert y in multiset(t);
        var k :| 0 <= k < |t| && t[k] == y;
        assert l[k + 1] == y;
      }
    }
  }

  /** A sorted list behind a head no greater than any of its elements is sorted. */
  lemma ConsSorted(g: Board, a: Pos, t: seq<Pos>)
    requires Shaped(g) && InBounds(a) && AllIn(t) && SortedBy(g, t)
    requires forall y :: y in t ==> DistLe(Key(g, a), Key(g, y))
    ensures AllIn([a] + t) && SortedBy(g, [a] + t)
  {
    var r := [a] + t;
    forall i, j | 0 <= i < j < |r| ensures DistLe(Key(g, r[i]), Key(g, r[j])) {
      assert r[j] == t[j - 1];
      if i > 0 {
        assert r[i] == t[i - 1];
      }
    }
  }

  /**
   * `sortNodesByDistance`: the result is a permutation of `l`, ordered by
   * distance with infinite distances last.
   */
  function SortByDistance(g: Board, l: seq<Pos>): (r: seq<Pos>)
    requires Shaped(g) && AllIn(l)
    ensures AllIn(r) && multiset(r) == multiset(l)
    ensures SortedBy(g, r)
  {
    if l == [] then []
    else
      assert l == [l[0]] + l[1..];
      var rest := SortByDistance(g, l[1..]);
      InsertSorted(g, l[0], rest);
      Insert(g, l[0], rest)
  }

  /** Inserting keeps the order among elements of equal distance, `x` first. */
  lemma {:induction false} InsertStable(g: Board, x: Pos, l: seq<Pos>, d: Dist)
    requires Shaped(g) && InBounds(x) && AllIn(l)
    ensures AtDistance(g, Insert(g, x, l), d) == (if Key(g, x) == d then [x] else []) + AtDistance(g, l, d)
  {
    if l == [] {
      assert AtDistance(g, [x], d) == (if Key(g, x) == d then [x] else []) + AtDistance(g, [], d);
    } else if DistLe(Key(g, x), Key(g, l[0])) {
      assert ([x] + l)[1..] == l;
      assert ([x] + l)[0] == x;
    } else {
      var rest := Insert(g, x, l[1..]);
      InsertStable(g, x, l[1..], d);
      assert Insert(g, x, l) == [l[0]] + rest;
      assert ([l[0]] + rest)[1..] == rest;
      assert ([l[0]] + rest)[0] == l[0];
      assert Key(g, x) != Key(g, l[0]);
      var hx := if Key(g, x) == d then [x] else [];
      var h0 := if Key(g, l[0]) == d then [l[0]] else [];
      assert AtDistance(g, [l[0]] + rest, d) == h0 + AtDistance(g, rest, d);
      SwapEmpty(h0, hx, AtDistance(g, l[1..], d));
    }
  }

  /** Of two sequences at least one of which is empty, either may go first. */
  lemma SwapEmpty(a: seq<Pos>, b: seq<Pos>, t: seq<Pos>)
    requires a == [] || b == []
    ensures a + (b + t) == b + (a + t)
  {
    if a == [] {
      assert a + (b + t) == b + t;
    } else {
      assert b + (a + t) == a + t;
    }
  }

  /** The sort is stable: for every distance, the nodes at that distance keep their order. */
  lemma {:induction false} SortStable(g: Board, l: seq<Pos>, d: Dist)
    requires Shaped(g) && AllIn(l)
    ensures AtDistance(g, SortByDistance(g, l), d) == AtDistance(g, l, d)
  {
    if l != [] {
      SortStable(g, l[1..], d);
      InsertStable(g, l[0], SortByDistance(g, l[1..]), d);
    }
  }

  /** A permutation of a list without duplicates has none either. */
  lemma {:induction false} PermutationNoDup(a: seq<Pos>, b: seq<Pos>)
    requires NoDup(a) && multiset(a) == multiset(b)
    ensures NoDup(b)
  {
    if !NoDup(b) {
      var i, j :| 0 <= i < j < |b| && b[i] == b[j];
      var x := b[i];
      assert b == b[..i] + [x] + b[i + 1..j] + [x] + b[j + 1..];
      assert multiset(b)[x] >= 2;
      CountAtMostOne(a, x);
      assert false;
    }
  }

  lemma {:induction false} CountAtMostOne(a: seq<Pos>, x: Pos)
    requires NoDup(a)
    ensures multiset(a)[x] <= 1
  {
    if a != [] {
      assert a == [a[0]] + a[1..];
      assert NoDup(a[1..]);
      CountAtMostOne(a[1..], x);
      if a[0] == x {
        assert x !in a[1..];
        assert multiset(a[1..])[x] == 0;
      }
    }
  }
}

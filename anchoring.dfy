/**
 Reachability on the hex board as a value: walks through occupied cells and the anchoring
 they decide. A tile is connected to the top when some walk from it reaches the anchor
 row `nFulRowsTop - 1` (the last row of the packed region); the recursions of src/game.cpp
 search for such walks, and these definitions are what their results are proved against.
 */
module Anchoring {
  import opened Hex

  /** `q` is one of the six neighbour positions of `p`. */
  predicate Adjacent(p: Pos, q: Pos, even: bool)
  {
    q == Step(p, 0, even) || q == Step(p, 1, even) || q == Step(p, 2, even) ||
    q == Step(p, 3, even) || q == Step(p, 4, even) || q == Step(p, 5, even)
  }

  /** Each of the six steps leads to an adjacent cell. */
  lemma StepAdjacent(p: Pos, i: int, even: bool)
    requires 0 <= i < 6
    ensures Adjacent(p, Step(p, i, even), even)
  {
  }

  /** Adjacency is symmetric. */
  lemma AdjacentSymmetric(p: Pos, q: Pos, even: bool)
    requires Adjacent(p, q, even)
    ensures Adjacent(q, p, even)
  {
    var i :| 0 <= i < 6 && q == Step(p, i, even);
    StepReverse(p, i, even);
    assert Step(q, Reverse(i), even) == p;
  }

  /** A non-empty walk through the cells of `occ`, each step to an adjacent cell. */
  ghost predicate IsPath(occ: set<Pos>, even: bool, path: seq<Pos>)
  {
    && |path| > 0
    && (forall k :: 0 <= k < |path| ==> path[k] in occ)
    && (forall k :: 0 <= k < |path| - 1 ==> Adjacent(path[k], path[k + 1], even))
  }

  /** Some walk through `occ` leads from `x` to `y`. */
  ghost predicate Reaches(occ: set<Pos>, even: bool, x: Pos, y: Pos)
  {
    exists path: seq<Pos> :: IsPath(occ, even, path) && path[0] == x && path[|path| - 1] == y
  }

  /** Some walk through `occ` leads from `x` to a cell of the anchor row `top - 1`. */
  ghost predicate Anchored(occ: set<Pos>, even: bool, top: int, x: Pos)
  {
    exists path: seq<Pos> :: IsPath(occ, even, path) && path[0] == x && path[|path| - 1].row == top - 1
  }

  /** If the neighbour of `x` in direction `i` is occupied, it belongs to `k`. */
  ghost predicate NeighbourIn(occ: set<Pos>, even: bool, x: Pos, i: int, k: set<Pos>)
    requires 0 <= i < 6
  {
    Step(x, i, even) in occ ==> Step(x, i, even) in k
  }

  /** `x` lies off the anchor row and all its occupied neighbours are in `k`. */
  ghost predicate CellSealed(occ: set<Pos>, even: bool, top: int, x: Pos, k: set<Pos>)
  {
    x.row != top - 1 && forall i :: 0 <= i < 6 ==> NeighbourIn(occ, even, x, i, k)
  }

  /**
   Every occupied cell of `added` lies off the anchor row and has all its occupied
   neighbours in `k`: what an exhausted search leaves behind.
   */
  ghost predicate Sealed(occ: set<Pos>, even: bool, top: int, added: set<Pos>, k: set<Pos>)
  {
    forall x :: x in added && x in occ ==> CellSealed(occ, even, top, x, k)
  }

  /** A single cell is sealed once it is off the anchor row and its occupied neighbours are in `k`. */
  lemma SealedCell(occ: set<Pos>, even: bool, top: int, x: Pos, k: set<Pos>)
    requires x in occ ==> CellSealed(occ, even, top, x, k)
    ensures Sealed(occ, even, top, {x}, k)
  {
  }

  /** Sealed parts stay sealed in a larger visited set and can be joined. */
  lemma SealedJoin(occ: set<Pos>, even: bool, top: int, a: set<Pos>, k1: set<Pos>, b: set<Pos>, k2: set<Pos>)
    requires Sealed(occ, even, top, a, k1) && Sealed(occ, even, top, b, k2) && k1 <= k2
    ensures Sealed(occ, even, top, a + b, k2)
  {
    forall x | x in a && x in occ ensures CellSealed(occ, even, top, x, k2) {
      assert CellSealed(occ, even, top, x, k1);
      forall i | 0 <= i < 6 ensures NeighbourIn(occ, even, x, i, k2) {
        assert NeighbourIn(occ, even, x, i, k1);
      }
    }
  }

  /** The directions `0 .. i-1` of `x` lead only to cells of `k` or to empty cells. */
  ghost predicate NeighboursIn(occ: set<Pos>, even: bool, x: Pos, i: int, k: set<Pos>)
    requires i <= 6
  {
    forall j :: 0 <= j < i ==> NeighbourIn(occ, even, x, j, k)
  }

  /** Checking one more direction. */
  lemma NeighboursInNext(occ: set<Pos>, even: bool, x: Pos, i: int, a: set<Pos>, b: set<Pos>)
    requires 0 <= i < 6 && a <= b && NeighboursIn(occ, even, x, i, a) && NeighbourIn(occ, even, x, i, b)
    ensures NeighboursIn(occ, even, x, i + 1, b)
  {
    forall j | 0 <= j < i + 1 ensures NeighbourIn(occ, even, x, j, b) {
      if j < i {
        assert NeighbourIn(occ, even, x, j, a);
      }
    }
  }

  /**
   The bookkeeping of a search from `x` that started with `visited`: a finished
   sub-search (from `seen` to `v`) adds a sealed part to the sealed part found so far.
   */
  lemma SealedExtend(occ: set<Pos>, even: bool, top: int, visited: set<Pos>, x: Pos, seen: set<Pos>, v: set<Pos>)
    requires visited + {x} <= seen <= v
    requires Sealed(occ, even, top, seen - visited - {x}, seen) && Sealed(occ, even, top, v - seen, v)
    ensures Sealed(occ, even, top, v - visited - {x}, v)
  {
    SealedJoin(occ, even, top, seen - visited - {x}, seen, v - seen, v);
    assert v - visited - {x} == (seen - visited - {x}) + (v - seen);
  }

  /** Once `x` itself is sealed, all that the search from `x` added is sealed. */
  lemma SealedFinish(occ: set<Pos>, even: bool, top: int, visited: set<Pos>, x: Pos, k: set<Pos>)
    requires x in k && x !in visited
    requires x in occ ==> x.row != top - 1 && NeighboursIn(occ, even, x, 6, k)
    requires Sealed(occ, even, top, k - visited - {x}, k)
    ensures Sealed(occ, even, top, k - visited, k)
    ensures visited == {} ==> !Anchored(occ, even, top, x)
  {
    SealedCell(occ, even, top, x, k);
    SealedJoin(occ, even, top, {x}, k, k - visited - {x}, k);
    assert k - visited == {x} + (k - visited - {x});
    if visited == {} {
      assert k - visited == k;
      SealedRegionUnanchored(occ, even, top, k, x);
    }
  }

  /** Growing `k` keeps the directions already checked inside it. */
  lemma NeighboursInGrows(occ: set<Pos>, even: bool, x: Pos, i: int, a: set<Pos>, b: set<Pos>)
    requires 0 <= i <= 6 && a <= b && NeighboursIn(occ, even, x, i, a)
    ensures NeighboursIn(occ, even, x, i, b)
  {
    forall j | 0 <= j < i ensures NeighbourIn(occ, even, x, j, b) {
      assert NeighbourIn(occ, even, x, j, a);
    }
  }

  /** Growing `k` keeps the checked directions of the cells `xs[..i]`, and `xs[i]` joins them once all six of its are inside. */
  lemma AllNeighboursGrow(occ: set<Pos>, even: bool, xs: seq<Pos>, i: int, a: set<Pos>, b: set<Pos>)
    requires 0 <= i < |xs| && a <= b
    requires forall n :: 0 <= n < i ==> NeighboursIn(occ, even, xs[n], 6, a)
    requires NeighboursIn(occ, even, xs[i], 6, b)
    ensures forall n :: 0 <= n < i + 1 ==> NeighboursIn(occ, even, xs[n], 6, b)
  {
    forall n | 0 <= n < i + 1 ensures NeighboursIn(occ, even, xs[n], 6, b) {
      if n < i {
        NeighboursInGrows(occ, even, xs[n], 6, a, b);
      }
    }
  }

  /**
   Every cell of `region` that lies in `sel` is listed in `found` and has all its occupied
   neighbours in `k`: what a search that expands exactly the cells of `sel` leaves behind.
   */
  ghost predicate Spread(occ: set<Pos>, even: bool, sel: set<Pos>, region: set<Pos>, k: set<Pos>, found: seq<Pos>)
  {
    forall x {:trigger NeighboursIn(occ, even, x, 6, k)} ::
      x in region && x in sel ==> x in found && NeighboursIn(occ, even, x, 6, k)
  }

  /** The regions of two consecutive searches join, listed by both lists together. */
  lemma SpreadJoin(occ: set<Pos>, even: bool, sel: set<Pos>, a: set<Pos>, k1: set<Pos>, f1: seq<Pos>,
                   b: set<Pos>, k2: set<Pos>, f2: seq<Pos>)
    requires Spread(occ, even, sel, a, k1, f1) && Spread(occ, even, sel, b, k2, f2) && k1 <= k2
    ensures Spread(occ, even, sel, a + b, k2, f1 + f2)
  {
    forall x | x in a + b && x in sel ensures x in f1 + f2 && NeighboursIn(occ, even, x, 6, k2) {
      if x in a {
        assert NeighboursIn(occ, even, x, 6, k1);
        NeighboursInGrows(occ, even, x, 6, k1, k2);
      } else {
        assert NeighboursIn(occ, even, x, 6, k2);
      }
    }
  }

  /**
   One loop step of a search from `pos`: the search from its neighbour `i` (which visited
   `v - seen` and listed `more`) extends the region and the checked directions of `pos`.
   */
  lemma SpreadStep(occ: set<Pos>, even: bool, sel: set<Pos>, base: set<Pos>, pos: Pos, i: int,
                   seen: set<Pos>, added: seq<Pos>, v: set<Pos>, more: seq<Pos>)
    requires 0 <= i < 6 && base <= seen && seen + {Step(pos, i, even)} <= v
    requires Spread(occ, even, sel, seen - base, seen, added) && NeighboursIn(occ, even, pos, i, seen)
    requires Spread(occ, even, sel, v - seen, v, more)
    ensures Spread(occ, even, sel, v - base, v, added + more)
    ensures NeighboursIn(occ, even, pos, i + 1, v)
  {
    SpreadJoin(occ, even, sel, seen - base, seen, added, v - seen, v, more);
    assert (seen - base) + (v - seen) == v - base;
    NeighboursInNext(occ, even, pos, i, seen, v);
  }


  /** A search from `pos` that expanded `pos` whenever it lies in `sel` leaves everything it visited spread. */
  lemma SpreadFinish(occ: set<Pos>, even: bool, sel: set<Pos>, visited: set<Pos>, pos: Pos, k: set<Pos>, found: seq<Pos>)
    requires visited + {pos} <= k && Spread(occ, even, sel, k - visited - {pos}, k, found)
    requires pos in sel ==> pos in found && NeighboursIn(occ, even, pos, 6, k)
    ensures Spread(occ, even, sel, k - visited, k, found)
  {
    forall x | x in k - visited && x in sel ensures x in found && NeighboursIn(occ, even, x, 6, k) {
      if x != pos {
        assert NeighboursIn(occ, even, x, 6, k);
      }
    }
  }
  /**
   A visit of `pos` that lists it (when selected) ahead of what the search of its
   neighbours listed, and leaves them all visited, spreads over everything it visited.
   */
  lemma SpreadSeed(occ: set<Pos>, even: bool, sel: set<Pos>, visited: set<Pos>, pos: Pos, k: set<Pos>,
                   added: seq<Pos>, more: seq<Pos>)
    requires visited + {pos} <= k && Spread(occ, even, sel, k - (visited + {pos}), k, more)
    requires pos in sel ==> pos in added && NeighboursIn(occ, even, pos, 6, k)
    ensures Spread(occ, even, sel, k - visited, k, added + more)
  {
    forall x | x in k - visited && x in sel ensures x in added + more && NeighboursIn(occ, even, x, 6, k) {
      if x != pos {
        assert x in k - (visited + {pos}) && NeighboursIn(occ, even, x, 6, k);
      } else {
        assert x in added;
      }
    }
  }


  /** A walk through `sel` that starts in a region spread over itself stays in it, and every cell of it is listed. */
  lemma {:induction false} SpreadCovers(occ: set<Pos>, even: bool, sel: set<Pos>, k: set<Pos>, found: seq<Pos>,
                                        path: seq<Pos>, n: nat)
    requires sel <= occ && IsPath(sel, even, path) && path[0] in k && Spread(occ, even, sel, k, k, found)
    requires n < |path|
    ensures path[n] in k && path[n] in found
  {
    if n > 0 {
      SpreadCovers(occ, even, sel, k, found, path, n - 1);
      var i :| 0 <= i < 6 && path[n] == Step(path[n - 1], i, even);
      assert NeighboursIn(occ, even, path[n - 1], 6, k);
      assert NeighbourIn(occ, even, path[n - 1], i, k);
    }
    assert NeighboursIn(occ, even, path[n], 6, k);
  }

  /** Whatever a cell of such a region reaches through `sel` is listed. */
  lemma ReachesCovered(occ: set<Pos>, even: bool, sel: set<Pos>, k: set<Pos>, found: seq<Pos>, x: Pos, y: Pos)
    requires sel <= occ && Reaches(sel, even, x, y) && x in k && Spread(occ, even, sel, k, k, found)
    ensures y in found
  {
    var path: seq<Pos> :| IsPath(sel, even, path) && path[0] == x && path[|path| - 1] == y;
    SpreadCovers(occ, even, sel, k, found, path, |path| - 1);
  }

  /** Both ends of a walk are in the set it walks through. */
  lemma ReachesEnds(occ: set<Pos>, even: bool, x: Pos, y: Pos)
    requires Reaches(occ, even, x, y)
    ensures x in occ && y in occ
  {
    var path: seq<Pos> :| IsPath(occ, even, path) && path[0] == x && path[|path| - 1] == y;
  }

  /** The occupied cells that are not anchored. */
  ghost function Unanchored(occ: set<Pos>, even: bool, top: int): set<Pos>
  {
    set x | x in occ && !Anchored(occ, even, top, x)
  }

  /** A walk from an unanchored cell passes only unanchored cells. */
  lemma {:induction false} UnanchoredAlong(occ: set<Pos>, even: bool, top: int, path: seq<Pos>, n: nat)
    requires IsPath(occ, even, path) && !Anchored(occ, even, top, path[0]) && n < |path|
    ensures !Anchored(occ, even, top, path[n])
  {
    if n > 0 {
      UnanchoredAlong(occ, even, top, path, n - 1);
      AnchoredNeighbour(occ, even, top, path[n - 1], path[n]);
    }
  }

  /** From an unanchored cell, what is reached at all is reached through unanchored cells. */
  lemma ReachesUnanchored(occ: set<Pos>, even: bool, top: int, x: Pos, y: Pos)
    requires Reaches(occ, even, x, y) && !Anchored(occ, even, top, x)
    ensures Reaches(Unanchored(occ, even, top), even, x, y)
  {
    var path: seq<Pos> :| IsPath(occ, even, path) && path[0] == x && path[|path| - 1] == y;
    forall n | 0 <= n < |path| ensures path[n] in Unanchored(occ, even, top) {
      UnanchoredAlong(occ, even, top, path, n);
    }
    assert IsPath(Unanchored(occ, even, top), even, path);
  }

  lemma ReachesSelf(occ: set<Pos>, even: bool, x: Pos)
    requires x in occ
    ensures Reaches(occ, even, x, x)
  {
    assert IsPath(occ, even, [x]);
  }

  /** One step in front of a walk is a walk. */
  lemma ReachesPrepend(occ: set<Pos>, even: bool, x: Pos, y: Pos, z: Pos)
    requires x in occ && Adjacent(x, y, even) && Reaches(occ, even, y, z)
    ensures Reaches(occ, even, x, z)
  {
    var path: seq<Pos> :| IsPath(occ, even, path) && path[0] == y && path[|path| - 1] == z;
    var longer := [x] + path;
    assert forall k :: 0 <= k < |path| ==> longer[k + 1] == path[k];
    assert IsPath(occ, even, longer);
  }

  /** A cell that reaches an anchored cell is anchored (walks compose). */
  lemma ReachesAnchored(occ: set<Pos>, even: bool, top: int, x: Pos, y: Pos)
    requires Reaches(occ, even, x, y) && Anchored(occ, even, top, y)
    ensures Anchored(occ, even, top, x)
  {
    var p: seq<Pos> :| IsPath(occ, even, p) && p[0] == x && p[|p| - 1] == y;
    var q: seq<Pos> :| IsPath(occ, even, q) && q[0] == y && q[|q| - 1].row == top - 1;
    var joined := p + q[1..];
    assert forall k :: 0 <= k < |p| ==> joined[k] == p[k];
    assert forall k :: |p| <= k < |joined| ==> joined[k] == q[k - |p| + 1];
    assert IsPath(occ, even, joined) by {
      forall k | 0 <= k < |joined| - 1 ensures Adjacent(joined[k], joined[k + 1], even) {
        if k == |p| - 1 {
          assert joined[k] == q[0] && joined[k + 1] == q[1];
        }
      }
    }
    assert joined[|joined| - 1] == q[|q| - 1];
  }

  /** Whatever a neighbour of `x` reaches, `x` reaches. */
  lemma ReachesThroughStep(occ: set<Pos>, even: bool, x: Pos, i: int, s: seq<Pos>)
    requires 0 <= i < 6 && x in occ
    requires forall q :: q in s ==> Reaches(occ, even, Step(x, i, even), q)
    ensures forall q :: q in s ==> Reaches(occ, even, x, q)
  {
    StepAdjacent(x, i, even);
    forall q | q in s ensures Reaches(occ, even, x, q) {
      ReachesPrepend(occ, even, x, Step(x, i, even), q);
    }
  }

  /** Nothing an unanchored cell reaches is anchored. */
  lemma ReachedUnanchored(occ: set<Pos>, even: bool, top: int, x: Pos, s: seq<Pos>)
    requires !Anchored(occ, even, top, x)
    requires forall q :: q in s ==> Reaches(occ, even, x, q)
    ensures forall q :: q in s ==> !Anchored(occ, even, top, q)
  {
    forall q | q in s ensures !Anchored(occ, even, top, q) {
      if Anchored(occ, even, top, q) {
        ReachesAnchored(occ, even, top, x, q);
      }
    }
  }

  /** Occupied neighbours are both anchored or both not. */
  lemma AnchoredNeighbour(occ: set<Pos>, even: bool, top: int, x: Pos, y: Pos)
    requires x in occ && y in occ && Adjacent(x, y, even)
    ensures Anchored(occ, even, top, x) <==> Anchored(occ, even, top, y)
  {
    AdjacentSymmetric(x, y, even);
    ReachesSelf(occ, even, y);
    ReachesSelf(occ, even, x);
    if Anchored(occ, even, top, y) {
      ReachesPrepend(occ, even, x, y, y);
      ReachesAnchored(occ, even, top, x, y);
    }
    if Anchored(occ, even, top, x) {
      ReachesPrepend(occ, even, y, x, x);
      ReachesAnchored(occ, even, top, y, x);
    }
  }

  /** A walk that starts in a sealed region never leaves it. */
  lemma {:induction false} PathStaysInside(occ: set<Pos>, even: bool, top: int, k: set<Pos>, path: seq<Pos>, n: nat)
    requires IsPath(occ, even, path) && path[0] in k && Sealed(occ, even, top, k, k)
    requires n < |path|
    ensures path[n] in k
  {
    if n > 0 {
      PathStaysInside(occ, even, top, k, path, n - 1);
      var i :| 0 <= i < 6 && path[n] == Step(path[n - 1], i, even);
      assert CellSealed(occ, even, top, path[n - 1], k);
      assert NeighbourIn(occ, even, path[n - 1], i, k);
    }
    assert NeighboursIn(occ, even, path[n], 6, k);
  }

  /** No cell of a sealed region is anchored. */
  lemma SealedRegionUnanchored(occ: set<Pos>, even: bool, top: int, k: set<Pos>, x: Pos)
    requires Sealed(occ, even, top, k, k) && x in k
    ensures !Anchored(occ, even, top, x)
  {
    if Anchored(occ, even, top, x) {
      var path: seq<Pos> :| IsPath(occ, even, path) && path[0] == x && path[|path| - 1].row == top - 1;
      PathStaysInside(occ, even, top, k, path, |path| - 1);
      assert false;
    }
  }
}

/**
 The three depth-first searches of src/game.cpp over the board: the same-attribute flood
 fill `checkDropRecur`, the anchor search `isConnectedToTopRecur` and the orphan sweep
 `checkUnconnectedRecur`. None of them writes to the board, so each reads a snapshot of
 it (`g`, the storage as a value, with the parity flag `even`). Each marks a visited map
 before it looks at a cell; the map is passed in and handed back, and only its keys are
 ever consulted, so it is a set here. The drop lists are arenas appended in place.
 */
module Matching {
  import opened Hex
  import opened Arenas
  import opened Boards
  import opened Anchoring

  /** Marking one more real cell as visited leaves one fewer unvisited. */
  lemma VisitOne(v: set<Pos>, a: set<Pos>, x: Pos)
    requires x in v && x !in a
    ensures |v - (a + {x})| == |v - a| - 1
  {
    assert v - (a + {x}) == (v - a) - {x};
  }

  lemma {:induction false} SubsetCard(s: set<Pos>, t: set<Pos>)
    requires s <= t
    ensures |s| <= |t|
    decreases |s|
  {
    if s != {} {
      var x :| x in s;
      SubsetCard(s - {x}, t - {x});
    }
  }

  /** Visiting more cells never leaves more cells unvisited. */
  lemma FewerUnvisited(v: set<Pos>, a: set<Pos>, b: set<Pos>)
    requires a <= b
    ensures |v - b| <= |v - a|
  {
    SubsetCard(v - b, v - a);
  }

  /** The termination measure of the searches: a visit of an unvisited real cell shrinks it. */
  lemma Progress(v: set<Pos>, a: set<Pos>, b: set<Pos>, x: Pos)
    requires x in v && x !in a && a + {x} <= b
    ensures |v - b| < |v - a|
  {
    VisitOne(v, a, x);
    FewerUnvisited(v, a + {x}, b);
  }

  /** A cell the flood may collect: a real, occupied cell whose attribute `param` equals that of `thing`. */
  predicate Matches(g: Grid, even: bool, thing: Thing, param: int, q: Pos)
    requires IsGrid(g)
  {
    q in Occupancy(g, even) && CheckMatch(g[q.row][q.col].thing, thing, param)
  }

  /** No position occurs twice in `s`. */
  ghost predicate Distinct(s: seq<Pos>)
  {
    forall i, j :: 0 <= i < j < |s| ==> s[i] != s[j]
  }

  /**
   What one search appends: distinct positions, each unvisited before the search
   (`before`) and visited after it (`after`).
   */
  ghost predicate NewlyVisited(s: seq<Pos>, before: set<Pos>, after: set<Pos>)
  {
    Distinct(s) && forall q :: q in s ==> q !in before && q in after
  }

  /** The appends of two consecutive searches together are the appends of one. */
  lemma NewlyVisitedJoin(a: seq<Pos>, b: seq<Pos>, before: set<Pos>, mid: set<Pos>, after: set<Pos>)
    requires before <= mid <= after
    requires NewlyVisited(a, before, mid) && NewlyVisited(b, mid, after)
    ensures NewlyVisited(a + b, before, after)
  {
    forall i, j | 0 <= i < j < |a + b| ensures (a + b)[i] != (a + b)[j] {
      if j < |a| {
      } else if i >= |a| {
        assert (a + b)[i] == b[i - |a|] && (a + b)[j] == b[j - |a|];
      } else {
        assert (a + b)[i] == a[i] && a[i] in a;
        assert (a + b)[j] == b[j - |a|] && b[j - |a|] in b;
      }
    }
  }

  /** Appending `more` after `o + added` appends `added + more` after `o`. */
  lemma Regroup(o: seq<Pos>, added: seq<Pos>, more: seq<Pos>)
    ensures (o + added) + more == o + (added + more)
  {
  }

  /** The matching cells: the occupied real cells the flood may collect. */
  ghost function MatchSet(g: Grid, even: bool, thing: Thing, param: int): (m: set<Pos>)
    requires IsGrid(g)
    ensures forall q :: q in m <==> Matches(g, even, thing, param, q)
  {
    set q | q in Occupancy(g, even) && CheckMatch(g[q.row][q.col].thing, thing, param)
  }

  /**
   `q` belongs to the cluster a flood from `origin` collects: `origin` is a real cell and
   `q` is reached through matching cells (`m`) from it or, since the seed is passed
   through whatever it holds, from one of its neighbours.
   */
  ghost predicate InCluster(m: set<Pos>, even: bool, origin: Pos, q: Pos)
  {
    CheckBounds(even, origin) &&
    (Reaches(m, even, origin, q) || exists i :: 0 <= i < 6 && Reaches(m, even, Step(origin, i, even), q))
  }

  /** A cell of a cluster is a matching cell. */
  lemma ClusterMatches(m: set<Pos>, even: bool, origin: Pos, q: Pos)
    requires InCluster(m, even, origin, q)
    ensures q in m
  {
    if Reaches(m, even, origin, q) {
      ReachesEnds(m, even, origin, q);
    } else {
      var i :| 0 <= i < 6 && Reaches(m, even, Step(origin, i, even), q);
      ReachesEnds(m, even, Step(origin, i, even), q);
    }
  }

  /**
   `q` is reached through matching cells (`m`) from a neighbour of `origin`: what the
   flood collects past `origin` itself.
   */
  ghost predicate NearCluster(m: set<Pos>, even: bool, origin: Pos, q: Pos)
  {
    exists i :: 0 <= i < 6 && Reaches(m, even, Step(origin, i, even), q)
  }

  /**
   One loop step of `FloodNeighbours` around `pos`: the flood from its neighbour `i`
   (which visited `v - seen` and appended `sub`) keeps the loop invariant.
   */
  lemma FloodStep(occ: set<Pos>, m: set<Pos>, even: bool, base: set<Pos>, pos: Pos, i: int,
                  seen: set<Pos>, more: seq<Pos>, v: set<Pos>, sub: seq<Pos>)
    requires 0 <= i < 6 && base <= seen && seen + {Step(pos, i, even)} <= v
    requires NewlyVisited(more, base, seen) && NewlyVisited(sub, seen, v)
    requires Spread(occ, even, m, seen - base, seen, more) && NeighboursIn(occ, even, pos, i, seen)
    requires Spread(occ, even, m, v - seen, v, sub)
    requires forall q :: q in more ==> NearCluster(m, even, pos, q)
    requires forall q :: q in sub ==> Reaches(m, even, Step(pos, i, even), q)
    ensures NewlyVisited(more + sub, base, v)
    ensures Spread(occ, even, m, v - base, v, more + sub) && NeighboursIn(occ, even, pos, i + 1, v)
    ensures forall q :: q in more + sub ==> NearCluster(m, even, pos, q)
  {
    NewlyVisitedJoin(more, sub, base, seen, v);
    SpreadStep(occ, even, m, base, pos, i, seen, more, v, sub);
    forall q | q in sub ensures NearCluster(m, even, pos, q) {
      assert Reaches(m, even, Step(pos, i, even), q);
    }
  }

  /**
   A visit of `pos` that lists `pos` itself when it matches (`added`) and then what the
   floods from its neighbours listed (`more`) keeps, for the whole visit, the facts each
   part establishes. Past the seed, `pos` matches and everything listed is reached from
   it; from the seed, everything listed is in its cluster.
   */
  lemma SeedFlooded(occ: set<Pos>, m: set<Pos>, even: bool, first: bool, visited: set<Pos>, pos: Pos,
                    k: set<Pos>, added: seq<Pos>, more: seq<Pos>)
    requires CheckBounds(even, pos) && pos !in visited && visited + {pos} <= k
    requires added == [] || added == [pos]
    requires pos in m <==> added == [pos]
    requires !first ==> added == [pos]
    requires NewlyVisited(more, visited + {pos}, k)
    requires Spread(occ, even, m, k - (visited + {pos}), k, more) && NeighboursIn(occ, even, pos, 6, k)
    requires forall q :: q in more ==> NearCluster(m, even, pos, q)
    ensures NewlyVisited(added + more, visited, k)
    ensures Spread(occ, even, m, k - visited, k, added + more)
    ensures !first ==> forall q :: q in added + more ==> Reaches(m, even, pos, q)
    ensures first ==> forall q :: q in added + more ==> InCluster(m, even, pos, q)
  {
    NewlyVisitedJoin(added, more, visited, visited + {pos}, k);
    SpreadSeed(occ, even, m, visited, pos, k, added, more);
    if added == [pos] {
      ReachesSelf(m, even, pos);
    }
    forall q | q in more ensures Reaches(m, even, pos, q) || !(pos in m) {
      if pos in m {
        var i :| 0 <= i < 6 && Reaches(m, even, Step(pos, i, even), q);
        ReachesThroughStep(m, even, pos, i, [q]);
      }
    }
  }

  /**
   `checkDropRecur`: unless `pos` was visited, marks it and, when it is a real cell that
   matches (or is the pass-through seed, `first`), appends it if it matches and floods
   its occupied neighbours. Whatever it appends was unvisited on entry and is visited on
   exit, so no cell is appended twice, and appending never outruns the shrinking set of
   unvisited real cells: the arena cannot overflow. Everything appended is reached from
   `pos` through matching cells, and every matching cell it visits is appended with all
   its occupied neighbours visited (as are the seed's).
   */
  method CheckDropRecur(g: Grid, even: bool, pos: Pos, thing: Thing, param: int, todrop: Arena<Pos>,
                        visited: set<Pos>, first: bool := true) returns (visited': set<Pos>, ghost appended: seq<Pos>)
    requires IsGrid(g) && todrop.Valid()
    requires todrop.count + |ValidCells(even) - visited| <= todrop.CAP
    modifies todrop`count, todrop.data
    ensures todrop.Valid() && visited + {pos} <= visited'
    ensures todrop.count + |ValidCells(even) - visited'| <= old(todrop.count) + |ValidCells(even) - visited|
    ensures todrop.Contents() == old(todrop.Contents()) + appended
    ensures NewlyVisited(appended, visited, visited')
    ensures Spread(Occupancy(g, even), even, MatchSet(g, even, thing, param), visited' - visited, visited', appended)
    ensures first && pos !in visited && CheckBounds(even, pos) ==>
              NeighboursIn(Occupancy(g, even), even, pos, 6, visited')
    ensures !first ==> forall q :: q in appended ==> Reaches(MatchSet(g, even, thing, param), even, pos, q)
    ensures first ==> forall q :: q in appended ==> InCluster(MatchSet(g, even, thing, param), even, pos, q)
    decreases |ValidCells(even) - visited|, 1
  {
    if pos in visited {
      assert old(todrop.Contents()) + [] == old(todrop.Contents());
      return visited, [];
    }
    visited' := visited + {pos};
    ghost var v := ValidCells(even);
    ghost var occ := Occupancy(g, even);
    ghost var m := MatchSet(g, even, thing, param);
    ghost var added: seq<Pos> := [];
    assert old(todrop.Contents()) + added == old(todrop.Contents());
    FewerUnvisited(v, visited, visited');
    if CheckBounds(even, pos) {
      var tile := g[pos.row][pos.col];
      var matched := CheckMatch(tile.thing, thing, param);
      if (tile.ref.present && matched) || first {
        VisitOne(v, visited, pos);
        if tile.ref.present && matched {
          var _ := todrop.Acquire(pos);
          added := [pos];
        }
        ghost var more: seq<Pos>;
        visited', more := FloodNeighbours(g, even, pos, thing, param, todrop, visited');
        Regroup(old(todrop.Contents()), added, more);
        SeedFlooded(occ, m, even, first, visited, pos, visited', added, more);
        added := added + more;
      } else {
        SpreadFinish(occ, even, m, visited, pos, visited', added);
      }
    } else {
      SpreadFinish(occ, even, m, visited, pos, visited', added);
    }
    appended := added;
  }

  /**
   The neighbour loop of `checkDropRecur` around the real cell `pos` (already marked in
   `visited0`): floods each occupied neighbour in turn. It leaves all of them visited,
   and everything it appends is reached through matching cells from one of them.
   */
  method FloodNeighbours(g: Grid, even: bool, pos: Pos, thing: Thing, param: int, todrop: Arena<Pos>,
                         visited0: set<Pos>) returns (visited': set<Pos>, ghost more: seq<Pos>)
    requires IsGrid(g) && todrop.Valid()
    requires todrop.count + |ValidCells(even) - visited0| <= todrop.CAP
    modifies todrop`count, todrop.data
    ensures todrop.Valid() && visited0 <= visited'
    ensures todrop.count + |ValidCells(even) - visited'| <= old(todrop.count) + |ValidCells(even) - visited0|
    ensures todrop.Contents() == old(todrop.Contents()) + more
    ensures NewlyVisited(more, visited0, visited')
    ensures Spread(Occupancy(g, even), even, MatchSet(g, even, thing, param), visited' - visited0, visited', more)
    ensures NeighboursIn(Occupancy(g, even), even, pos, 6, visited')
    ensures forall q :: q in more ==> NearCluster(MatchSet(g, even, thing, param), even, pos, q)
    decreases |ValidCells(even) - visited0| + 1, 0
  {
    ghost var v := ValidCells(even);
    ghost var occ := Occupancy(g, even);
    ghost var m := MatchSet(g, even, thing, param);
    visited' := visited0;
    more := [];
    assert old(todrop.Contents()) + more == old(todrop.Contents());
    var ns := Neighs(g, even, pos);
    var i := 0;
    while i < 6
      invariant 0 <= i <= 6
      invariant todrop.Valid() && visited0 <= visited'
      invariant todrop.count + |v - visited'| <= old(todrop.count) + |v - visited0|
      invariant todrop.Contents() == old(todrop.Contents()) + more
      invariant NewlyVisited(more, visited0, visited')
      invariant Spread(occ, even, m, visited' - visited0, visited', more)
      invariant NeighboursIn(occ, even, pos, i, visited')
      invariant forall q :: q in more ==> NearCluster(m, even, pos, q)
    {
      if ns[i].present {
        ghost var seen := visited';
        ghost var sub: seq<Pos>;
        FewerUnvisited(v, visited0, visited');
        visited', sub := CheckDropRecur(g, even, ns[i].pos, thing, param, todrop, visited', false);
        Regroup(old(todrop.Contents()), more, sub);
        FloodStep(occ, m, even, visited0, pos, i, seen, more, visited', sub);
        more := more + sub;
      } else {
        NeighboursInNext(occ, even, pos, i, visited', visited');
      }
      i := i + 1;
    }
  }

  /**
   A flood from `pos` that lists only cells of its cluster, and leaves everything it
   visited spread over the matching cells with the occupied neighbours of a real seed
   visited, has listed exactly its cluster.
   */
  lemma FloodComplete(g: Grid, even: bool, thing: Thing, param: int, pos: Pos, k: set<Pos>, found: seq<Pos>)
    requires IsGrid(g) && pos in k
    requires Spread(Occupancy(g, even), even, MatchSet(g, even, thing, param), k, k, found)
    requires CheckBounds(even, pos) ==> NeighboursIn(Occupancy(g, even), even, pos, 6, k)
    requires forall q :: q in found ==> InCluster(MatchSet(g, even, thing, param), even, pos, q)
    ensures forall q :: q in found <==> InCluster(MatchSet(g, even, thing, param), even, pos, q)
  {
    var occ := Occupancy(g, even);
    var m := MatchSet(g, even, thing, param);
    assert m <= occ;
    forall q | InCluster(m, even, pos, q) ensures q in found {
      if Reaches(m, even, pos, q) {
        ReachesCovered(occ, even, m, k, found, pos, q);
      } else {
        var i :| 0 <= i < 6 && Reaches(m, even, Step(pos, i, even), q);
        ReachesEnds(m, even, Step(pos, i, even), q);
        assert NeighbourIn(occ, even, pos, i, k);
        ReachesCovered(occ, even, m, k, found, Step(pos, i, even), q);
      }
    }
  }

  /**
   `isConnectedToTopRecur`: whether `pos` leads through occupied cells to the anchor row
   `top - 1` (`nFulRowsTop - 1`), searching only cells not yet visited. A visited cell
   answers `false` whatever was recorded for it. A `true` answer is always backed by a
   walk to the anchor row; a `false` answer leaves every occupied cell it visited off the
   anchor row with all its occupied neighbours visited. Started with nothing visited, it
   is therefore exact.
   */
  method IsConnectedToTopRecur(g: Grid, even: bool, top: int, pos: Pos, visited: set<Pos>)
    returns (connected: bool, visited': set<Pos>)
    requires IsGrid(g)
    ensures visited + {pos} <= visited'
    ensures pos in visited ==> !connected && visited' == visited
    ensures connected ==> Anchored(Occupancy(g, even), even, top, pos)
    ensures !connected ==> Sealed(Occupancy(g, even), even, top, visited' - visited, visited')
    ensures visited == {} ==> (connected <==> Anchored(Occupancy(g, even), even, top, pos))
    decreases |ValidCells(even) - visited|
  {
    if pos in visited {
      return false, visited;
    }
    ghost var occ := Occupancy(g, even);
    visited' := visited + {pos};
    connected := false;
    if CheckBounds(even, pos) && g[pos.row][pos.col].ref.present {
      connected := pos.row == top - 1;
      if connected {
        assert IsPath(occ, even, [pos]);
      }
      var ns := Neighs(g, even, pos);
      var i := 0;
      while i < 6
        invariant 0 <= i <= 6 && visited + {pos} <= visited'
        invariant connected ==> Anchored(occ, even, top, pos)
        invariant !connected ==> pos.row != top - 1
        invariant !connected ==> Sealed(occ, even, top, visited' - visited - {pos}, visited')
        invariant !connected ==> NeighboursIn(occ, even, pos, i, visited')
      {
        if ns[i].present && !connected {
          ghost var seen := visited';
          Progress(ValidCells(even), visited, visited', pos);
          var c, v := IsConnectedToTopRecur(g, even, top, ns[i].pos, visited');
          NeighbourSearched(occ, even, top, visited, pos, i, seen, c, v);
          connected := c;
          visited' := v;
        } else if !connected {
          NeighboursInNext(occ, even, pos, i, visited', visited');
        }
        i := i + 1;
      }
      if !connected {
        SealedFinish(occ, even, top, visited, pos, visited');
      }
    } else {
      SealedFinish(occ, even, top, visited, pos, visited');
    }
  }

  /**
   The anchor test of `checkUnconnectedRecur`, run with a fresh visited map (`visCon`):
   exactly whether `pos` is an occupied cell linked to the anchor row.
   */
  method IsConnectedToTop(g: Grid, even: bool, top: int, pos: Pos) returns (connected: bool)
    requires IsGrid(g)
    ensures connected <==> Anchored(Occupancy(g, even), even, top, pos)
  {
    var visCon;
    connected, visCon := IsConnectedToTopRecur(g, even, top, pos, {});
  }

  /** One loop step of `IsConnectedToTopRecur`: the search from neighbour `i` of `pos` keeps the loop invariant. */
  lemma NeighbourSearched(occ: set<Pos>, even: bool, top: int, visited: set<Pos>, pos: Pos, i: int,
                          seen: set<Pos>, c: bool, v: set<Pos>)
    requires 0 <= i < 6 && pos in occ && Step(pos, i, even) in occ
    requires visited + {pos} <= seen && NeighboursIn(occ, even, pos, i, seen)
    requires Sealed(occ, even, top, seen - visited - {pos}, seen)
    requires seen + {Step(pos, i, even)} <= v
    requires c ==> Anchored(occ, even, top, Step(pos, i, even))
    requires !c ==> Sealed(occ, even, top, v - seen, v)
    ensures visited + {pos} <= v
    ensures c ==> Anchored(occ, even, top, pos)
    ensures !c ==> Sealed(occ, even, top, v - visited - {pos}, v) && NeighboursIn(occ, even, pos, i + 1, v)
  {
    if c {
      AnchoredNeighbour(occ, even, top, pos, Step(pos, i, even));
    } else {
      SealedExtend(occ, even, top, visited, pos, seen, v);
      NeighboursInNext(occ, even, pos, i, seen, v);
    }
  }

  /**
   One loop step of `SweepNeighbours` around the occupied cell `pos`: the sweep from its
   neighbour `i` (which visited `v - seen` and appended `sub`) keeps the loop invariant.
   */
  lemma SweepStep(occ: set<Pos>, even: bool, base: set<Pos>, pos: Pos, i: int,
                  seen: set<Pos>, more: seq<Pos>, v: set<Pos>, sub: seq<Pos>)
    requires 0 <= i < 6 && pos in occ
    requires base <= seen && seen + {Step(pos, i, even)} <= v
    requires NewlyVisited(more, base, seen) && NewlyVisited(sub, seen, v)
    requires Spread(occ, even, occ, seen - base, seen, more) && NeighboursIn(occ, even, pos, i, seen)
    requires Spread(occ, even, occ, v - seen, v, sub)
    requires forall q :: q in more ==> q in occ && Reaches(occ, even, pos, q)
    requires forall q :: q in sub ==> q in occ && Reaches(occ, even, Step(pos, i, even), q)
    ensures NewlyVisited(more + sub, base, v)
    ensures Spread(occ, even, occ, v - base, v, more + sub) && NeighboursIn(occ, even, pos, i + 1, v)
    ensures forall q :: q in more + sub ==> q in occ && Reaches(occ, even, pos, q)
  {
    NewlyVisitedJoin(more, sub, base, seen, v);
    SpreadStep(occ, even, occ, base, pos, i, seen, more, v, sub);
    ReachesThroughStep(occ, even, pos, i, sub);
  }

  /**
   A sweep that appends the occupied cell `pos` and then what the sweeps of its
   neighbours appended keeps, for the whole visit, the facts each part establishes.
   */
  lemma SeedSwept(occ: set<Pos>, even: bool, visited: set<Pos>, pos: Pos, k: set<Pos>, more: seq<Pos>)
    requires pos in occ && pos !in visited && visited + {pos} <= k
    requires NewlyVisited(more, visited + {pos}, k)
    requires forall q :: q in more ==> q in occ && Reaches(occ, even, pos, q)
    requires Spread(occ, even, occ, k - (visited + {pos}), k, more) && NeighboursIn(occ, even, pos, 6, k)
    ensures NewlyVisited([pos] + more, visited, k)
    ensures forall q :: q in [pos] + more ==> q in occ && Reaches(occ, even, pos, q)
    ensures Spread(occ, even, occ, k - visited, k, [pos] + more)
  {
    ReachesSelf(occ, even, pos);
    NewlyVisitedJoin([pos], more, visited, visited + {pos}, k);
    SpreadSeed(occ, even, occ, visited, pos, k, [pos], more);
  }

  /**
   `checkUnconnectedRecur`: unless `pos` was visited, marks it and, when it is a real cell
   that is either past the seed (`check` false) or not connected to the top (tested with a
   fresh visited map), appends it if occupied and sweeps its occupied neighbours without
   testing them again. Everything appended is occupied, distinct and reachable from `pos`.
   Once past the test, every occupied cell it visits is appended with all its occupied
   neighbours visited; a tested seed that appends nothing was visited before, is empty,
   or is anchored.
   */
  method CheckUnconnectedRecur(g: Grid, even: bool, top: int, pos: Pos, visited: set<Pos>, uncon: Arena<Pos>,
                               check: bool := true) returns (visited': set<Pos>, ghost appended: seq<Pos>)
    requires IsGrid(g) && uncon.Valid()
    requires uncon.count + |ValidCells(even) - visited| <= uncon.CAP
    modifies uncon`count, uncon.data
    ensures uncon.Valid() && visited + {pos} <= visited'
    ensures uncon.count + |ValidCells(even) - visited'| <= old(uncon.count) + |ValidCells(even) - visited|
    ensures uncon.Contents() == old(uncon.Contents()) + appended
    ensures NewlyVisited(appended, visited, visited')
    ensures forall q :: q in appended ==>
              q in Occupancy(g, even) && Reaches(Occupancy(g, even), even, pos, q)
    ensures !check || |appended| > 0 ==>
              Spread(Occupancy(g, even), even, Occupancy(g, even), visited' - visited, visited', appended)
    ensures check && |appended| > 0 ==> !Anchored(Occupancy(g, even), even, top, pos)
    ensures check && |appended| == 0 ==>
              visited' - visited <= {pos} &&
              (pos !in visited && pos in Occupancy(g, even) ==> Anchored(Occupancy(g, even), even, top, pos))
    decreases |ValidCells(even) - visited|, 1
  {
    if pos in visited {
      assert old(uncon.Contents()) + [] == old(uncon.Contents());
      return visited, [];
    }
    visited' := visited + {pos};
    ghost var v := ValidCells(even);
    ghost var occ := Occupancy(g, even);
    ghost var added: seq<Pos> := [];
    assert old(uncon.Contents()) + added == old(uncon.Contents());
    FewerUnvisited(v, visited, visited');
    if CheckBounds(even, pos) {
      var go := true;
      if check {
        var c := IsConnectedToTop(g, even, top, pos);
        go := !c;
      }
      if go && g[pos.row][pos.col].ref.present {
        VisitOne(v, visited, pos);
        var _ := uncon.Acquire(pos);
        ghost var more: seq<Pos>;
        visited', more := SweepNeighbours(g, even, top, pos, uncon, visited');
        Regroup(old(uncon.Contents()), [pos], more);
        SeedSwept(occ, even, visited, pos, visited', more);
        added := [pos] + more;
      } else if !check {
        SpreadFinish(occ, even, occ, visited, pos, visited', added);
      }
    } else {
      SpreadFinish(occ, even, occ, visited, pos, visited', added);
    }
    appended := added;
  }

  /**
   The neighbour loop of `checkUnconnectedRecur` around the occupied cell `pos` (already
   marked in `visited0`): sweeps each occupied neighbour in turn, untested. It leaves all
   of them visited, and everything it appends is occupied and reached from `pos`.
   */
  method SweepNeighbours(g: Grid, even: bool, top: int, pos: Pos, uncon: Arena<Pos>, visited0: set<Pos>)
    returns (visited': set<Pos>, ghost more: seq<Pos>)
    requires IsGrid(g) && uncon.Valid() && pos in Occupancy(g, even)
    requires uncon.count + |ValidCells(even) - visited0| <= uncon.CAP
    modifies uncon`count, uncon.data
    ensures uncon.Valid() && visited0 <= visited'
    ensures uncon.count + |ValidCells(even) - visited'| <= old(uncon.count) + |ValidCells(even) - visited0|
    ensures uncon.Contents() == old(uncon.Contents()) + more
    ensures NewlyVisited(more, visited0, visited')
    ensures forall q :: q in more ==> q in Occupancy(g, even) && Reaches(Occupancy(g, even), even, pos, q)
    ensures Spread(Occupancy(g, even), even, Occupancy(g, even), visited' - visited0, visited', more)
    ensures NeighboursIn(Occupancy(g, even), even, pos, 6, visited')
    decreases |ValidCells(even) - visited0| + 1, 0
  {
    ghost var v := ValidCells(even);
    ghost var occ := Occupancy(g, even);
    visited' := visited0;
    more := [];
    assert old(uncon.Contents()) + more == old(uncon.Contents());
    var ns := Neighs(g, even, pos);
    var i := 0;
    while i < 6
      invariant 0 <= i <= 6
      invariant uncon.Valid() && visited0 <= visited'
      invariant uncon.count + |v - visited'| <= old(uncon.count) + |v - visited0|
      invariant uncon.Contents() == old(uncon.Contents()) + more
      invariant NewlyVisited(more, visited0, visited')
      invariant forall q :: q in more ==> q in occ && Reaches(occ, even, pos, q)
      invariant Spread(occ, even, occ, visited' - visited0, visited', more)
      invariant NeighboursIn(occ, even, pos, i, visited')
    {
      if ns[i].present {
        ghost var seen := visited';
        ghost var sub: seq<Pos>;
        FewerUnvisited(v, visited0, visited');
        visited', sub := CheckUnconnectedRecur(g, even, top, ns[i].pos, visited', uncon, false);
        Regroup(old(uncon.Contents()), more, sub);
        SweepStep(occ, even, visited0, pos, i, seen, more, visited', sub);
        more := more + sub;
      } else {
        NeighboursInNext(occ, even, pos, i, visited', visited');
      }
      i := i + 1;
    }
  }
}

/**
 The level invariant shared by breadth-first and uniform-cost search. With
 unit moves both pop cells in non-decreasing depth, so at any time there is a
 level `L` such that the frontier holds depths `L` and `L + 1` only, every
 cell shallower than `L` has been expanded, and an expanded cell's valid
 neighbours all have a parent at most one level below it. From this follow
 minimality when the target is popped and "no route" when the frontier
 empties.
 */
module Layers {
  import opened Wrappers
  import opened Grid
  import opened Paths
  import opened Expansion

  /** Every valid neighbour of `u` has been given a parent. */
  ghost predicate Closed(g: Grid, parent: ParentMap, u: Pos)
  {
    forall i :: 0 <= i < |Moves| && IsValid(g, Step(u, Moves[i])) ==> Step(u, Moves[i]) in parent
  }

  /** Adding cells to the tree keeps closed cells closed. */
  lemma ClosedGrows(g: Grid, parent: ParentMap, parent': ParentMap, cells: set<Pos>)
    requires parent.Keys <= parent'.Keys
    requires forall u :: u in cells ==> Closed(g, parent, u)
    ensures forall u :: u in cells ==> Closed(g, parent', u)
  {
  }

  /** Every valid neighbour of `u` has a parent and depth at most `D[u] + 1`. */
  ghost predicate ClosedWithin(g: Grid, parent: ParentMap, D: map<Pos, nat>, u: Pos)
  {
    && u in D
    && Closed(g, parent, u)
    && forall i :: 0 <= i < |Moves| && IsValid(g, Step(u, Moves[i])) && Step(u, Moves[i]) in D ==>
         D[Step(u, Moves[i])] <= D[u] + 1
  }

  /** The invariant of a breadth-first style search with frontier cells `F`,
      expanded cells `explored`, and current level `L`. */
  ghost predicate Layered(g: Grid, start: Pos, target: Pos, parent: ParentMap, D: map<Pos, nat>,
                          explored: set<Pos>, F: set<Pos>, L: nat)
  {
    && Tree(g, start, parent, D)
    && explored <= parent.Keys
    && F <= parent.Keys
    && target !in explored
    && (forall v :: v in F ==> L <= D[v] <= L + 1)
    && (forall v :: v in parent ==> D[v] <= L + 1)
    && (forall v :: v in parent && D[v] < L ==> v in explored)
    && (forall v :: v in parent ==> v in explored || v in F)
    && (forall u :: u in explored ==> ClosedWithin(g, parent, D, u))
  }

  /** No cell lies deeper than one level below the current one. */
  lemma LayeredBounded(g: Grid, start: Pos, target: Pos, parent: ParentMap, D: map<Pos, nat>,
                       explored: set<Pos>, F: set<Pos>, L: nat)
    requires Layered(g, start, target, parent, D, explored, F, L)
    ensures D.Keys == parent.Keys && forall k :: k in D ==> D[k] <= L + 1
  {
  }

  /** The state every search starts from: only `start`, at depth 0, on the frontier. */
  lemma LayeredInit(g: Grid, start: Pos, target: Pos)
    ensures Layered(g, start, target, map[start := None], map[start := 0], {}, {start}, 0)
  {
  }

  /** Popping a frontier cell of least depth moves the level up to its depth. */
  lemma LayeredRaise(g: Grid, start: Pos, target: Pos, parent: ParentMap, D: map<Pos, nat>,
                     explored: set<Pos>, F: set<Pos>, L: nat, c: Pos)
    requires Layered(g, start, target, parent, D, explored, F, L)
    requires c in F
    requires forall f :: f in F ==> D[c] <= D[f]
    ensures Layered(g, start, target, parent, D, explored, F, D[c])
  {
  }

  /**
   Expanding the popped cell `c` at the current level admits its fresh valid
   neighbours at depth `L + 1` and keeps the invariant; the new frontier is
   the old one with the admitted cells added and `c` possibly removed.
   */
  lemma LayeredExpand(g: Grid, start: Pos, target: Pos, parent: ParentMap, D: map<Pos, nat>,
                      explored: set<Pos>, F: set<Pos>, L: nat, c: Pos, a: Admission, F': set<Pos>)
    requires Layered(g, start, target, parent, D, explored, F, L)
    requires c in F && D[c] == L && c !in explored && c != target
    requires a == Admit(g, parent, c, Moves, {})
    requires (F - {c}) + Elements(a.admitted) <= F' <= F + Elements(a.admitted)
    ensures Layered(g, start, target, a.parent, Extend(D, a.admitted, L + 1), explored + {c}, F', L)
  {
    var D' := Extend(D, a.admitted, L + 1);
    TreeGrow(g, start, parent, D, c, Moves, {}, a);
    assert Tree(g, start, a.parent, D');
    ExpandCloses(g, start, target, parent, D, explored, F, L, c, a, D');
    ExpandLevels(g, start, target, parent, D, explored, F, L, c, a, D', F');
    LayeredFrom(g, start, target, a.parent, D', explored + {c}, F', L);
  }

  /** `Layered` from its parts. */
  lemma LayeredFrom(g: Grid, start: Pos, target: Pos, parent: ParentMap, D: map<Pos, nat>,
                    explored: set<Pos>, F: set<Pos>, L: nat)
    requires Tree(g, start, parent, D)
    requires explored <= parent.Keys && F <= parent.Keys && target !in explored
    requires forall v :: v in F ==> L <= D[v] <= L + 1
    requires forall v :: v in parent ==> D[v] <= L + 1
    requires forall v :: v in parent && D[v] < L ==> v in explored
    requires forall v :: v in parent ==> v in explored || v in F
    requires forall u :: u in explored ==> ClosedWithin(g, parent, D, u)
    ensures Layered(g, start, target, parent, D, explored, F, L)
  {
  }

  /** After the expansion of `c` the frontier still spans levels `L` and `L + 1`,
      nothing is deeper than `L + 1`, and every parented cell is expanded or on the frontier. */
  lemma ExpandLevels(g: Grid, start: Pos, target: Pos, parent: ParentMap, D: map<Pos, nat>,
                     explored: set<Pos>, F: set<Pos>, L: nat, c: Pos, a: Admission, D': map<Pos, nat>,
                     F': set<Pos>)
    requires Layered(g, start, target, parent, D, explored, F, L)
    requires c in F && D[c] == L
    requires a == Admit(g, parent, c, Moves, {})
    requires D' == Extend(D, a.admitted, L + 1)
    requires (F - {c}) + Elements(a.admitted) <= F' <= F + Elements(a.admitted)
    ensures F' <= a.parent.Keys
    ensures forall v :: v in F' ==> v in D' && L <= D'[v] <= L + 1
    ensures forall v :: v in a.parent ==> v in D' && D'[v] <= L + 1
    ensures forall v :: v in a.parent && D'[v] < L ==> v in explored + {c}
    ensures forall v :: v in a.parent ==> v in explored + {c} || v in F'
  {
    var p' := a.parent;
    assert forall k :: k in p' && k !in parent ==> D'[k] == L + 1;
    forall v | v in p'
      ensures v in explored + {c} || v in F'
    {
      if v !in parent {
        assert v in Elements(a.admitted);
      }
    }
  }

  /** After the expansion of `c`, `c` and every cell expanded before are closed within one level. */
  lemma ExpandCloses(g: Grid, start: Pos, target: Pos, parent: ParentMap, D: map<Pos, nat>,
                     explored: set<Pos>, F: set<Pos>, L: nat, c: Pos, a: Admission, D': map<Pos, nat>)
    requires Layered(g, start, target, parent, D, explored, F, L)
    requires c in F && D[c] == L
    requires a == Admit(g, parent, c, Moves, {})
    requires D' == Extend(D, a.admitted, L + 1)
    ensures forall u :: u in explored + {c} ==> ClosedWithin(g, a.parent, D', u)
  {
    AdmitMeet(g, parent, c, Moves, {}, a);
    AdmitCovers(g, parent, c, Moves, {});
    var p' := a.parent;
    assert forall k :: k in p' && k !in parent ==> D'[k] == L + 1;
    forall u | u in explored + {c}
      ensures ClosedWithin(g, p', D', u)
    {
      if u != c {
        assert ClosedWithin(g, parent, D, u);
      }
    }
  }

  /** Popping a cell that was already expanded (a stale entry) keeps the invariant. */
  lemma LayeredSkip(g: Grid, start: Pos, target: Pos, parent: ParentMap, D: map<Pos, nat>,
                    explored: set<Pos>, F: set<Pos>, L: nat, c: Pos, F': set<Pos>)
    requires Layered(g, start, target, parent, D, explored, F, L)
    requires c in explored
    requires F - {c} <= F' <= F
    ensures Layered(g, start, target, parent, D, explored, F', L)
  {
  }

  /** Along a route that starts at `start`, as long as the cells behind are
      shallower than `L` (so expanded), the k-th cell has a parent and depth at most k. */
  lemma {:induction false} RouteDepth(g: Grid, start: Pos, parent: ParentMap, D: map<Pos, nat>,
                                      explored: set<Pos>, L: nat, w: seq<Pos>, k: nat)
    requires start in parent && parent.Keys == D.Keys && D[start] == 0
    requires forall v :: v in parent && D[v] < L ==> v in explored
    requires forall u :: u in explored ==> ClosedWithin(g, parent, D, u)
    requires |w| > 0 && w[0] == start && Chained(w) && forall i :: 0 < i < |w| ==> IsValid(g, w[i])
    requires k < |w| && k <= L
    ensures w[k] in parent && D[w[k]] <= k
  {
    if k > 0 {
      RouteDepth(g, start, parent, D, explored, L, w, k - 1);
      var u := w[k - 1];
      assert u in explored;
      assert Adjacent(u, w[k]);
      var j := AdjacentIsStep(u, w[k]);
      assert ClosedWithin(g, parent, D, u);
    }
  }

  /** When the target is popped at the current level, no route to it is shorter
      than the tree path, which has `L + 1` cells. */
  lemma LayeredShortest(g: Grid, start: Pos, target: Pos, parent: ParentMap, D: map<Pos, nat>,
                        explored: set<Pos>, F: set<Pos>, L: nat)
    requires Layered(g, start, target, parent, D, explored, F, L)
    requires target in parent && D[target] == L
    ensures forall w :: Route(g, start, target, w) ==> |w| >= L + 1
  {
    forall w | Route(g, start, target, w)
      ensures |w| >= L + 1
    {
      if |w| <= L {
        RouteDepth(g, start, parent, D, explored, L, w, |w| - 1);
      }
    }
  }

  /** If every cell with a parent is expanded and every expanded cell is closed,
      every route from `start` stays inside the parent map. */
  lemma {:induction false} ClosedRoute(g: Grid, start: Pos, parent: ParentMap, explored: set<Pos>, w: seq<Pos>, k: nat)
    requires start in parent
    requires forall v :: v in parent ==> v in explored
    requires forall u :: u in explored ==> Closed(g, parent, u)
    requires |w| > 0 && w[0] == start && Chained(w) && forall i :: 0 < i < |w| ==> IsValid(g, w[i])
    requires k < |w|
    ensures w[k] in parent
  {
    if k > 0 {
      ClosedRoute(g, start, parent, explored, w, k - 1);
      var j := AdjacentIsStep(w[k - 1], w[k]);
      assert Closed(g, parent, w[k - 1]);
    }
  }

  /** A search whose every parented cell is expanded and closed, without having
      expanded the target, proves that no route to the target exists. */
  lemma NoRoute(g: Grid, start: Pos, target: Pos, parent: ParentMap, explored: set<Pos>)
    requires start in parent
    requires forall v :: v in parent ==> v in explored
    requires forall u :: u in explored ==> Closed(g, parent, u)
    requires target !in explored
    ensures forall w :: !Route(g, start, target, w)
  {
    forall w | Route(g, start, target, w)
      ensures false
    {
      ClosedRoute(g, start, parent, explored, w, |w| - 1);
    }
  }

  /** An empty frontier means the target is unreachable. */
  lemma LayeredExhausted(g: Grid, start: Pos, target: Pos, parent: ParentMap, D: map<Pos, nat>,
                         explored: set<Pos>, L: nat)
    requires Layered(g, start, target, parent, D, explored, {}, L)
    ensures forall w :: !Route(g, start, target, w)
  {
    NoRoute(g, start, target, parent, explored);
  }

  /** Expanded cells are parented cells, and these are valid apart from `start`:
      a search expands at most `size²` cells, or one more when `start` is not valid. */
  lemma ExpansionBound(g: Grid, start: Pos, explored: set<Pos>, keys: set<Pos>)
    requires explored <= keys <= ValidCells(g) + {start}
    ensures |explored| <= g.size * g.size + (if IsValid(g, start) then 0 else 1)
  {
    ValidCellsFacts(g);
    var all := ValidCells(g) + {start};
    assert all == explored + (all - explored);
    assert |all| == |explored| + |all - explored|;
    if IsValid(g, start) {
      assert all == ValidCells(g);
    } else {
      assert |all| <= |ValidCells(g)| + 1;
    }
  }
}

/** Breadth-first search (`bfs`): a FIFO queue, first discoverer wins. */
module Bfs {
  import opened Wrappers
  import opened Grid
  import opened Paths
  import opened Expansion
  import opened Layers

  /** The loop invariant of `Bfs`: the level invariant over the queue's cells,
      depths non-decreasing along the queue, parented cells valid apart from
      `start`, one expansion per expanded cell, and nothing done yet while the
      start is the target (the first pop then ends the search). */
  ghost predicate BfsInv(g: Grid, start: Pos, target: Pos, queue: seq<Pos>, parent: ParentMap,
                         D: map<Pos, nat>, explored: set<Pos>, L: nat, expansions: nat)
  {
    && Layered(g, start, target, parent, D, explored, Elements(queue), L)
    && SortedByDepth(queue, D)
    && parent.Keys <= ValidCells(g) + {start}
    && expansions == |explored|
    && (start == target ==> queue == [start] && parent == map[start := None] && explored == {})
  }

  lemma BfsInit(g: Grid, start: Pos, target: Pos)
    ensures BfsInv(g, start, target, [start], map[start := None], map[start := 0], {}, 0, 0)
  {
    LayeredInit(g, start, target);
    assert Elements([start]) == {start};
  }

  /** The front of the queue has the least depth. */
  lemma FrontIsShallowest(g: Grid, start: Pos, target: Pos, queue: seq<Pos>, parent: ParentMap,
                          D: map<Pos, nat>, explored: set<Pos>, L: nat, expansions: nat)
    requires BfsInv(g, start, target, queue, parent, D, explored, L, expansions)
    requires |queue| > 0
    ensures Layered(g, start, target, parent, D, explored, Elements(queue), D[queue[0]])
  {
    forall f | f in Elements(queue)
      ensures D[queue[0]] <= D[f]
    {
      var j :| 0 <= j < |queue| && queue[j] == f;
      if j > 0 {
        assert queue[0] in D && queue[j] in D && D[queue[0]] <= D[queue[j]];
      }
    }
    LayeredRaise(g, start, target, parent, D, explored, Elements(queue), L, queue[0]);
  }

  /** Popping the target: its tree path is a shortest route. */
  lemma BfsFound(g: Grid, start: Pos, target: Pos, queue: seq<Pos>, parent: ParentMap,
                 D: map<Pos, nat>, explored: set<Pos>, L: nat, expansions: nat)
    requires BfsInv(g, start, target, queue, parent, D, explored, L, expansions)
    requires |queue| > 0 && queue[0] == target
    ensures Ranked(parent, D)
    ensures Route(g, start, target, GetPath(parent, D, target))
    ensures forall w :: Route(g, start, target, w) ==> |GetPath(parent, D, target)| <= |w|
    ensures start == target ==> GetPath(parent, D, target) == [start] && expansions == 0
    ensures expansions <= g.size * g.size + (if IsValid(g, start) then 0 else 1)
  {
    FrontIsShallowest(g, start, target, queue, parent, D, explored, L, expansions);
    TreePath(g, start, parent, D, target);
    LayeredShortest(g, start, target, parent, D, explored, Elements(queue), D[target]);
    ExpansionBound(g, start, explored, parent.Keys);
  }

  /** Depths are non-decreasing along `q`. */
  ghost predicate SortedByDepth(q: seq<Pos>, D: map<Pos, nat>)
  {
    forall i, j :: 0 <= i < j < |q| ==> q[i] in D && q[j] in D && D[q[i]] <= D[q[j]]
  }

  /** Appending cells of depth `d` to a sorted queue whose depths are at most `d` keeps it sorted. */
  lemma AppendSorted(q: seq<Pos>, s: seq<Pos>, D: map<Pos, nat>, d: nat)
    requires SortedByDepth(q, D)
    requires forall i :: 0 <= i < |q| ==> q[i] in D && D[q[i]] <= d
    requires forall i :: 0 <= i < |s| ==> s[i] in D && D[s[i]] == d
    ensures SortedByDepth(q + s, D)
  {
    var qs := q + s;
    forall i, j | 0 <= i < j < |qs|
      ensures qs[i] in D && qs[j] in D && D[qs[i]] <= D[qs[j]]
    {
      if j < |q| {
        assert qs[i] == q[i] && qs[j] == q[j];
      } else if i < |q| {
        assert qs[i] == q[i] && qs[j] == s[j - |q|];
      } else {
        assert qs[i] == s[i - |q|] && qs[j] == s[j - |q|];
      }
    }
  }

  /** The cells of a queue without its front. */
  lemma ElementsTail(queue: seq<Pos>)
    requires |queue| > 0
    ensures queue[0] in Elements(queue)
    ensures Elements(queue) - {queue[0]} <= Elements(queue[1..]) <= Elements(queue)
  {
    assert queue == [queue[0]] + queue[1..];
  }

  /** Expanding the front cell keeps the level invariant, at the front's depth. */
  lemma ExpandLayered(g: Grid, start: Pos, target: Pos, queue: seq<Pos>, parent: ParentMap,
                      D: map<Pos, nat>, explored: set<Pos>, c: Pos, a: Admission)
    requires |queue| > 0 && c == queue[0] && c != target && c !in explored && c in D
    requires Layered(g, start, target, parent, D, explored, Elements(queue), D[c])
    requires a == Admit(g, parent, c, Moves, {})
    ensures Layered(g, start, target, a.parent, Extend(D, a.admitted, D[c] + 1), explored + {c},
                    Elements(queue[1..] + a.admitted), D[c])
  {
    var rest := queue[1..];
    assert Elements(rest + a.admitted) == Elements(rest) + Elements(a.admitted);
    ElementsTail(queue);
    LayeredExpand(g, start, target, parent, D, explored, Elements(queue), D[c], c, a, Elements(rest + a.admitted));
  }

  /** Expanding the front cell keeps the queue sorted by depth. */
  lemma ExpandSorted(g: Grid, start: Pos, target: Pos, queue: seq<Pos>, parent: ParentMap,
                     D: map<Pos, nat>, explored: set<Pos>, L: nat, expansions: nat, c: Pos, a: Admission)
    requires BfsInv(g, start, target, queue, parent, D, explored, L, expansions)
    requires |queue| > 0 && c == queue[0]
    requires a == Admit(g, parent, c, Moves, {})
    ensures c in D
    ensures SortedByDepth(queue[1..] + a.admitted, Extend(D, a.admitted, D[c] + 1))
  {
    var rest := queue[1..];
    var D' := Extend(D, a.admitted, D[c] + 1);
    FrontIsShallowest(g, start, target, queue, parent, D, explored, L, expansions);
    assert forall i :: 0 <= i < |rest| ==> rest[i] == queue[i + 1];
    assert forall i :: 0 <= i < |rest| ==> rest[i] in Elements(queue);
    AppendSorted(rest, a.admitted, D', D[c] + 1);
  }

  /** Popping and expanding a cell keeps the invariant and shrinks the measure. */
  lemma BfsExpand(g: Grid, start: Pos, target: Pos, queue: seq<Pos>, parent: ParentMap,
                  D: map<Pos, nat>, explored: set<Pos>, L: nat, expansions: nat, c: Pos, a: Admission)
    requires BfsInv(g, start, target, queue, parent, D, explored, L, expansions)
    requires |queue| > 0 && c == queue[0] && c != target && c !in explored
    requires a == Admit(g, parent, c, Moves, {})
    ensures c in D
    ensures BfsInv(g, start, target, queue[1..] + a.admitted, a.parent, Extend(D, a.admitted, D[c] + 1),
                   explored + {c}, D[c], expansions + 1)
    ensures |ValidCells(g) - a.parent.Keys| + |queue[1..] + a.admitted| < |ValidCells(g) - parent.Keys| + |queue|
  {
    FrontIsShallowest(g, start, target, queue, parent, D, explored, L, expansions);
    ExpandLayered(g, start, target, queue, parent, D, explored, c, a);
    ExpandSorted(g, start, target, queue, parent, D, explored, L, expansions, c, a);
    AdmitMeasure(g, parent, c, Moves, {}, a);
    ValidCellsFacts(g);
    assert |explored + {c}| == |explored| + 1;
  }

  /** Popping an already expanded cell keeps the invariant. */
  lemma BfsSkip(g: Grid, start: Pos, target: Pos, queue: seq<Pos>, parent: ParentMap,
                D: map<Pos, nat>, explored: set<Pos>, L: nat, expansions: nat, c: Pos)
    requires BfsInv(g, start, target, queue, parent, D, explored, L, expansions)
    requires |queue| > 0 && c == queue[0] && c != target && c in explored
    ensures c in D
    ensures BfsInv(g, start, target, queue[1..], parent, D, explored, D[c], expansions)
  {
    FrontIsShallowest(g, start, target, queue, parent, D, explored, L, expansions);
    assert Elements(queue) - {c} <= Elements(queue[1..]) <= Elements(queue) by {
      assert queue == [c] + queue[1..];
    }
    LayeredSkip(g, start, target, parent, D, explored, Elements(queue), D[c], c, Elements(queue[1..]));
    assert forall i :: 0 <= i < |queue[1..]| ==> queue[1..][i] == queue[i + 1];
  }

  /** An empty queue: no route exists. */
  lemma BfsExhausted(g: Grid, start: Pos, target: Pos, parent: ParentMap,
                     D: map<Pos, nat>, explored: set<Pos>, L: nat, expansions: nat)
    requires BfsInv(g, start, target, [], parent, D, explored, L, expansions)
    ensures forall w :: !Route(g, start, target, w)
    ensures start != target
    ensures expansions <= g.size * g.size + (if IsValid(g, start) then 0 else 1)
  {
    assert Elements([]) == {};
    LayeredExhausted(g, start, target, parent, D, explored, L);
    ExpansionBound(g, start, explored, parent.Keys);
  }

  /**
   `bfs`: searches from `start` for `target`. The queue is popped from the
   front; a popped target ends the search with its tree path; otherwise a
   cell not yet expanded is expanded in movement order. The path found is a
   route of minimum length; no path means no route exists. `expansions`
   counts expanded cells, each at most once, so at most `size²` of them when
   `start` is valid.
   */
  method Bfs(g: Grid, start: Pos, target: Pos) returns (path: Option<seq<Pos>>, expansions: nat)
    ensures path.Some? ==> Route(g, start, target, path.value)
    ensures path.Some? ==> forall w :: Route(g, start, target, w) ==> |path.value| <= |w|
    ensures path.None? ==> forall w :: !Route(g, start, target, w)
    ensures start == target ==> path == Some([start]) && expansions == 0
    ensures expansions <= g.size * g.size + (if IsValid(g, start) then 0 else 1)
  {
    var queue := [start];
    var parent: ParentMap := map[start := None];
    var explored: set<Pos> := {};
    ghost var D: map<Pos, nat> := map[start := 0];
    ghost var L: nat := 0;
    expansions := 0;
    BfsInit(g, start, target);
    while |queue| > 0
      invariant BfsInv(g, start, target, queue, parent, D, explored, L, expansions)
      decreases |ValidCells(g) - parent.Keys| + |queue|
    {
      var current := queue[0];
      if current == target {
        BfsFound(g, start, target, queue, parent, D, explored, L, expansions);
        path := Some(GetPath(parent, D, target));
        return;
      }
      if current !in explored {
        var a := Admit(g, parent, current, Moves, {});
        BfsExpand(g, start, target, queue, parent, D, explored, L, expansions, current, a);
        L, D := D[current], Extend(D, a.admitted, D[current] + 1);
        queue, parent, explored, expansions := queue[1..] + a.admitted, a.parent, explored + {current}, expansions + 1;
      } else {
        BfsSkip(g, start, target, queue, parent, D, explored, L, expansions, current);
        L := D[current];
        queue := queue[1..];
      }
    }
    BfsExhausted(g, start, target, parent, D, explored, L, expansions);
    path := None;
  }
}

/**
 Uniform-cost search (`ucs`) over a binary heap of (cost, cell) pairs. Every
 move costs 1. The heap is modelled as a sequence whose order carries no
 meaning: `heappush` appends and `heappop` removes a least pair under Python's
 tuple order (cost first, then row, then column).
 */
module Ucs {
  import opened Wrappers
  import opened Grid
  import opened Paths
  import opened Expansion
  import opened Layers
  import Bfs

  /** A heap entry `(cost, cell)`. */
  datatype Entry = Entry(cost: nat, pos: Pos)

  /** Python's ordering of `(cost, (r, c))` tuples: lexicographic. */
  predicate EntryLe(a: Entry, b: Entry)
  {
    || a.cost < b.cost
    || (a.cost == b.cost && a.pos.r < b.pos.r)
    || (a.cost == b.cost && a.pos.r == b.pos.r && a.pos.c <= b.pos.c)
  }

  /** The position of a least entry. */
  function MinIndex(pq: seq<Entry>): (i: nat)
    requires |pq| > 0
    ensures i < |pq|
    ensures forall j :: 0 <= j < |pq| ==> EntryLe(pq[i], pq[j])
  {
    if |pq| == 1 then 0
    else
      var k := MinIndex(pq[..|pq| - 1]);
      assert forall j :: 0 <= j < |pq| - 1 ==> pq[..|pq| - 1][j] == pq[j];
      if EntryLe(pq[k], pq[|pq| - 1]) then k else |pq| - 1
  }

  /** `heappop`: a least entry and the heap without it. */
  function Pop(pq: seq<Entry>): (r: (Entry, seq<Entry>))
    requires |pq| > 0
    ensures forall j :: 0 <= j < |pq| ==> EntryLe(r.0, pq[j])
    ensures multiset(pq) == multiset(r.1) + multiset{r.0}
    ensures |r.1| == |pq| - 1
  {
    var i := MinIndex(pq);
    assert pq == pq[..i] + [pq[i]] + pq[i + 1..];
    (pq[i], pq[..i] + pq[i + 1..])
  }

  /** The entries pushed for the cells `cells`, all with cost `c`, in push order. */
  function Entries(cells: seq<Pos>, c: nat): (r: seq<Entry>)
    ensures |r| == |cells|
    ensures forall i :: 0 <= i < |r| ==> r[i] == Entry(c, cells[i])
    ensures HeapCells(r) == Elements(cells)
  {
    seq(|cells|, i requires 0 <= i < |cells| => Entry(c, cells[i]))
  }

  /** The cells on the heap. */
  function HeapCells(pq: seq<Entry>): set<Pos>
  {
    set i | 0 <= i < |pq| :: pq[i].pos
  }

  /** Every entry carries its cell's recorded cost. */
  ghost predicate Exact(pq: seq<Entry>, cost: map<Pos, nat>)
  {
    forall i :: 0 <= i < |pq| ==> pq[i].pos in cost && cost[pq[i].pos] == pq[i].cost
  }

  /**
   The loop invariant of `Ucs`: the cost map is the tree depth of the parent
   map and satisfies the level invariant with the heap's cells as frontier;
   every entry carries its cell's cost; parented cells are valid apart from
   `start`; one expansion per expanded cell; nothing done yet while the start
   is the target.
   */
  ghost predicate UcsInv(g: Grid, start: Pos, target: Pos, pq: seq<Entry>, parent: ParentMap,
                         cost: map<Pos, nat>, explored: set<Pos>, L: nat, expansions: nat)
  {
    && Layered(g, start, target, parent, cost, explored, HeapCells(pq), L)
    && Exact(pq, cost)
    && parent.Keys <= ValidCells(g) + {start}
    && expansions == |explored|
    && (start == target ==> pq == [Entry(0, start)] && parent == map[start := None] && explored == {})
  }

  lemma UcsInit(g: Grid, start: Pos, target: Pos)
    ensures UcsInv(g, start, target, [Entry(0, start)], map[start := None], map[start := 0], {}, 0, 0)
  {
    LayeredInit(g, start, target);
    assert HeapCells([Entry(0, start)]) == {start} by {
      assert [Entry(0, start)][0].pos == start;
    }
  }

  /** The popped entry has the least cost, so the level moves up to it. */
  lemma PopIsCheapest(g: Grid, start: Pos, target: Pos, pq: seq<Entry>, parent: ParentMap,
                      cost: map<Pos, nat>, explored: set<Pos>, L: nat, expansions: nat, e: Entry)
    requires UcsInv(g, start, target, pq, parent, cost, explored, L, expansions)
    requires |pq| > 0 && e == Pop(pq).0
    ensures e.pos in HeapCells(pq) && e.pos in cost && cost[e.pos] == e.cost
    ensures Layered(g, start, target, parent, cost, explored, HeapCells(pq), e.cost)
  {
    assert e in multiset(pq);
    var k :| 0 <= k < |pq| && pq[k] == e;
    forall f | f in HeapCells(pq)
      ensures cost[e.pos] <= cost[f]
    {
      var j :| 0 <= j < |pq| && pq[j].pos == f;
      assert EntryLe(e, pq[j]);
    }
    LayeredRaise(g, start, target, parent, cost, explored, HeapCells(pq), L, e.pos);
  }

  /** Popping the target: its tree path is a cheapest route. */
  lemma UcsFound(g: Grid, start: Pos, target: Pos, pq: seq<Entry>, parent: ParentMap,
                 cost: map<Pos, nat>, explored: set<Pos>, L: nat, expansions: nat, e: Entry)
    requires UcsInv(g, start, target, pq, parent, cost, explored, L, expansions)
    requires |pq| > 0 && e == Pop(pq).0 && e.pos == target
    ensures Ranked(parent, cost)
    ensures Route(g, start, target, GetPath(parent, cost, target))
    ensures forall w :: Route(g, start, target, w) ==> |GetPath(parent, cost, target)| <= |w|
    ensures start == target ==> GetPath(parent, cost, target) == [start] && expansions == 0
    ensures expansions <= g.size * g.size + (if IsValid(g, start) then 0 else 1)
  {
    PopIsCheapest(g, start, target, pq, parent, cost, explored, L, expansions, e);
    TreePath(g, start, parent, cost, target);
    LayeredShortest(g, start, target, parent, cost, explored, HeapCells(pq), cost[target]);
    ExpansionBound(g, start, explored, parent.Keys);
  }

  /** The cells of the heap after a pop and a push. */
  lemma CellsAfterPop(pq: seq<Entry>, e: Entry, rest: seq<Entry>, pushed: seq<Pos>, c: nat)
    requires |pq| > 0 && (e, rest) == Pop(pq)
    ensures HeapCells(pq) - {e.pos} <= HeapCells(rest) <= HeapCells(pq)
    ensures HeapCells(rest + Entries(pushed, c)) == HeapCells(rest) + Elements(pushed)
  {
    forall x | x in HeapCells(pq) && x != e.pos
      ensures x in HeapCells(rest)
    {
      var j :| 0 <= j < |pq| && pq[j].pos == x;
      assert pq[j] in multiset(rest);
    }
    forall x | x in HeapCells(rest)
      ensures x in HeapCells(pq)
    {
      var j :| 0 <= j < |rest| && rest[j].pos == x;
      assert rest[j] in multiset(pq);
    }
    HeapCellsAppend(rest, Entries(pushed, c));
  }

  /** The cells of two heaps put together are the cells of each. */
  lemma HeapCellsAppend(a: seq<Entry>, b: seq<Entry>)
    ensures HeapCells(a + b) == HeapCells(a) + HeapCells(b)
  {
    var s := a + b;
    forall x | x in HeapCells(s)
      ensures x in HeapCells(a) + HeapCells(b)
    {
      var j :| 0 <= j < |s| && s[j].pos == x;
      if j >= |a| {
        assert s[j] == b[j - |a|];
      }
    }
    forall x | x in HeapCells(a) + HeapCells(b)
      ensures x in HeapCells(s)
    {
      if x in HeapCells(a) {
        var j :| 0 <= j < |a| && a[j].pos == x;
        assert s[j] == a[j];
      } else {
        var j :| 0 <= j < |b| && b[j].pos == x;
        assert s[|a| + j] == b[j];
      }
    }
  }

  /** After the pop and push, every entry still carries its cell's cost. */
  lemma ExactAfterPush(pq: seq<Entry>, cost: map<Pos, nat>, pushed: seq<Pos>, c: nat, cost': map<Pos, nat>)
    requires |pq| > 0 && Exact(pq, cost)
    requires forall k :: k in cost ==> k in cost' && cost'[k] == cost[k]
    requires forall i :: 0 <= i < |pushed| ==> pushed[i] in cost' && cost'[pushed[i]] == c
    ensures Exact(Pop(pq).1 + Entries(pushed, c), cost')
  {
    var rest := Pop(pq).1;
    var s' := rest + Entries(pushed, c);
    forall i | 0 <= i < |s'|
      ensures s'[i].pos in cost' && cost'[s'[i].pos] == s'[i].cost
    {
      if i < |rest| {
        assert rest[i] in multiset(pq);
        var j :| 0 <= j < |pq| && pq[j] == rest[i];
      } else {
        assert s'[i] == Entry(c, pushed[i - |rest|]);
      }
    }
  }

  /** Expanding the popped cell keeps the level invariant, at the popped cost. */
  lemma UcsExpandLayered(g: Grid, start: Pos, target: Pos, parent: ParentMap, cost: map<Pos, nat>,
                         explored: set<Pos>, F: set<Pos>, R: set<Pos>, F': set<Pos>, e: Entry, a: Admission)
    requires Layered(g, start, target, parent, cost, explored, F, e.cost)
    requires e.pos in F && e.pos in cost && cost[e.pos] == e.cost && e.pos != target && e.pos !in explored
    requires a == Admit(g, parent, e.pos, Moves, {})
    requires F - {e.pos} <= R <= F && F' == R + Elements(a.admitted)
    ensures Layered(g, start, target, a.parent, Extend(cost, a.admitted, e.cost + 1), explored + {e.pos}, F', e.cost)
  {
    LayeredExpand(g, start, target, parent, cost, explored, F, e.cost, e.pos, a, F');
  }

  /** With no recorded cost above the popped cost plus one, the relaxation is the breadth-first admission. */
  lemma UcsRelaxIsAdmit(g: Grid, parent: ParentMap, cost: map<Pos, nat>, e: Entry, rx: Relaxation)
    requires cost.Keys == parent.Keys && forall k :: k in cost ==> cost[k] <= e.cost + 1
    requires rx == Relax(g, cost, parent, e.pos, e.cost, Moves)
    ensures var a := Admit(g, parent, e.pos, Moves, {});
      rx == Relaxation(Extend(cost, a.admitted, e.cost + 1), a.parent, a.admitted)
  {
    RelaxIsAdmit(g, cost, parent, e.pos, e.cost, Moves);
  }

  /** Popping and admitting the neighbours of a cell keeps the invariant and shrinks the measure. */
  lemma UcsExpandAdmit(g: Grid, start: Pos, target: Pos, pq: seq<Entry>, parent: ParentMap,
                       cost: map<Pos, nat>, explored: set<Pos>, L: nat, expansions: nat,
                       e: Entry, rest: seq<Entry>, a: Admission)
    requires UcsInv(g, start, target, pq, parent, cost, explored, L, expansions)
    requires |pq| > 0 && (e, rest) == Pop(pq) && e.pos != target && e.pos !in explored
    requires a == Admit(g, parent, e.pos, Moves, {})
    ensures UcsInv(g, start, target, rest + Entries(a.admitted, e.cost + 1), a.parent,
                   Extend(cost, a.admitted, e.cost + 1), explored + {e.pos}, e.cost, expansions + 1)
    ensures |ValidCells(g) - a.parent.Keys| + |rest + Entries(a.admitted, e.cost + 1)|
          < |ValidCells(g) - parent.Keys| + |pq|
  {
    PopIsCheapest(g, start, target, pq, parent, cost, explored, L, expansions, e);
    CellsAfterPop(pq, e, rest, a.admitted, e.cost + 1);
    UcsExpandLayered(g, start, target, parent, cost, explored, HeapCells(pq), HeapCells(rest),
                     HeapCells(rest + Entries(a.admitted, e.cost + 1)), e, a);
    ExactAfterPush(pq, cost, a.admitted, e.cost + 1, Extend(cost, a.admitted, e.cost + 1));
    ValidCellsFacts(g);
    AdmitMeasure(g, parent, e.pos, Moves, {}, a);
    assert |explored + {e.pos}| == |explored| + 1;
  }

  /**
   Popping and expanding a cell keeps the invariant and shrinks the measure.
   The relaxation is the breadth-first admission: no recorded cost exceeds
   the popped cost plus one, so no cost is ever improved.
   */
  lemma UcsExpand(g: Grid, start: Pos, target: Pos, pq: seq<Entry>, parent: ParentMap,
                  cost: map<Pos, nat>, explored: set<Pos>, L: nat, expansions: nat,
                  e: Entry, rest: seq<Entry>, rx: Relaxation)
    requires UcsInv(g, start, target, pq, parent, cost, explored, L, expansions)
    requires |pq| > 0 && (e, rest) == Pop(pq) && e.pos != target && e.pos !in explored
    requires rx == Relax(g, cost, parent, e.pos, e.cost, Moves)
    ensures UcsInv(g, start, target, rest + Entries(rx.pushed, e.cost + 1), rx.parent, rx.cost,
                   explored + {e.pos}, e.cost, expansions + 1)
    ensures |ValidCells(g) - rx.parent.Keys| + |rest + Entries(rx.pushed, e.cost + 1)|
          < |ValidCells(g) - parent.Keys| + |pq|
  {
    PopIsCheapest(g, start, target, pq, parent, cost, explored, L, expansions, e);
    LayeredBounded(g, start, target, parent, cost, explored, HeapCells(pq), e.cost);
    UcsRelaxIsAdmit(g, parent, cost, e, rx);
    UcsExpandAdmit(g, start, target, pq, parent, cost, explored, L, expansions, e, rest,
                   Admit(g, parent, e.pos, Moves, {}));
  }

  /** Popping an already expanded cell keeps the invariant. */
  lemma UcsSkip(g: Grid, start: Pos, target: Pos, pq: seq<Entry>, parent: ParentMap,
                cost: map<Pos, nat>, explored: set<Pos>, L: nat, expansions: nat, e: Entry)
    requires UcsInv(g, start, target, pq, parent, cost, explored, L, expansions)
    requires |pq| > 0 && e == Pop(pq).0 && e.pos != target && e.pos in explored
    ensures UcsInv(g, start, target, Pop(pq).1, parent, cost, explored, e.cost, expansions)
  {
    PopIsCheapest(g, start, target, pq, parent, cost, explored, L, expansions, e);
    CellsAfterPop(pq, e, Pop(pq).1, [], 0);
    LayeredSkip(g, start, target, parent, cost, explored, HeapCells(pq), e.cost, e.pos, HeapCells(Pop(pq).1));
    ExactAfterPush(pq, cost, [], 0, cost);
    assert Pop(pq).1 + Entries([], 0) == Pop(pq).1;
  }

  /** An empty heap: no route exists. */
  lemma UcsExhausted(g: Grid, start: Pos, target: Pos, parent: ParentMap,
                     cost: map<Pos, nat>, explored: set<Pos>, L: nat, expansions: nat)
    requires UcsInv(g, start, target, [], parent, cost, explored, L, expansions)
    ensures forall w :: !Route(g, start, target, w)
    ensures start != target
    ensures expansions <= g.size * g.size + (if IsValid(g, start) then 0 else 1)
  {
    assert HeapCells([]) == {};
    LayeredExhausted(g, start, target, parent, cost, explored, L);
    ExpansionBound(g, start, explored, parent.Keys);
  }

  /**
   `ucs`: pops a cheapest entry; a popped target ends the search with its
   tree path; otherwise a cell not yet expanded is expanded in movement order
   with the relaxation rule. With unit costs the path found is a route of
   minimum length, the same length breadth-first search finds; no path means
   no route exists.
   */
  method Ucs(g: Grid, start: Pos, target: Pos) returns (path: Option<seq<Pos>>, expansions: nat)
    ensures path.Some? ==> Route(g, start, target, path.value)
    ensures path.Some? ==> forall w :: Route(g, start, target, w) ==> |path.value| <= |w|
    ensures path.None? ==> forall w :: !Route(g, start, target, w)
    ensures start == target ==> path == Some([start]) && expansions == 0
    ensures expansions <= g.size * g.size + (if IsValid(g, start) then 0 else 1)
  {
    var pq := [Entry(0, start)];
    var parent: ParentMap := map[start := None];
    var cost: map<Pos, nat> := map[start := 0];
    var explored: set<Pos> := {};
    ghost var L: nat := 0;
    expansions := 0;
    UcsInit(g, start, target);
    while |pq| > 0
      invariant UcsInv(g, start, target, pq, parent, cost, explored, L, expansions)
      decreases |ValidCells(g) - parent.Keys| + |pq|
    {
      var (e, rest) := Pop(pq);
      if e.pos == target {
        UcsFound(g, start, target, pq, parent, cost, explored, L, expansions, e);
        path := Some(GetPath(parent, cost, target));
        return;
      }
      if e.pos !in explored {
        var rx := Relax(g, cost, parent, e.pos, e.cost, Moves);
        UcsExpand(g, start, target, pq, parent, cost, explored, L, expansions, e, rest, rx);
        L := e.cost;
        pq, cost, parent := rest + Entries(rx.pushed, e.cost + 1), rx.cost, rx.parent;
        explored, expansions := explored + {e.pos}, expansions + 1;
      } else {
        UcsSkip(g, start, target, pq, parent, cost, explored, L, expansions, e);
        L := e.cost;
        pq := rest;
      }
    }
    UcsExhausted(g, start, target, parent, cost, explored, L, expansions);
    path := None;
  }

  /**
   With unit costs, uniform-cost and breadth-first search agree: on the same
   grid and endpoints, one finds a path exactly when the other does, and the
   two paths have the same length.
   */
  method AgreesWithBfs(g: Grid, start: Pos, target: Pos) returns (viaBfs: Option<seq<Pos>>, viaUcs: Option<seq<Pos>>)
    ensures viaBfs.Some? <==> viaUcs.Some?
    ensures viaBfs.Some? ==> |viaBfs.value| == |viaUcs.value|
    ensures viaUcs.Some? ==> Route(g, start, target, viaUcs.value)
  {
    var nb, nu;
    viaBfs, nb := Bfs.Bfs(g, start, target);
    viaUcs, nu := Ucs(g, start, target);
  }
}

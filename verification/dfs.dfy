/**
 Depth-first search with an optional depth limit (`dfs(limit)`) and iterative
 deepening (`iddfs`). The stack holds (cell, depth) frames and is popped from
 the end; a popped target ends the search; a cell not yet expanded is
 expanded only while its depth is below the limit, pushing its admitted
 neighbours in reversed movement order, each one level deeper.
 */
module Dfs {
  import opened Wrappers
  import opened Grid
  import opened Paths
  import opened Expansion
  import opened Layers

  /** A stack entry: a cell and the depth it was pushed with. */
  datatype Frame = Frame(pos: Pos, depth: nat)

  /** The frames pushed for the admitted `cells`, all at depth `d`, in push order. */
  function Frames(cells: seq<Pos>, d: nat): (r: seq<Frame>)
    ensures |r| == |cells|
    ensures Cells(r) == Elements(cells)
    ensures forall i :: 0 <= i < |r| ==> r[i].depth == d
  {
    var r := seq(|cells|, i requires 0 <= i < |cells| => Frame(cells[i], d));
    assert forall i :: 0 <= i < |r| ==> r[i].pos == cells[i];
    r
  }

  /** The cells on a stack. */
  function Cells(stack: seq<Frame>): set<Pos>
  {
    set i | 0 <= i < |stack| :: stack[i].pos
  }

  /** `limit is None or depth < limit`: may a cell popped at `depth` be expanded? */
  predicate WithinLimit(limit: Option<int>, depth: nat)
  {
    limit.None? || depth < limit.value
  }

  /**
   The invariant of the search loop: the parent map is a tree rooted at
   `start` whose depths are the frames' depths; parented cells are valid apart
   from `start`; expanded cells have all their valid neighbours parented and
   do not include the target; under a limit no cell is deeper than the limit
   (except `start`, which is never checked); without a limit every parented
   cell is expanded or still on the stack; and while `start` is the target
   nothing has happened yet.
   */
  ghost predicate DfsInv(g: Grid, start: Pos, target: Pos, limit: Option<int>, stack: seq<Frame>,
                         parent: ParentMap, D: map<Pos, nat>, explored: set<Pos>)
  {
    && SearchTree(g, start, target, parent, D, explored)
    && StackInv(start, target, limit, stack, parent, D, explored)
  }

  /** The part of the invariant about the parent map and the expanded cells. */
  ghost predicate SearchTree(g: Grid, start: Pos, target: Pos, parent: ParentMap, D: map<Pos, nat>, explored: set<Pos>)
  {
    && Tree(g, start, parent, D)
    && parent.Keys <= ValidCells(g) + {start}
    && explored <= parent.Keys
    && target !in explored
    && (forall u :: u in explored ==> Closed(g, parent, u))
  }

  /** The part of the invariant about the stack and the depth limit. */
  ghost predicate StackInv(start: Pos, target: Pos, limit: Option<int>, stack: seq<Frame>,
                           parent: ParentMap, D: map<Pos, nat>, explored: set<Pos>)
  {
    && parent.Keys == D.Keys
    && (forall i :: 0 <= i < |stack| ==> stack[i].pos in parent && D[stack[i].pos] == stack[i].depth)
    && (limit.Some? ==> forall v :: v in parent && v != start ==> D[v] <= limit.value)
    && (limit.None? ==> forall v :: v in parent ==> v in explored || v in Cells(stack))
    && (start == target ==> stack == [Frame(start, 0)] && parent == map[start := None])
  }

  lemma DfsInit(g: Grid, start: Pos, target: Pos, limit: Option<int>)
    ensures DfsInv(g, start, target, limit, [Frame(start, 0)], map[start := None], map[start := 0], {})
  {
    assert [Frame(start, 0)][0].pos == start;
  }

  /** Popping the target: its tree path is a route, no longer than the limit allows. */
  lemma DfsFound(g: Grid, start: Pos, target: Pos, limit: Option<int>, stack: seq<Frame>,
                 parent: ParentMap, D: map<Pos, nat>, explored: set<Pos>)
    requires DfsInv(g, start, target, limit, stack, parent, D, explored)
    requires target in parent
    ensures Ranked(parent, D)
    ensures Route(g, start, target, GetPath(parent, D, target))
    ensures limit.Some? && start != target ==> |GetPath(parent, D, target)| <= limit.value + 1
    ensures start == target ==> GetPath(parent, D, target) == [start]
  {
    TreePath(g, start, parent, D, target);
  }

  /** Popping a cell that is not expanded (already expanded, or too deep). */
  lemma DfsSkip(g: Grid, start: Pos, target: Pos, limit: Option<int>, stack: seq<Frame>,
                parent: ParentMap, D: map<Pos, nat>, explored: set<Pos>, top: Frame)
    requires DfsInv(g, start, target, limit, stack, parent, D, explored)
    requires |stack| > 0 && top == stack[|stack| - 1] && top.pos != target
    requires top.pos in explored || !WithinLimit(limit, top.depth)
    ensures DfsInv(g, start, target, limit, stack[..|stack| - 1], parent, D, explored)
  {
    StackSkip(start, target, limit, stack, parent, D, explored, top);
  }

  /** Dropping a frame that is expanded already or over the limit keeps the stack invariant. */
  lemma StackSkip(start: Pos, target: Pos, limit: Option<int>, stack: seq<Frame>,
                  parent: ParentMap, D: map<Pos, nat>, explored: set<Pos>, top: Frame)
    requires StackInv(start, target, limit, stack, parent, D, explored)
    requires |stack| > 0 && top == stack[|stack| - 1] && top.pos != target
    requires top.pos in explored || !WithinLimit(limit, top.depth)
    ensures StackInv(start, target, limit, stack[..|stack| - 1], parent, D, explored)
  {
    var rest := stack[..|stack| - 1];
    assert forall i :: 0 <= i < |rest| ==> rest[i] == stack[i];
    if limit.None? {
      forall v | v in parent
        ensures v in explored || v in Cells(rest)
      {
        if v !in explored {
          var i :| 0 <= i < |stack| && stack[i].pos == v;
          assert i < |rest|;
        }
      }
    }
  }

  /** The cells on a stack after popping `top` and pushing `pushed`. */
  lemma CellsAfterPush(stack: seq<Frame>, pushed: seq<Pos>, d: nat)
    requires |stack| > 0
    ensures Cells(stack) <= Cells(stack[..|stack| - 1] + Frames(pushed, d)) + {stack[|stack| - 1].pos}
    ensures Elements(pushed) <= Cells(stack[..|stack| - 1] + Frames(pushed, d))
  {
    var rest := stack[..|stack| - 1];
    var top := stack[|stack| - 1];
    assert stack == rest + [top];
    CellsAppend(rest, [top]);
    assert Cells([top]) == {top.pos};
    CellsAppend(rest, Frames(pushed, d));
  }

  /** The cells of two stacks put together are the cells of each. */
  lemma CellsAppend(a: seq<Frame>, b: seq<Frame>)
    ensures Cells(a + b) == Cells(a) + Cells(b)
  {
    var s := a + b;
    forall x | x in Cells(s)
      ensures x in Cells(a) + Cells(b)
    {
      var j :| 0 <= j < |s| && s[j].pos == x;
      if j >= |a| {
        assert s[j] == b[j - |a|];
      }
    }
    forall x | x in Cells(a) + Cells(b)
      ensures x in Cells(s)
    {
      if x in Cells(a) {
        var j :| 0 <= j < |a| && a[j].pos == x;
        assert s[j] == a[j];
      } else {
        var j :| 0 <= j < |b| && b[j].pos == x;
        assert s[|a| + j] == b[j];
      }
    }
  }

  /** Expanding `top` in reversed movement order leaves it closed. */
  lemma ExpandClosed(g: Grid, parent: ParentMap, c: Pos, a: Admission)
    requires PolicyMoves(Reverse(Moves))
    requires a == Admit(g, parent, c, Reverse(Moves), {})
    ensures Closed(g, a.parent, c)
  {
    var rm := Reverse(Moves);
    AdmitCovers(g, parent, c, rm, {});
    AdmitMeet(g, parent, c, rm, {}, a);
    forall i | 0 <= i < |Moves| && IsValid(g, Step(c, Moves[i]))
      ensures Step(c, Moves[i]) in a.parent
    {
      var j := |Moves| - 1 - i;
      assert 0 <= j < |rm| && rm[j] == Moves[i];
      assert IsValid(g, Step(c, rm[j]));
    }
  }

  /** After an expansion the stack's frames still carry their cells' tree depths. */
  lemma PushedDepths(stack: seq<Frame>, parent: ParentMap, D: map<Pos, nat>, top: Frame, a: Admission,
                     D': map<Pos, nat>)
    requires |stack| > 0 && top == stack[|stack| - 1]
    requires parent.Keys == D.Keys && a.parent.Keys == D'.Keys && parent.Keys <= a.parent.Keys
    requires forall i :: 0 <= i < |stack| ==> stack[i].pos in parent && D[stack[i].pos] == stack[i].depth
    requires forall k :: k in D ==> D'[k] == D[k]
    requires forall i :: 0 <= i < |a.admitted| ==> a.admitted[i] in a.parent && D'[a.admitted[i]] == top.depth + 1
    ensures var s' := stack[..|stack| - 1] + Frames(a.admitted, top.depth + 1);
      forall i :: 0 <= i < |s'| ==> s'[i].pos in a.parent && D'[s'[i].pos] == s'[i].depth
  {
    var rest := stack[..|stack| - 1];
    var s' := rest + Frames(a.admitted, top.depth + 1);
    forall i | 0 <= i < |s'|
      ensures s'[i].pos in a.parent && D'[s'[i].pos] == s'[i].depth
    {
      if i < |rest| {
        assert s'[i] == stack[i];
      } else {
        assert s'[i] == Frame(a.admitted[i - |rest|], top.depth + 1);
      }
    }
  }

  /** Without a limit, every parented cell is still expanded or on the stack after an expansion. */
  lemma ExpandCovered(stack: seq<Frame>, parent: ParentMap, explored: set<Pos>, a: Admission, d: nat)
    requires |stack| > 0
    requires forall v :: v in parent ==> v in explored || v in Cells(stack)
    requires a.parent.Keys == parent.Keys + Elements(a.admitted)
    ensures forall v :: v in a.parent ==>
      v in explored + {stack[|stack| - 1].pos} || v in Cells(stack[..|stack| - 1] + Frames(a.admitted, d))
  {
    CellsAfterPush(stack, a.admitted, d);
  }

  /** Under a limit, the cells admitted from a cell above the limit stay within it. */
  lemma ExpandBounded(start: Pos, limit: Option<int>, parent: ParentMap, D: map<Pos, nat>,
                      top: Frame, a: Admission)
    requires limit.Some? && WithinLimit(limit, top.depth)
    requires parent.Keys == D.Keys
    requires forall v :: v in parent && v != start ==> D[v] <= limit.value
    requires top.pos in D && D[top.pos] == top.depth
    requires a.parent.Keys == parent.Keys + Elements(a.admitted)
    ensures var D' := Extend(D, a.admitted, D[top.pos] + 1);
      forall v :: v in a.parent && v != start ==> D'[v] <= limit.value
  {
  }

  /** Expanding `c` keeps the tree, the validity of parented cells and the closure of expanded cells. */
  lemma ExpandTree(g: Grid, start: Pos, target: Pos, parent: ParentMap, D: map<Pos, nat>, explored: set<Pos>,
                   c: Pos, a: Admission)
    requires SearchTree(g, start, target, parent, D, explored)
    requires c in parent && c != target
    requires PolicyMoves(Reverse(Moves))
    requires a == Admit(g, parent, c, Reverse(Moves), {})
    ensures SearchTree(g, start, target, a.parent, Extend(D, a.admitted, D[c] + 1), explored + {c})
  {
    TreeGrow(g, start, parent, D, c, Reverse(Moves), {}, a);
    ExpandClosed(g, parent, c, a);
    ClosedGrows(g, parent, a.parent, explored);
    ValidCellsFacts(g);
  }

  /** Popping `top` and pushing the admitted cells keeps the stack invariant. */
  lemma ExpandStack(start: Pos, target: Pos, limit: Option<int>, stack: seq<Frame>,
                    parent: ParentMap, D: map<Pos, nat>, explored: set<Pos>, top: Frame, a: Admission)
    requires StackInv(start, target, limit, stack, parent, D, explored)
    requires |stack| > 0 && top == stack[|stack| - 1] && top.pos != target && WithinLimit(limit, top.depth)
    requires a.parent.Keys == parent.Keys + Elements(a.admitted)
    requires forall i :: 0 <= i < |a.admitted| ==> a.admitted[i] !in parent
    ensures top.pos in D
    ensures StackInv(start, target, limit, stack[..|stack| - 1] + Frames(a.admitted, top.depth + 1), a.parent,
                     Extend(D, a.admitted, D[top.pos] + 1), explored + {top.pos})
  {
    var D' := Extend(D, a.admitted, D[top.pos] + 1);
    PushedDepths(stack, parent, D, top, a, D');
    if limit.None? {
      ExpandCovered(stack, parent, explored, a, top.depth + 1);
    } else {
      ExpandBounded(start, limit, parent, D, top, a);
    }
  }

  /** Expanding the popped cell keeps the invariant and shrinks the measure. */
  lemma DfsExpand(g: Grid, start: Pos, target: Pos, limit: Option<int>, stack: seq<Frame>,
                  parent: ParentMap, D: map<Pos, nat>, explored: set<Pos>, top: Frame, a: Admission)
    requires DfsInv(g, start, target, limit, stack, parent, D, explored)
    requires |stack| > 0 && top == stack[|stack| - 1] && top.pos != target
    requires top.pos !in explored && WithinLimit(limit, top.depth)
    requires PolicyMoves(Reverse(Moves))
    requires a == Admit(g, parent, top.pos, Reverse(Moves), {})
    ensures top.pos in D
    ensures DfsInv(g, start, target, limit, stack[..|stack| - 1] + Frames(a.admitted, top.depth + 1), a.parent,
                   Extend(D, a.admitted, D[top.pos] + 1), explored + {top.pos})
    ensures |ValidCells(g) - a.parent.Keys| + |stack[..|stack| - 1] + Frames(a.admitted, top.depth + 1)|
          < |ValidCells(g) - parent.Keys| + |stack|
  {
    ExpandTree(g, start, target, parent, D, explored, top.pos, a);
    ExpandStack(start, target, limit, stack, parent, D, explored, top, a);
    AdmitMeasure(g, parent, top.pos, Reverse(Moves), {}, a);
  }

  /** An empty stack after a search without a limit: no route exists. */
  lemma DfsExhausted(g: Grid, start: Pos, target: Pos, parent: ParentMap, D: map<Pos, nat>, explored: set<Pos>)
    requires DfsInv(g, start, target, None, [], parent, D, explored)
    ensures forall w :: !Route(g, start, target, w)
  {
    NoRoute(g, start, target, parent, explored);
  }

  /**
   The `while stack` loop of `dfs`, one iteration per call. A found target
   yields its tree path, which is a route, at most `limit + 1` cells long
   under a limit; an emptied stack yields `None`, which without a limit
   means no route exists; when `start` is the target the path is `[start]`.
   */
  function DfsLoop(g: Grid, start: Pos, target: Pos, limit: Option<int>, stack: seq<Frame>,
                   parent: ParentMap, explored: set<Pos>, ghost D: map<Pos, nat>): (r: Option<seq<Pos>>)
    requires DfsInv(g, start, target, limit, stack, parent, D, explored)
    ensures r.Some? ==> Route(g, start, target, r.value)
    ensures r.Some? && limit.Some? && start != target ==> |r.value| <= limit.value + 1
    ensures r.None? && limit.None? ==> forall w :: !Route(g, start, target, w)
    ensures start == target ==> r == Some([start])
    decreases |ValidCells(g) - parent.Keys| + |stack|
  {
    if stack == [] then
      if limit.None? then DfsExhausted(g, start, target, parent, D, explored); None else None
    else
      var top := stack[|stack| - 1];
      if top.pos == target then
        DfsFound(g, start, target, limit, stack, parent, D, explored);
        Some(GetPath(parent, D, target))
      else if top.pos in explored || !WithinLimit(limit, top.depth) then
        DfsSkip(g, start, target, limit, stack, parent, D, explored, top);
        DfsLoop(g, start, target, limit, stack[..|stack| - 1], parent, explored, D)
      else
        DfsPushOrder(g, parent, top.pos);
        var a := Admit(g, parent, top.pos, Reverse(Moves), {});
        DfsExpand(g, start, target, limit, stack, parent, D, explored, top, a);
        DfsLoop(g, start, target, limit, stack[..|stack| - 1] + Frames(a.admitted, top.depth + 1),
                a.parent, explored + {top.pos}, Extend(D, a.admitted, D[top.pos] + 1))
  }

  /**
   `dfs(limit)`: `Some(path)` exactly when the source returns `True`, with
   the path it reconstructs. Without a limit the search is complete: `None`
   means no route exists.
   */
  function Dfs(g: Grid, start: Pos, target: Pos, limit: Option<int>): (r: Option<seq<Pos>>)
    ensures r.Some? ==> Route(g, start, target, r.value)
    ensures r.Some? && limit.Some? && start != target ==> |r.value| <= limit.value + 1
    ensures r.None? && limit.None? ==> forall w :: !Route(g, start, target, w)
    ensures start == target ==> r == Some([start])
  {
    DfsInit(g, start, target, limit);
    DfsLoop(g, start, target, limit, [Frame(start, 0)], map[start := None], {}, map[start := 0])
  }

  /**
   `iddfs`: runs `dfs(limit = d)` for `d = 0, 1, ..., size² - 1` and stops at
   the first that succeeds. Returns that search's path and its limit; `None`
   when every limit failed.
   */
  method Iddfs(g: Grid, start: Pos, target: Pos) returns (path: Option<seq<Pos>>, level: nat)
    ensures path.Some? ==> level < g.size * g.size && path == Dfs(g, start, target, Some(level))
    ensures forall d :: 0 <= d < level ==> Dfs(g, start, target, Some(d)).None?
    ensures path.None? ==> level == g.size * g.size
    ensures path.Some? ==> Route(g, start, target, path.value)
    ensures path.Some? && start != target ==> |path.value| <= level + 1
  {
    level := 0;
    while level < g.size * g.size
      invariant level <= g.size * g.size
      invariant forall d :: 0 <= d < level ==> Dfs(g, start, target, Some(d)).None?
    {
      path := Dfs(g, start, target, Some(level));
      if path.Some? {
        return;
      }
      level := level + 1;
    }
    path := None;
  }
}

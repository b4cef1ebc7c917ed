/**
 Neighbour expansion: the inner `for dr, dc in self.moves` loop of every
 search. `Admit` is the admission rule of bfs, dfs and bidirectional (valid
 and not yet in the parent map; bidirectional also stops at the first
 admitted cell the other tree already holds); `Relax` is the rule of ucs
 (valid and either uncosted or strictly cheaper).
 */
module Expansion {
  import opened Wrappers
  import opened Grid
  import opened Paths

  /** The set of cells of a sequence. */
  function Elements(s: seq<Pos>): set<Pos>
  {
    set x | x in s
  }

  predicate Distinct(s: seq<Pos>)
  {
    forall i, j :: 0 <= i < j < |s| ==> s[i] != s[j]
  }

  /** Every offset of `ms` is one of the six policy moves. */
  predicate PolicyMoves(ms: seq<Move>)
  {
    forall i :: 0 <= i < |ms| ==> ms[i] in Moves
  }

  /** No offset occurs twice in `ms`. */
  predicate DistinctMoves(ms: seq<Move>)
  {
    forall i, j :: 0 <= i < j < |ms| ==> ms[i] != ms[j]
  }

  /** The outcome of one expansion: the new parent map, the admitted cells in
      admission order (appended to the frontier), and the meeting cell, if any. */
  datatype Admission = Admission(parent: ParentMap, admitted: seq<Pos>, meet: Option<Pos>)

  /**
   Examines `current + ms[0]`, `current + ms[1]`, ... in order. A neighbour
   that is valid and has no parent yet gets `current` as its parent and is
   admitted; a recorded parent is never changed. Expansion stops right after
   admitting a cell of `stop` (the other tree's cells in bidirectional search).
   */
  function Admit(g: Grid, parent: ParentMap, current: Pos, ms: seq<Move>, stop: set<Pos>): (r: Admission)
    requires PolicyMoves(ms)
    ensures r.parent.Keys == parent.Keys + Elements(r.admitted)
    ensures forall k :: k in parent ==> r.parent[k] == parent[k]
    ensures forall i :: 0 <= i < |r.admitted| ==>
      && r.admitted[i] !in parent
      && r.parent[r.admitted[i]] == Some(current)
      && IsValid(g, r.admitted[i])
      && Adjacent(current, r.admitted[i])
    ensures Distinct(r.admitted)
    decreases |ms|
  {
    if ms == [] then
      Admission(parent, [], None)
    else
      var n := Step(current, ms[0]);
      if IsValid(g, n) && n !in parent then
        assert Adjacent(current, n) by {
          assert Move(n.r - current.r, n.c - current.c) == ms[0];
        }
        var parent' := parent[n := Some(current)];
        if n in stop then
          assert Elements([n]) == {n};
          Admission(parent', [n], Some(n))
        else
          assert PolicyMoves(ms[1..]) by {
            assert forall i :: 0 <= i < |ms[1..]| ==> ms[1..][i] == ms[i + 1];
          }
          var r := Admit(g, parent', current, ms[1..], stop);
          assert Elements([n] + r.admitted) == {n} + Elements(r.admitted);
          Admission(r.parent, [n] + r.admitted, r.meet)
      else
        assert PolicyMoves(ms[1..]) by {
          assert forall i :: 0 <= i < |ms[1..]| ==> ms[1..][i] == ms[i + 1];
        }
        Admit(g, parent, current, ms[1..], stop)
  }

  /** An expansion stops early only at a cell of `stop`, the last one it admitted;
      otherwise it admitted no cell of `stop`. */
  lemma {:induction false} AdmitMeet(g: Grid, parent: ParentMap, current: Pos, ms: seq<Move>, stop: set<Pos>, r: Admission)
    requires PolicyMoves(ms)
    requires r == Admit(g, parent, current, ms, stop)
    ensures r.meet.None? ==> forall i :: 0 <= i < |r.admitted| ==> r.admitted[i] !in stop
    ensures r.meet.Some? ==> |r.admitted| > 0 && r.meet.value == r.admitted[|r.admitted| - 1] && r.meet.value in stop
    decreases |ms|
  {
    if ms != [] {
      var n := Step(current, ms[0]);
      assert PolicyMoves(ms[1..]) by {
        assert forall i :: 0 <= i < |ms[1..]| ==> ms[1..][i] == ms[i + 1];
      }
      if IsValid(g, n) && n !in parent {
        if n !in stop {
          var parent' := parent[n := Some(current)];
          var r' := Admit(g, parent', current, ms[1..], stop);
          AdmitMeet(g, parent', current, ms[1..], stop, r');
          assert r.admitted == [n] + r'.admitted && r.meet == r'.meet;
        }
      } else {
        AdmitMeet(g, parent, current, ms[1..], stop, r);
      }
    }
  }

  /** An expansion that did not stop early leaves every valid neighbour with a parent. */
  lemma {:induction false} AdmitCovers(g: Grid, parent: ParentMap, current: Pos, ms: seq<Move>, stop: set<Pos>)
    requires PolicyMoves(ms)
    ensures var r := Admit(g, parent, current, ms, stop);
      r.meet.None? ==>
        forall i :: 0 <= i < |ms| && IsValid(g, Step(current, ms[i])) ==> Step(current, ms[i]) in r.parent
    decreases |ms|
  {
    if ms != [] {
      var n := Step(current, ms[0]);
      assert forall i :: 0 <= i < |ms[1..]| ==> ms[1..][i] == ms[i + 1];
      if IsValid(g, n) && n !in parent {
        if n !in stop {
          AdmitCovers(g, parent[n := Some(current)], current, ms[1..], stop);
        }
      } else {
        AdmitCovers(g, parent, current, ms[1..], stop);
      }
    }
  }

  /**
   Reference definition of what one expansion admits: the neighbours
   `current + m`, for `m` in `ms` in order, that are valid and have no
   parent before the expansion starts.
   */
  function Fresh(g: Grid, parent: ParentMap, current: Pos, ms: seq<Move>): seq<Pos>
  {
    if ms == [] then []
    else
      var n := Step(current, ms[0]);
      (if IsValid(g, n) && n !in parent then [n] else []) + Fresh(g, parent, current, ms[1..])
  }

  /** Giving a parent to a cell that no offset of `ms` reaches does not change `Fresh`. */
  lemma {:induction false} FreshFrame(g: Grid, parent: ParentMap, current: Pos, ms: seq<Move>, n: Pos, x: Option<Pos>)
    requires forall i :: 0 <= i < |ms| ==> Step(current, ms[i]) != n
    ensures Fresh(g, parent[n := x], current, ms) == Fresh(g, parent, current, ms)
    decreases |ms|
  {
    if ms != [] {
      FreshFrame(g, parent, current, ms[1..], n, x);
    }
  }

  /**
   With distinct offsets and no stop set, an expansion admits exactly the
   reference `Fresh` list: a cell admitted earlier in the same expansion can
   never block a later one, so first-discoverer-wins only ever refers to
   cells parented before the expansion.
   */
  lemma {:induction false} AdmitIsFresh(g: Grid, parent: ParentMap, current: Pos, ms: seq<Move>)
    requires PolicyMoves(ms) && DistinctMoves(ms)
    ensures Admit(g, parent, current, ms, {}).admitted == Fresh(g, parent, current, ms)
    decreases |ms|
  {
    if ms != [] {
      var n := Step(current, ms[0]);
      if IsValid(g, n) && n !in parent {
        AdmitIsFresh(g, parent[n := Some(current)], current, ms[1..]);
        forall i | 0 <= i < |ms[1..]|
          ensures Step(current, ms[1..][i]) != n
        {
          assert ms[1..][i] == ms[i + 1] != ms[0];
        }
        FreshFrame(g, parent, current, ms[1..], n, Some(current));
      } else {
        AdmitIsFresh(g, parent, current, ms[1..]);
      }
    }
  }

  lemma {:induction false} FreshAppend(g: Grid, parent: ParentMap, current: Pos, a: seq<Move>, b: seq<Move>)
    ensures Fresh(g, parent, current, a + b) == Fresh(g, parent, current, a) + Fresh(g, parent, current, b)
    decreases |a|
  {
    if a != [] {
      assert (a + b)[0] == a[0];
      assert (a + b)[1..] == a[1..] + b;
      FreshAppend(g, parent, current, a[1..], b);
      var n := Step(current, a[0]);
      var x := if IsValid(g, n) && n !in parent then [n] else [];
      calc {
        Fresh(g, parent, current, a + b);
        x + Fresh(g, parent, current, a[1..] + b);
        x + (Fresh(g, parent, current, a[1..]) + Fresh(g, parent, current, b));
        (x + Fresh(g, parent, current, a[1..])) + Fresh(g, parent, current, b);
        Fresh(g, parent, current, a) + Fresh(g, parent, current, b);
      }
    } else {
      assert a + b == b;
    }
  }

  lemma ReverseAppend<T>(a: seq<T>, b: seq<T>)
    ensures Reverse(a + b) == Reverse(b) + Reverse(a)
  {
  }

  /** The reference admission list of the reversed offsets is the reversed list. */
  lemma {:induction false} FreshReverse(g: Grid, parent: ParentMap, current: Pos, ms: seq<Move>)
    ensures Fresh(g, parent, current, Reverse(ms)) == Reverse(Fresh(g, parent, current, ms))
    decreases |ms|
  {
    if ms != [] {
      var head, rest := ms[..1], ms[1..];
      assert ms == head + rest;
      ReverseAppend(head, rest);
      assert Reverse(head) == head;
      FreshReverse(g, parent, current, rest);
      FreshAppend(g, parent, current, Reverse(rest), head);
      assert Fresh(g, parent, current, ms) == Fresh(g, parent, current, head) + Fresh(g, parent, current, rest) by {
        FreshAppend(g, parent, current, head, rest);
      }
      var fh := Fresh(g, parent, current, head);
      assert |fh| <= 1 by {
        assert head[1..] == [];
      }
      assert Reverse(fh) == fh;
      ReverseAppend(fh, Fresh(g, parent, current, rest));
    }
  }

  /**
   Depth-first expansion walks the offsets in reversed order
   (`reversed(self.moves)`): it pushes exactly the cells breadth-first
   expansion would admit, in the opposite order, so that the stack pops them
   in movement order.
   */
  lemma DfsPushOrder(g: Grid, parent: ParentMap, current: Pos)
    ensures PolicyMoves(Reverse(Moves))
    ensures Admit(g, parent, current, Reverse(Moves), {}).admitted
         == Reverse(Admit(g, parent, current, Moves, {}).admitted)
  {
    var rm := Reverse(Moves);
    assert rm == [Move(-1, -1), Move(0, -1), Move(1, 1), Move(1, 0), Move(0, 1), Move(-1, 0)];
    AdmitIsFresh(g, parent, current, Moves);
    AdmitIsFresh(g, parent, current, rm);
    FreshReverse(g, parent, current, Moves);
  }

  /** A depth map grown by giving every cell of `cells` without a depth the depth `d`. */
  function Extend(D: map<Pos, nat>, cells: seq<Pos>, d: nat): (r: map<Pos, nat>)
    ensures r.Keys == D.Keys + Elements(cells)
    ensures forall k :: k in D ==> r[k] == D[k]
    ensures forall i :: 0 <= i < |cells| && cells[i] !in D ==> r[cells[i]] == d
  {
    map k | k in D.Keys + Elements(cells) :: if k in D then D[k] else d
  }

  lemma {:induction false} DistinctSize(s: seq<Pos>)
    requires Distinct(s)
    ensures |Elements(s)| == |s|
    decreases |s|
  {
    if s != [] {
      var rest := s[1..];
      DistinctSize(rest);
      assert Elements(s) == {s[0]} + Elements(rest);
      assert s[0] !in Elements(rest);
    }
  }

  /** Admitting distinct fresh cells of `V` removes exactly that many cells from
      the not-yet-admitted part of `V`: the searches' termination measure. */
  lemma AdmitShrinks(V: set<Pos>, K: set<Pos>, s: seq<Pos>)
    requires Distinct(s)
    requires forall i :: 0 <= i < |s| ==> s[i] in V && s[i] !in K
    ensures |V - (K + Elements(s))| == |V - K| - |s|
  {
    DistinctSize(s);
    var e := Elements(s);
    assert V - K == (V - (K + e)) + e;
    assert (V - (K + e)) !! e;
  }

  /** One expansion lowers the number of valid cells still without a parent by
      exactly the number of cells it admitted: the searches' termination measure. */
  lemma AdmitMeasure(g: Grid, parent: ParentMap, current: Pos, ms: seq<Move>, stop: set<Pos>, a: Admission)
    requires PolicyMoves(ms)
    requires a == Admit(g, parent, current, ms, stop)
    ensures |ValidCells(g) - a.parent.Keys| + |a.admitted| == |ValidCells(g) - parent.Keys|
  {
    ValidCellsFacts(g);
    AdmitShrinks(ValidCells(g), parent.Keys, a.admitted);
  }

  /** The outcome of one ucs expansion: new cost map, new parent map, and the
      cells pushed on the heap (each with cost `c + 1`), in push order. */
  datatype Relaxation = Relaxation(cost: map<Pos, nat>, parent: ParentMap, pushed: seq<Pos>)

  /**
   The ucs expansion of `current`, popped with cost `c`: a valid neighbour
   gets cost `c + 1` and parent `current`, and is pushed, when it has no cost
   yet or `c + 1` strictly improves its cost.
   */
  function Relax(g: Grid, cost: map<Pos, nat>, parent: ParentMap, current: Pos, c: nat, ms: seq<Move>): Relaxation
    decreases |ms|
  {
    if ms == [] then
      Relaxation(cost, parent, [])
    else
      var n := Step(current, ms[0]);
      if IsValid(g, n) && (n !in cost || c + 1 < cost[n]) then
        var r := Relax(g, cost[n := c + 1], parent[n := Some(current)], current, c, ms[1..]);
        Relaxation(r.cost, r.parent, [n] + r.pushed)
      else
        Relax(g, cost, parent, current, c, ms[1..])
  }

  /**
   Costs never grow, and a cell's cost and parent change only on a strict
   improvement: then it is a valid neighbour of `current`, its cost becomes
   `c + 1`, its parent `current`, and it is pushed.
   */
  lemma {:induction false} RelaxOnlyImproves(g: Grid, cost: map<Pos, nat>, parent: ParentMap, current: Pos, c: nat,
                                             ms: seq<Move>, r: Relaxation)
    requires PolicyMoves(ms)
    requires r == Relax(g, cost, parent, current, c, ms)
    ensures cost.Keys <= r.cost.Keys
    ensures forall k :: k in cost ==> r.cost[k] <= cost[k]
    ensures forall k :: k in r.cost ==>
      || (k in cost && r.cost[k] == cost[k] && Parent(r.parent, k) == Parent(parent, k) && k !in r.pushed)
      || (&& (k !in cost || c + 1 < cost[k])
          && r.cost[k] == c + 1
          && Parent(r.parent, k) == Some(current)
          && IsValid(g, k)
          && Adjacent(current, k)
          && k in r.pushed)
    decreases |ms|
  {
    if ms != [] {
      var n := Step(current, ms[0]);
      assert PolicyMoves(ms[1..]) by {
        assert forall i :: 0 <= i < |ms[1..]| ==> ms[1..][i] == ms[i + 1];
      }
      if IsValid(g, n) && (n !in cost || c + 1 < cost[n]) {
        assert Adjacent(current, n) by {
          assert Move(n.r - current.r, n.c - current.c) == ms[0];
        }
        var cost', parent' := cost[n := c + 1], parent[n := Some(current)];
        var r' := Relax(g, cost', parent', current, c, ms[1..]);
        RelaxOnlyImproves(g, cost', parent', current, c, ms[1..], r');
        assert r == Relaxation(r'.cost, r'.parent, [n] + r'.pushed);
      } else {
        RelaxOnlyImproves(g, cost, parent, current, c, ms[1..], r);
      }
    }
  }

  /** Growing a depth map by one fresh cell, then by `s`, is growing it by `[n] + s`. */
  lemma ExtendCons(D: map<Pos, nat>, n: Pos, s: seq<Pos>, d: nat)
    requires n !in D
    ensures Extend(D[n := d], s, d) == Extend(D, [n] + s, d)
  {
    assert Elements([n] + s) == {n} + Elements(s);
  }

  /**
   When no recorded cost exceeds `c + 1` (which holds in ucs, where costs are
   unit and the heap pops in cost order), the strict-improvement branch never
   fires: the ucs expansion is exactly the breadth-first admission, with cost
   `c + 1` for every admitted cell.
   */
  lemma {:induction false} RelaxIsAdmit(g: Grid, cost: map<Pos, nat>, parent: ParentMap, current: Pos, c: nat, ms: seq<Move>)
    requires PolicyMoves(ms)
    requires cost.Keys == parent.Keys
    requires forall k :: k in cost ==> cost[k] <= c + 1
    ensures var a := Admit(g, parent, current, ms, {});
      Relax(g, cost, parent, current, c, ms) == Relaxation(Extend(cost, a.admitted, c + 1), a.parent, a.admitted)
    decreases |ms|
  {
    if ms == [] {
      assert Extend(cost, [], c + 1) == cost;
    } else {
      var n := Step(current, ms[0]);
      var tail := ms[1..];
      assert PolicyMoves(tail) by {
        assert forall i :: 0 <= i < |tail| ==> tail[i] == ms[i + 1];
      }
      if IsValid(g, n) && n !in cost {
        var cost', parent' := cost[n := c + 1], parent[n := Some(current)];
        RelaxIsAdmit(g, cost', parent', current, c, tail);
        var a' := Admit(g, parent', current, tail, {});
        var r' := Relax(g, cost', parent', current, c, tail);
        assert Admit(g, parent, current, ms, {}) == Admission(a'.parent, [n] + a'.admitted, a'.meet);
        assert Relax(g, cost, parent, current, c, ms) == Relaxation(r'.cost, r'.parent, [n] + r'.pushed);
        ExtendCons(cost, n, a'.admitted, c + 1);
      } else {
        RelaxIsAdmit(g, cost, parent, current, c, tail);
        assert Admit(g, parent, current, ms, {}) == Admit(g, parent, current, tail, {});
        assert Relax(g, cost, parent, current, c, ms) == Relax(g, cost, parent, current, c, tail);
      }
    }
  }

  /**
   An expansion of a tree cell `c` keeps the tree invariant when every
   admitted cell gets depth `D[c] + 1`: admitted cells are valid, one move
   from `c`, and recorded parents are never changed.
   */
  lemma TreeGrow(g: Grid, root: Pos, parent: ParentMap, D: map<Pos, nat>, c: Pos,
                 ms: seq<Move>, stop: set<Pos>, a: Admission)
    requires Tree(g, root, parent, D) && c in parent
    requires PolicyMoves(ms)
    requires a == Admit(g, parent, c, ms, stop)
    ensures Tree(g, root, a.parent, Extend(D, a.admitted, D[c] + 1))
  {
    var D' := Extend(D, a.admitted, D[c] + 1);
    var p' := a.parent;
    forall v | v in p' && v != root
      ensures && p'[v].Some?
              && p'[v].value in p'
              && Adjacent(p'[v].value, v)
              && IsValid(g, v)
              && D'[v] == D'[p'[v].value] + 1
    {
      if v !in parent {
        assert v in Elements(a.admitted);
        var i :| 0 <= i < |a.admitted| && a.admitted[i] == v;
      }
    }
  }
}

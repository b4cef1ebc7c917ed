/**
 Parent maps, path reconstruction (`get_path`) and the search-tree invariant
 every search keeps: a tree rooted at its start cell, one move per link,
 with a depth map counting links back to the root.
 */
module Paths {
  import opened Wrappers
  import opened Grid

  /** The source's `parent_map`: a cell maps to its parent, or to `None` at a root. */
  type ParentMap = map<Pos, Option<Pos>>

  /** `parent_map.get(p)`: the recorded parent, `None` at a root or for an absent cell. */
  function Parent(m: ParentMap, p: Pos): Option<Pos>
  {
    if p in m then m[p] else None
  }

  /** `rank` strictly decreases along every parent link inside `m`, so following
      parent links always ends; this is the acyclicity `get_path` relies on. */
  ghost predicate Ranked(m: ParentMap, rank: map<Pos, nat>)
  {
    && m.Keys <= rank.Keys
    && forall k :: k in m && m[k].Some? && m[k].value in m ==> rank[m[k].value] < rank[k]
  }

  /** `s` read back to front: the source's `[::-1]`. */
  function Reverse<T>(s: seq<T>): seq<T>
  {
    seq(|s|, i requires 0 <= i < |s| => s[|s| - 1 - i])
  }

  /**
   The list `get_path` collects before reversing it: `node`, its parent, its
   grandparent, ... up to the first cell without a parent.
   */
  function Ancestry(m: ParentMap, ghost rank: map<Pos, nat>, node: Pos): (r: seq<Pos>)
    requires Ranked(m, rank)
    ensures |r| > 0 && r[0] == node
    ensures Parent(m, r[|r| - 1]) == None
    ensures forall i :: 0 < i < |r| ==> Parent(m, r[i - 1]) == Some(r[i])
    decreases if node in m then rank[node] + 1 else 0
  {
    match Parent(m, node)
    case None => [node]
    case Some(p) => [node] + Ancestry(m, rank, p)
  }

  /**
   `get_path`: the chain of parent links ending at `node`, in root-to-node
   order. Its last cell is `node`, its first cell has no parent, and each cell
   is the recorded parent of the next.
   */
  function GetPath(m: ParentMap, ghost rank: map<Pos, nat>, node: Pos): (r: seq<Pos>)
    requires Ranked(m, rank)
    ensures |r| > 0 && r[|r| - 1] == node
    ensures Parent(m, r[0]) == None
    ensures forall i :: 0 < i < |r| ==> Parent(m, r[i]) == Some(r[i - 1])
  {
    Reverse(Ancestry(m, rank, node))
  }

  /** The three properties of `Ancestry` determine it: any list that starts at
      `node`, links each cell to its parent and ends at a parentless cell is it. */
  lemma {:induction false} AncestryUnique(m: ParentMap, rank: map<Pos, nat>, node: Pos, a: seq<Pos>)
    requires Ranked(m, rank)
    requires |a| > 0 && a[0] == node
    requires Parent(m, a[|a| - 1]) == None
    requires forall i :: 0 < i < |a| ==> Parent(m, a[i - 1]) == Some(a[i])
    ensures a == Ancestry(m, rank, node)
    decreases |a|
  {
    match Parent(m, node)
    case None =>
    case Some(p) =>
      assert |a| > 1;
      var tail := a[1..];
      assert tail[0] == p by {
        assert Parent(m, a[0]) == Some(a[1]);
      }
      forall i | 0 < i < |tail|
        ensures Parent(m, tail[i - 1]) == Some(tail[i])
      {
        assert Parent(m, a[i]) == Some(a[i + 1]);
      }
      AncestryUnique(m, rank, p, tail);
      assert a == [node] + tail;
  }

  /** The properties stated by `GetPath` characterise it: any path ending at
      `node` whose first cell has no parent and whose every cell is the parent
      of the next is exactly what `get_path` returns. */
  lemma GetPathUnique(m: ParentMap, rank: map<Pos, nat>, node: Pos, s: seq<Pos>)
    requires Ranked(m, rank)
    requires |s| > 0 && s[|s| - 1] == node
    requires Parent(m, s[0]) == None
    requires forall i :: 0 < i < |s| ==> Parent(m, s[i]) == Some(s[i - 1])
    ensures s == GetPath(m, rank, node)
  {
    var a := Reverse(s);
    forall i | 0 < i < |a|
      ensures Parent(m, a[i - 1]) == Some(a[i])
    {
      assert a[i - 1] == s[|s| - i] && a[i] == s[|s| - 1 - i];
    }
    AncestryUnique(m, rank, node, a);
    assert Reverse(a) == s;
  }

  /**
   A search tree rooted at `root`: the root has no parent; every other cell
   has a parent that is also in the map, is valid and one policy move away
   from it; `D` gives each cell the number of parent links back to the root.
   */
  ghost predicate Tree(g: Grid, root: Pos, m: ParentMap, D: map<Pos, nat>)
  {
    && m.Keys == D.Keys
    && root in m && m[root] == None && D[root] == 0
    && forall v :: v in m && v != root ==>
         && m[v].Some?
         && m[v].value in m
         && Adjacent(m[v].value, v)
         && IsValid(g, v)
         && D[v] == D[m[v].value] + 1
  }

  lemma TreeRanked(g: Grid, root: Pos, m: ParentMap, D: map<Pos, nat>)
    requires Tree(g, root, m, D)
    ensures Ranked(m, D)
  {
  }

  /** In a tree, the ancestry of `v` has `D[v] + 1` cells, the i-th at depth `D[v] - i`,
      and climbs from `v` to the root one move at a time. */
  lemma {:induction false} TreeAncestry(g: Grid, root: Pos, m: ParentMap, D: map<Pos, nat>, v: Pos)
    requires Tree(g, root, m, D) && v in m
    ensures Ranked(m, D)
    ensures var a := Ancestry(m, D, v);
      && |a| == D[v] + 1
      && a[|a| - 1] == root
      && (forall i :: 0 <= i < |a| ==> a[i] in m && D[a[i]] == D[v] - i)
      && (forall i :: 0 <= i < |a| - 1 ==> Adjacent(a[i + 1], a[i]) && IsValid(g, a[i]))
    decreases D[v]
  {
    TreeRanked(g, root, m, D);
    if v != root {
      var p := m[v].value;
      TreeAncestry(g, root, m, D, p);
      var rest := Ancestry(m, D, p);
      assert Ancestry(m, D, v) == [v] + rest;
    }
  }

  /** In a tree, `get_path` of any cell is a route from the root to it with
      `D[v] + 1` cells, the i-th at depth i; in particular its cells are distinct. */
  lemma TreePath(g: Grid, root: Pos, m: ParentMap, D: map<Pos, nat>, v: Pos)
    requires Tree(g, root, m, D) && v in m
    ensures Ranked(m, D)
    ensures var p := GetPath(m, D, v);
      && Route(g, root, v, p)
      && |p| == D[v] + 1
      && forall i :: 0 <= i < |p| ==> p[i] in m && D[p[i]] == i
  {
    TreeAncestry(g, root, m, D, v);
    var a := Ancestry(m, D, v);
    var p := GetPath(m, D, v);
    assert p == Reverse(a);
    forall i | 0 < i < |p|
      ensures Adjacent(p[i - 1], p[i]) && IsValid(g, p[i])
    {
      var k := |a| - 1 - i;
      assert p[i - 1] == a[k + 1] && p[i] == a[k];
    }
    forall i | 0 <= i < |p|
      ensures p[i] in m && D[p[i]] == i
    {
      assert p[i] == a[|a| - 1 - i];
    }
  }

  /**
   The bidirectional result: the forward path to the meeting cell followed by
   the backward path from it, reversed, without its first cell (the meeting
   cell itself).
   */
  function Stitch(f: ParentMap, ghost fD: map<Pos, nat>, b: ParentMap, ghost bD: map<Pos, nat>, meet: Pos): seq<Pos>
    requires Ranked(f, fD) && Ranked(b, bD)
  {
    GetPath(f, fD, meet) + Reverse(GetPath(b, bD, meet))[1..]
  }

  /**
   Stitching a forward tree rooted at `s` and a backward tree rooted at `t`
   at a cell both contain yields a path from `s` to `t` with one policy move
   per step (the reversed half uses the negated offsets, which are policy
   moves too), valid cells strictly between its ends, and the meeting cell
   exactly once, at index `fD[meet]`.
   */
  lemma StitchRoute(g: Grid, s: Pos, t: Pos, f: ParentMap, fD: map<Pos, nat>,
                    b: ParentMap, bD: map<Pos, nat>, meet: Pos)
    requires Tree(g, s, f, fD) && Tree(g, t, b, bD)
    requires meet in f && meet in b
    ensures Ranked(f, fD) && Ranked(b, bD)
    ensures var p := Stitch(f, fD, b, bD, meet);
      && |p| == fD[meet] + bD[meet] + 1
      && p[0] == s && p[|p| - 1] == t
      && Chained(p)
      && (forall i :: 0 < i < |p| - 1 ==> IsValid(g, p[i]))
      && (forall i :: 0 <= i < |p| ==> (p[i] == meet <==> i == fD[meet]))
  {
    TreePath(g, s, f, fD, meet);
    TreePath(g, t, b, bD, meet);
    var fw := GetPath(f, fD, meet);
    var bk := GetPath(b, bD, meet);
    var tail := Reverse(bk)[1..];
    var p := fw + tail;
    assert p == Stitch(f, fD, b, bD, meet);
    var n := fD[meet];
    assert |fw| == n + 1 && |tail| == bD[meet];
    // tail[j] is the backward-tree cell at depth bD[meet] - 1 - j
    assert forall j :: 0 <= j < |tail| ==> tail[j] == bk[|bk| - 2 - j];
    if |tail| == 0 {
      assert bD[meet] == 0;
      assert meet == t;
    } else {
      assert p[|p| - 1] == bk[0] == t;
    }
    forall i | 0 < i < |p|
      ensures Adjacent(p[i - 1], p[i])
    {
      if i <= n {
        assert p[i - 1] == fw[i - 1] && p[i] == fw[i];
      } else {
        var k := |bk| - 1 - (i - n);
        assert p[i] == bk[k] && p[i - 1] == bk[k + 1];
        assert Adjacent(bk[k], bk[k + 1]);
        AdjacentSymmetric(bk[k], bk[k + 1]);
      }
    }
    forall i | 0 < i < |p| - 1
      ensures IsValid(g, p[i])
    {
      if i > n {
        var k := |bk| - 1 - (i - n);
        assert p[i] == bk[k] && k > 0;
      }
    }
    forall i | 0 <= i < |p|
      ensures p[i] == meet <==> i == n
    {
      if i < n {
        assert fD[p[i]] == i && fD[meet] == n;
      } else if i > n {
        var k := |bk| - 1 - (i - n);
        assert p[i] == bk[k] && bD[bk[k]] == k < bD[meet];
      }
    }
  }
}

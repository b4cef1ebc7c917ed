/**
 Bidirectional breadth-first search (`bidirectional`). A forward tree grows
 from `start` and a backward tree from `target`, both with the policy moves;
 each round expands the front of the forward queue and then the front of the
 backward queue. The search stops at the first admitted cell the other tree
 already holds and stitches the two tree paths there; it gives up as soon as
 either queue is empty.
 */
module Bidirectional {
  import opened Wrappers
  import opened Grid
  import opened Paths
  import opened Expansion
  import opened Layers

  /** Some policy move from `p` reaches a valid cell. */
  predicate HasValidNeighbour(g: Grid, p: Pos)
  {
    exists i :: 0 <= i < |Moves| && IsValid(g, Step(p, Moves[i]))
  }

  /**
   The invariant of one side: a tree rooted at `root` whose non-root cells are
   valid, a queue of tree cells, expanded cells whose valid neighbours are all
   in the tree, and every tree cell expanded or queued.
   */
  ghost predicate Side(g: Grid, root: Pos, q: seq<Pos>, p: ParentMap, D: map<Pos, nat>, explored: set<Pos>)
  {
    && Tree(g, root, p, D)
    && p.Keys <= ValidCells(g) + {root}
    && (forall i :: 0 <= i < |q| ==> q[i] in p)
    && explored <= p.Keys
    && (forall u :: u in explored ==> Closed(g, p, u))
    && (forall v :: v in p ==> v in explored || v in Elements(q))
  }

  /** The not-yet-reached valid cells plus the queue: each side's share of the loop measure. */
  function Measure(g: Grid, q: seq<Pos>, p: ParentMap): nat
  {
    |ValidCells(g) - p.Keys| + |q|
  }

  /** One side's expansion of its queue front `c` keeps its tree. */
  lemma SideTree(g: Grid, root: Pos, q: seq<Pos>, p: ParentMap, D: map<Pos, nat>, explored: set<Pos>,
                 stop: set<Pos>, c: Pos, a: Admission)
    requires Side(g, root, q, p, D, explored) && |q| > 0 && c == q[0]
    requires a == Admit(g, p, c, Moves, stop)
    ensures c in D
    ensures Tree(g, root, a.parent, Extend(D, a.admitted, D[c] + 1))
    ensures a.parent.Keys <= ValidCells(g) + {root}
  {
    TreeGrow(g, root, p, D, c, Moves, stop, a);
    ValidCellsFacts(g);
  }

  /** One side's expansion of `c` without a meeting keeps the queue, closure and coverage parts. */
  lemma SideFrontier(g: Grid, root: Pos, q: seq<Pos>, p: ParentMap, D: map<Pos, nat>, explored: set<Pos>,
                     stop: set<Pos>, c: Pos, a: Admission, q': seq<Pos>)
    requires Side(g, root, q, p, D, explored) && |q| > 0 && c == q[0]
    requires a == Admit(g, p, c, Moves, stop) && a.meet.None?
    requires q' == q[1..] + a.admitted
    ensures forall i :: 0 <= i < |q'| ==> q'[i] in a.parent
    ensures explored + {c} <= a.parent.Keys
    ensures forall u :: u in explored + {c} ==> Closed(g, a.parent, u)
    ensures forall v :: v in a.parent ==> v in explored + {c} || v in Elements(q')
  {
    AdmitCovers(g, p, c, Moves, stop);
    QueueGrows(p, q, a.parent, a.admitted, q');
    assert Elements(q') == Elements(q[1..]) + Elements(a.admitted);
    assert Elements(q) == {c} + Elements(q[1..]) by {
      assert q == [c] + q[1..];
    }
  }

  /** Dropping the front of a queue of parented cells and appending parented cells keeps it parented. */
  lemma QueueGrows(p: ParentMap, q: seq<Pos>, p': ParentMap, admitted: seq<Pos>, q': seq<Pos>)
    requires |q| > 0 && q' == q[1..] + admitted
    requires forall i :: 0 <= i < |q| ==> q[i] in p
    requires p.Keys <= p'.Keys
    requires forall i :: 0 <= i < |admitted| ==> admitted[i] in p'
    ensures forall i :: 0 <= i < |q'| ==> q'[i] in p'
  {
    forall i | 0 <= i < |q'|
      ensures q'[i] in p'
    {
      if i < |q| - 1 {
        assert q'[i] == q[i + 1];
      } else {
        assert q'[i] == admitted[i - (|q| - 1)];
      }
    }
  }

  /** One side's expansion without a meeting keeps the side invariant. */
  lemma SideStep(g: Grid, root: Pos, q: seq<Pos>, p: ParentMap, D: map<Pos, nat>, explored: set<Pos>,
                 stop: set<Pos>, c: Pos, a: Admission)
    requires Side(g, root, q, p, D, explored) && |q| > 0 && c == q[0]
    requires a == Admit(g, p, c, Moves, stop) && a.meet.None?
    ensures c in D
    ensures Side(g, root, q[1..] + a.admitted, a.parent, Extend(D, a.admitted, D[c] + 1), explored + {c})
    ensures Measure(g, q[1..] + a.admitted, a.parent) < Measure(g, q, p)
  {
    SideTree(g, root, q, p, D, explored, stop, c, a);
    SideFrontier(g, root, q, p, D, explored, stop, c, a, q[1..] + a.admitted);
    AdmitMeasure(g, p, c, Moves, stop, a);
  }

  /** When `start` is the target: the searches have done nothing yet. */
  ghost predicate Untouched(s: Pos, fq: seq<Pos>, fp: ParentMap, fe: set<Pos>, bq: seq<Pos>, bp: ParentMap, be: set<Pos>)
  {
    fq == [s] && bq == [s] && fp == map[s := None] && bp == map[s := None] && fe == {} && be == {}
  }

  /**
   The invariant at the head of a round: both sides' invariants; disjoint
   trees when the ends differ (a shared cell would have ended the search);
   nothing expanded before the forward side expands `start`; when `start` is
   the target, either nothing has happened or both queues are empty because
   `start` has no valid neighbour.
   */
  ghost predicate BiInv(g: Grid, s: Pos, t: Pos, fq: seq<Pos>, fp: ParentMap, fD: map<Pos, nat>, fe: set<Pos>,
                        bq: seq<Pos>, bp: ParentMap, bD: map<Pos, nat>, be: set<Pos>)
  {
    && Side(g, s, fq, fp, fD, fe)
    && Side(g, t, bq, bp, bD, be)
    && (s != t ==> fp.Keys !! bp.Keys)
    && (s in fe || (fq == [s] && fe == {} && be == {}))
    && (s == t ==> Untouched(s, fq, fp, fe, bq, bp, be) || (fq == [] && bq == [] && !HasValidNeighbour(g, s)))
  }

  /**
   When `start` is the target, between the two halves of the first round:
   the forward queue holds `start`'s valid neighbours, one level deep, and
   the backward side is untouched.
   */
  ghost predicate TargetMid(g: Grid, s: Pos, fq: seq<Pos>, fp: ParentMap, fD: map<Pos, nat>,
                            bq: seq<Pos>, bp: ParentMap, be: set<Pos>)
  {
    && bq == [s] && bp == map[s := None] && be == {}
    && fp.Keys == {s} + Elements(fq)
    && (forall v :: v in fp && v != s ==> v in fD && fD[v] == 1)
    && (HasValidNeighbour(g, s) <==> |fq| > 0)
  }

  /** The invariant between the forward and the backward half of a round. */
  ghost predicate BiMid(g: Grid, s: Pos, t: Pos, fq: seq<Pos>, fp: ParentMap, fD: map<Pos, nat>, fe: set<Pos>,
                        bq: seq<Pos>, bp: ParentMap, bD: map<Pos, nat>, be: set<Pos>)
  {
    && Side(g, s, fq, fp, fD, fe)
    && Side(g, t, bq, bp, bD, be)
    && |bq| > 0
    && (s != t ==> fp.Keys !! bp.Keys)
    && s in fe
    && (s == t ==> TargetMid(g, s, fq, fp, fD, bq, bp, be))
  }

  lemma BiInit(g: Grid, s: Pos, t: Pos)
    ensures BiInv(g, s, t, [s], map[s := None], map[s := 0], {}, [t], map[t := None], map[t := 0], {})
  {
    assert Elements([s]) == {s} && Elements([t]) == {t};
  }

  /** A valid neighbour of a closed cell is in the tree. */
  lemma ClosedNeighbour(g: Grid, p: ParentMap, u: Pos, v: Pos)
    requires Closed(g, p, u) && Adjacent(u, v) && IsValid(g, v)
    ensures v in p
  {
    var k := AdjacentIsStep(u, v);
  }

  /** With distinct ends, a forward expansion without a meeting keeps the trees disjoint. */
  lemma ForwardDisjoint(g: Grid, fp: ParentMap, bp: ParentMap, c: Pos, a: Admission)
    requires fp.Keys !! bp.Keys
    requires a == Admit(g, fp, c, Moves, bp.Keys) && a.meet.None?
    ensures a.parent.Keys !! bp.Keys
  {
    AdmitMeet(g, fp, c, Moves, bp.Keys, a);
  }

  /** When `start` is the target, the first forward expansion cannot meet, and leads to `TargetMid`. */
  lemma ForwardSame(g: Grid, s: Pos, fq: seq<Pos>, fp: ParentMap, fD: map<Pos, nat>, fe: set<Pos>,
                    bq: seq<Pos>, bp: ParentMap, be: set<Pos>, c: Pos, a: Admission)
    requires Untouched(s, fq, fp, fe, bq, bp, be) && Tree(g, s, fp, fD) && c == fq[0]
    requires a == Admit(g, fp, c, Moves, bp.Keys)
    ensures a.meet.None? && c in fD
    ensures TargetMid(g, s, fq[1..] + a.admitted, a.parent, Extend(fD, a.admitted, fD[c] + 1), bq, bp, be)
  {
    assert c == s;
    AdmitMeet(g, fp, s, Moves, bp.Keys, a);
    ForwardFromTarget(g, s, fp, fD, bp.Keys, a);
    assert fq[1..] + a.admitted == a.admitted;
  }

  /**
   The forward half of a round ends in a meeting only when the ends differ,
   and then the stitched path runs from `s` to `t` through valid cells and
   passes the meeting cell once.
   */
  lemma ForwardMeet(g: Grid, s: Pos, t: Pos, fq: seq<Pos>, fp: ParentMap, fD: map<Pos, nat>, fe: set<Pos>,
                    bq: seq<Pos>, bp: ParentMap, bD: map<Pos, nat>, be: set<Pos>, c: Pos, a: Admission)
    requires BiInv(g, s, t, fq, fp, fD, fe, bq, bp, bD, be) && |fq| > 0 && |bq| > 0 && c == fq[0]
    requires a == Admit(g, fp, c, Moves, bp.Keys) && a.meet.Some?
    ensures s != t && c in fD
    ensures Ranked(a.parent, Extend(fD, a.admitted, fD[c] + 1)) && Ranked(bp, bD)
    ensures MeetingPath(g, s, t, Stitch(a.parent, Extend(fD, a.admitted, fD[c] + 1), bp, bD, a.meet.value), a.meet.value)
  {
    if s == t {
      ForwardSame(g, s, fq, fp, fD, fe, bq, bp, be, c, a);
      assert false;
    }
    SideTree(g, s, fq, fp, fD, fe, bp.Keys, c, a);
    AdmitMeet(g, fp, c, Moves, bp.Keys, a);
    MeetPath(g, s, t, a.parent, Extend(fD, a.admitted, fD[c] + 1), bp, bD, a.meet.value);
  }

  /** A forward expansion without a meeting leads from `BiInv` to `BiMid`. */
  lemma ForwardMid(g: Grid, s: Pos, t: Pos, fq: seq<Pos>, fp: ParentMap, fD: map<Pos, nat>, fe: set<Pos>,
                   bq: seq<Pos>, bp: ParentMap, bD: map<Pos, nat>, be: set<Pos>, c: Pos, a: Admission)
    requires BiInv(g, s, t, fq, fp, fD, fe, bq, bp, bD, be) && |fq| > 0 && |bq| > 0 && c == fq[0]
    requires a == Admit(g, fp, c, Moves, bp.Keys) && a.meet.None?
    ensures c in fD
    ensures BiMid(g, s, t, fq[1..] + a.admitted, a.parent, Extend(fD, a.admitted, fD[c] + 1), fe + {c},
                  bq, bp, bD, be)
    ensures Measure(g, fq[1..] + a.admitted, a.parent) < Measure(g, fq, fp)
  {
    SideStep(g, s, fq, fp, fD, fe, bp.Keys, c, a);
    if s == t {
      ForwardSame(g, s, fq, fp, fD, fe, bq, bp, be, c, a);
    } else {
      ForwardDisjoint(g, fp, bp, c, a);
    }
    MidAssemble(g, s, t, fq[1..] + a.admitted, a.parent, Extend(fD, a.admitted, fD[c] + 1), fe + {c}, bq, bp, bD, be);
  }

  /** `BiMid` from its parts. */
  lemma MidAssemble(g: Grid, s: Pos, t: Pos, fq: seq<Pos>, fp: ParentMap, fD: map<Pos, nat>, fe: set<Pos>,
                    bq: seq<Pos>, bp: ParentMap, bD: map<Pos, nat>, be: set<Pos>)
    requires Side(g, s, fq, fp, fD, fe) && Side(g, t, bq, bp, bD, be)
    requires |bq| > 0 && s in fe
    requires s != t ==> fp.Keys !! bp.Keys
    requires s == t ==> TargetMid(g, s, fq, fp, fD, bq, bp, be)
    ensures BiMid(g, s, t, fq, fp, fD, fe, bq, bp, bD, be)
  {
  }

  /** When `start` is the target, the first forward expansion admits exactly `start`'s valid neighbours, at depth 1. */
  lemma ForwardFromTarget(g: Grid, s: Pos, fp: ParentMap, fD: map<Pos, nat>, stop: set<Pos>, a: Admission)
    requires fp.Keys == {s} && Tree(g, s, fp, fD)
    requires a == Admit(g, fp, s, Moves, stop) && a.meet.None?
    ensures a.parent.Keys == {s} + Elements(a.admitted)
    ensures forall v :: v in a.parent && v != s ==> Extend(fD, a.admitted, fD[s] + 1)[v] == 1
    ensures HasValidNeighbour(g, s) <==> |a.admitted| > 0
  {
    if HasValidNeighbour(g, s) {
      NeighbourAdmitted(g, fp, s, stop, a);
    }
    AdmittedNeighbour(g, fp, s, stop, a);
  }

  /** A cell alone in its tree admits a valid neighbour, if it has one, unless the expansion meets. */
  lemma NeighbourAdmitted(g: Grid, p: ParentMap, c: Pos, stop: set<Pos>, a: Admission)
    requires p.Keys == {c}
    requires a == Admit(g, p, c, Moves, stop) && a.meet.None?
    requires HasValidNeighbour(g, c)
    ensures |a.admitted| > 0
  {
    var i :| 0 <= i < |Moves| && IsValid(g, Step(c, Moves[i]));
    StepMoves(c, i);
    AdmitCovers(g, p, c, Moves, stop);
    assert Step(c, Moves[i]) in Elements(a.admitted);
  }

  /** With distinct ends, a backward expansion without a meeting keeps the trees disjoint. */
  lemma BackwardDisjoint(g: Grid, fp: ParentMap, bp: ParentMap, c: Pos, b: Admission)
    requires fp.Keys !! bp.Keys
    requires b == Admit(g, bp, c, Moves, fp.Keys) && b.meet.None?
    ensures fp.Keys !! b.parent.Keys
  {
    AdmitMeet(g, bp, c, Moves, fp.Keys, b);
  }

  /**
   The backward half of a round ends in a meeting: the stitched path runs
   from `s` to `t` through valid cells and passes the meeting cell once; when
   `start` is the target, the meeting cell is a valid neighbour `n` of
   `start` and the path is `[s, n, s]`.
   */
  lemma BackwardMeet(g: Grid, s: Pos, t: Pos, fq: seq<Pos>, fp: ParentMap, fD: map<Pos, nat>, fe: set<Pos>,
                     bq: seq<Pos>, bp: ParentMap, bD: map<Pos, nat>, be: set<Pos>, c: Pos, b: Admission)
    requires BiMid(g, s, t, fq, fp, fD, fe, bq, bp, bD, be) && c == bq[0]
    requires b == Admit(g, bp, c, Moves, fp.Keys) && b.meet.Some?
    ensures c in bD
    ensures Ranked(fp, fD) && Ranked(b.parent, Extend(bD, b.admitted, bD[c] + 1))
    ensures var p := Stitch(fp, fD, b.parent, Extend(bD, b.admitted, bD[c] + 1), b.meet.value);
      && MeetingPath(g, s, t, p, b.meet.value)
      && (s == t ==> HasValidNeighbour(g, s) && p == [s, b.meet.value, s])
  {
    SideTree(g, t, bq, bp, bD, be, fp.Keys, c, b);
    AdmitMeet(g, bp, c, Moves, fp.Keys, b);
    if s == t {
      BackwardSameMeet(g, s, fq, fp, fD, fe, bq, bp, bD, be, b);
    }
    MeetPath(g, s, t, fp, fD, b.parent, Extend(bD, b.admitted, bD[c] + 1), b.meet.value);
  }

  /** When `start` is the target, a backward meeting is a valid neighbour one level deep in both trees. */
  lemma BackwardSameMeet(g: Grid, s: Pos, fq: seq<Pos>, fp: ParentMap, fD: map<Pos, nat>, fe: set<Pos>,
                         bq: seq<Pos>, bp: ParentMap, bD: map<Pos, nat>, be: set<Pos>, b: Admission)
    requires BiMid(g, s, s, fq, fp, fD, fe, bq, bp, bD, be)
    requires b == Admit(g, bp, s, Moves, fp.Keys) && b.meet.Some?
    ensures b.meet.value in fD && fD[b.meet.value] == 1
    ensures s in bD && b.meet.value in Extend(bD, b.admitted, bD[s] + 1)
    ensures Extend(bD, b.admitted, bD[s] + 1)[b.meet.value] == 1
    ensures HasValidNeighbour(g, s)
  {
    BackwardMeetDepth(g, s, fp, fD, bp, bD, b);
    BackwardMeetNeighbour(g, s, fp, bp, b);
  }

  /** A backward expansion without a meeting leads from `BiMid` back to `BiInv`. */
  lemma BackwardInv(g: Grid, s: Pos, t: Pos, fq: seq<Pos>, fp: ParentMap, fD: map<Pos, nat>, fe: set<Pos>,
                    bq: seq<Pos>, bp: ParentMap, bD: map<Pos, nat>, be: set<Pos>, c: Pos, b: Admission)
    requires BiMid(g, s, t, fq, fp, fD, fe, bq, bp, bD, be) && c == bq[0]
    requires b == Admit(g, bp, c, Moves, fp.Keys) && b.meet.None?
    ensures c in bD
    ensures BiInv(g, s, t, fq, fp, fD, fe, bq[1..] + b.admitted, b.parent, Extend(bD, b.admitted, bD[c] + 1),
                  be + {c})
    ensures Measure(g, bq[1..] + b.admitted, b.parent) < Measure(g, bq, bp)
  {
    SideStep(g, t, bq, bp, bD, be, fp.Keys, c, b);
    var bq', bD' := bq[1..] + b.admitted, Extend(bD, b.admitted, bD[c] + 1);
    if s == t {
      BackwardEmpties(g, s, fq, fp, fD, fe, bq, bp, bD, be, b);
    } else {
      BackwardDisjoint(g, fp, bp, c, b);
    }
    InvAssemble(g, s, t, fq, fp, fD, fe, bq', b.parent, bD', be + {c});
  }

  /** When `start` is the target and the backward expansion does not meet, both queues are now empty. */
  lemma BackwardEmpties(g: Grid, s: Pos, fq: seq<Pos>, fp: ParentMap, fD: map<Pos, nat>, fe: set<Pos>,
                        bq: seq<Pos>, bp: ParentMap, bD: map<Pos, nat>, be: set<Pos>, b: Admission)
    requires BiMid(g, s, s, fq, fp, fD, fe, bq, bp, bD, be)
    requires b == Admit(g, bp, s, Moves, fp.Keys) && b.meet.None?
    ensures !HasValidNeighbour(g, s) && fq == [] && bq[1..] + b.admitted == []
  {
    if HasValidNeighbour(g, s) {
      NeighbourMeets(g, s, fp, bp, b);
    }
    AdmittedNeighbour(g, bp, s, fp.Keys, b);
  }

  /** `BiInv` from its parts. */
  lemma InvAssemble(g: Grid, s: Pos, t: Pos, fq: seq<Pos>, fp: ParentMap, fD: map<Pos, nat>, fe: set<Pos>,
                    bq: seq<Pos>, bp: ParentMap, bD: map<Pos, nat>, be: set<Pos>)
    requires Side(g, s, fq, fp, fD, fe) && Side(g, t, bq, bp, bD, be)
    requires s != t ==> fp.Keys !! bp.Keys
    requires s in fe
    requires s == t ==> fq == [] && bq == [] && !HasValidNeighbour(g, s)
    ensures BiInv(g, s, t, fq, fp, fD, fe, bq, bp, bD, be)
  {
  }

  /** When `start` is the target, a backward meeting cell is one level deep in both trees. */
  lemma BackwardMeetDepth(g: Grid, s: Pos, fp: ParentMap, fD: map<Pos, nat>, bp: ParentMap, bD: map<Pos, nat>,
                          b: Admission)
    requires Tree(g, s, bp, bD) && bp.Keys == {s}
    requires forall v :: v in fp && v != s ==> v in fD && fD[v] == 1
    requires b == Admit(g, bp, s, Moves, fp.Keys) && b.meet.Some?
    ensures b.meet.value in fD && fD[b.meet.value] == 1
    ensures s in bD && b.meet.value in Extend(bD, b.admitted, bD[s] + 1)
    ensures Extend(bD, b.admitted, bD[s] + 1)[b.meet.value] == 1
  {
    AdmitMeet(g, bp, s, Moves, fp.Keys, b);
    var m := b.meet.value;
    assert m in Elements(b.admitted) && m !in bp;
  }

  /** A backward meeting from `start` lies on a valid neighbour of `start`. */
  lemma BackwardMeetNeighbour(g: Grid, s: Pos, fp: ParentMap, bp: ParentMap, b: Admission)
    requires b == Admit(g, bp, s, Moves, fp.Keys) && b.meet.Some?
    ensures HasValidNeighbour(g, s)
  {
    AdmitMeet(g, bp, s, Moves, fp.Keys, b);
    var k := AdjacentIsStep(s, b.meet.value);
    assert IsValid(g, Step(s, Moves[k]));
  }

  /**
   When `start` is the target, the first backward expansion meets if `start`
   has a valid neighbour: every valid neighbour is already in the forward
   tree, so the first one admitted is a meeting.
   */
  lemma NeighbourMeets(g: Grid, s: Pos, fp: ParentMap, bp: ParentMap, b: Admission)
    requires bp.Keys == {s}
    requires Closed(g, fp, s)
    requires b == Admit(g, bp, s, Moves, fp.Keys)
    requires HasValidNeighbour(g, s)
    ensures b.meet.Some?
  {
    var i :| 0 <= i < |Moves| && IsValid(g, Step(s, Moves[i]));
    StepMoves(s, i);
    AdmitFirstMeets(g, bp, s, Moves, fp.Keys, i);
  }

  /** An expansion admits something only from a cell with a valid neighbour. */
  lemma AdmittedNeighbour(g: Grid, parent: ParentMap, c: Pos, stop: set<Pos>, a: Admission)
    requires a == Admit(g, parent, c, Moves, stop)
    ensures |a.admitted| > 0 ==> HasValidNeighbour(g, c)
  {
    if |a.admitted| > 0 {
      var k := AdjacentIsStep(c, a.admitted[0]);
      assert IsValid(g, Step(c, Moves[k]));
    }
  }

  /**
   An expansion in which every valid neighbour without a parent is a stop
   cell ends in a meeting, provided some move `k` reaches such a neighbour.
   */
  lemma {:induction false} AdmitFirstMeets(g: Grid, parent: ParentMap, c: Pos, ms: seq<Move>, stop: set<Pos>, k: nat)
    requires PolicyMoves(ms)
    requires forall i :: 0 <= i < |ms| && IsValid(g, Step(c, ms[i])) && Step(c, ms[i]) !in parent ==>
      Step(c, ms[i]) in stop
    requires k < |ms| && IsValid(g, Step(c, ms[k])) && Step(c, ms[k]) !in parent
    ensures Admit(g, parent, c, ms, stop).meet.Some?
    decreases |ms|
  {
    var n := Step(c, ms[0]);
    if !(IsValid(g, n) && n !in parent) {
      var tail := ms[1..];
      assert forall i :: 0 <= i < |tail| ==> tail[i] == ms[i + 1];
      assert Step(c, tail[k - 1]) == Step(c, ms[k]);
      AdmitFirstMeets(g, parent, c, tail, stop, k - 1);
    }
  }

  /** The count of `x` in a sequence that holds it at index `n` only. */
  lemma OnceCount(p: seq<Pos>, x: Pos, n: nat)
    requires n < |p|
    requires forall i :: 0 <= i < |p| ==> (p[i] == x <==> i == n)
    ensures multiset(p)[x] == 1
  {
    assert p == p[..n] + [x] + p[n + 1..];
    assert x !in p[..n];
    var tail := p[n + 1..];
    assert x !in tail by {
      forall j | 0 <= j < |tail|
        ensures tail[j] != x
      {
        assert tail[j] == p[n + 1 + j];
      }
    }
    assert multiset(p) == multiset(p[..n]) + multiset{x} + multiset(p[n + 1..]);
  }

  /** `p` runs from `s` to `t` with one policy move per step through valid interior cells and holds `meet` once. */
  ghost predicate MeetingPath(g: Grid, s: Pos, t: Pos, p: seq<Pos>, meet: Pos)
  {
    && |p| > 0 && p[0] == s && p[|p| - 1] == t
    && Chained(p)
    && (forall i :: 0 < i < |p| - 1 ==> IsValid(g, p[i]))
    && multiset(p)[meet] == 1
  }

  /**
   The stitched path at a meeting cell: it runs from `s` to `t` with one
   policy move per step, its interior cells are valid, and the meeting cell
   occurs in it exactly once. When both ends are one cell and the meeting
   cell is one level deep in both trees, the path is `[s, meet, s]`.
   */
  lemma MeetPath(g: Grid, s: Pos, t: Pos, fp: ParentMap, fD: map<Pos, nat>, bp: ParentMap, bD: map<Pos, nat>,
                 meet: Pos)
    requires Tree(g, s, fp, fD) && Tree(g, t, bp, bD) && meet in fp && meet in bp
    ensures Ranked(fp, fD) && Ranked(bp, bD)
    ensures var p := Stitch(fp, fD, bp, bD, meet);
      && MeetingPath(g, s, t, p, meet)
      && (s == t && fD[meet] == 1 && bD[meet] == 1 ==> p == [s, meet, s])
  {
    StitchRoute(g, s, t, fp, fD, bp, bD, meet);
    var p := Stitch(fp, fD, bp, bD, meet);
    OnceCount(p, meet, fD[meet]);
  }

  /**
   The loop ends with an empty queue: when the ends differ, no route exists.
   If the forward queue emptied, the forward tree is closed and misses the
   target; if the backward queue emptied, the backward tree is closed, so it
   holds the second cell of any route, which the forward tree holds too.
   */
  lemma BiExhausted(g: Grid, s: Pos, t: Pos, fq: seq<Pos>, fp: ParentMap, fD: map<Pos, nat>, fe: set<Pos>,
                    bq: seq<Pos>, bp: ParentMap, bD: map<Pos, nat>, be: set<Pos>)
    requires BiInv(g, s, t, fq, fp, fD, fe, bq, bp, bD, be)
    requires fq == [] || bq == []
    requires s != t
    ensures forall w :: !Route(g, s, t, w)
  {
    if fq == [] {
      assert t in bp;
      NoRoute(g, s, t, fp, fe);
    } else {
      forall w | Route(g, s, t, w)
        ensures false
      {
        assert t in be;
        assert s in fe;
        assert |w| > 1;
        ClosedNeighbour(g, fp, s, w[1]);
        var rw := Reverse(w)[..|w| - 1];
        assert forall i :: 0 <= i < |rw| ==> rw[i] == w[|w| - 1 - i];
        forall i | 0 < i < |rw|
          ensures Adjacent(rw[i - 1], rw[i])
        {
          AdjacentSymmetric(w[|w| - 1 - i], w[|w| - i]);
        }
        ClosedRoute(g, t, bp, be, rw, |w| - 2);
      }
    }
  }

  /**
   `bidirectional`: the stitched path and the meeting cell, or `None` when a
   queue empties first. A path runs from `start` to `target` by policy moves
   through valid cells and passes the meeting cell once. Without a path, no
   route exists, unless `start` is the target. When `start` is the target
   the search does not return `[start]`: it finds a path exactly when
   `start` has a valid neighbour, and that path is `[start, n, start]` for
   the meeting neighbour `n`.
   */
  method Bidirectional(g: Grid, start: Pos, target: Pos) returns (path: Option<seq<Pos>>, meeting: Option<Pos>)
    ensures path.Some? <==> meeting.Some?
    ensures path.Some? ==> MeetingPath(g, start, target, path.value, meeting.value)
    ensures path.None? && start != target ==> forall w :: !Route(g, start, target, w)
    ensures start == target ==> (path.Some? <==> HasValidNeighbour(g, start))
    ensures start == target && path.Some? ==> path.value == [start, meeting.value, start]
  {
    var fq, bq := [start], [target];
    var fp: ParentMap, bp: ParentMap := map[start := None], map[target := None];
    var fe: set<Pos>, be: set<Pos> := {}, {};
    ghost var fD: map<Pos, nat>, bD: map<Pos, nat> := map[start := 0], map[target := 0];
    BiInit(g, start, target);
    while |fq| > 0 && |bq| > 0
      invariant BiInv(g, start, target, fq, fp, fD, fe, bq, bp, bD, be)
      decreases Measure(g, fq, fp) + Measure(g, bq, bp)
    {
      var cf := fq[0];
      var a := Admit(g, fp, cf, Moves, bp.Keys);
      if a.meet.Some? {
        ForwardMeet(g, start, target, fq, fp, fD, fe, bq, bp, bD, be, cf, a);
        path := Some(Stitch(a.parent, Extend(fD, a.admitted, fD[cf] + 1), bp, bD, a.meet.value));
        meeting := a.meet;
        return;
      }
      ForwardMid(g, start, target, fq, fp, fD, fe, bq, bp, bD, be, cf, a);
      fq, fp, fe, fD := fq[1..] + a.admitted, a.parent, fe + {cf}, Extend(fD, a.admitted, fD[cf] + 1);
      var cb := bq[0];
      var b := Admit(g, bp, cb, Moves, fp.Keys);
      if b.meet.Some? {
        BackwardMeet(g, start, target, fq, fp, fD, fe, bq, bp, bD, be, cb, b);
        path := Some(Stitch(fp, fD, b.parent, Extend(bD, b.admitted, bD[cb] + 1), b.meet.value));
        meeting := b.meet;
        return;
      }
      BackwardInv(g, start, target, fq, fp, fD, fe, bq, bp, bD, be, cb, b);
      bq, bp, be, bD := bq[1..] + b.admitted, b.parent, be + {cb}, Extend(bD, b.admitted, bD[cb] + 1);
    }
    if start != target {
      BiExhausted(g, start, target, fq, fp, fD, fe, bq, bp, bD, be);
    }
    path, meeting := None, None;
  }

  // ---- When `start` is the target ----

  /**
   On the configured grid, a search from the start cell to itself takes a
   detour: the start cell has a valid neighbour, so `Bidirectional` returns a
   three-cell path `[start, n, start]`, although `[start]` is already a route.
   */
  lemma SameEndsDetour()
    ensures HasValidNeighbour(DefaultGrid(), Start)
    ensures Route(DefaultGrid(), Start, Start, [Start])
  {
    DefaultValidity(Step(Start, Moves[0]));
  }

  /**
   The detour itself: `bidirectional` on the configured grid, from the start
   cell to itself, returns a three-cell path that leaves and re-enters the
   start cell instead of `[start]`.
   */
  method DetourOnDefaultGrid() returns (path: Option<seq<Pos>>)
    ensures path.Some? && |path.value| == 3 && path.value != [Start]
    ensures path.Some? ==> path.value[0] == Start && path.value[2] == Start
  {
    SameEndsDetour();
    var meeting;
    path, meeting := Bidirectional(DefaultGrid(), Start, Start);
  }

  /** A wall cell of the configured grid, used as a blocked target. */
  const WallCell: Pos := Pos(5, 5)

  /**
   The first round of `bidirectional` on the configured grid from the start
   cell to the wall cell (5, 5). The forward expansion of the start cannot
   meet, since the only cell of the backward tree is blocked. The backward
   expansion of the wall cell, which is never checked, admits (5, 6) and then
   (6, 6), which the forward tree holds: the search returns
   `[(7, 7), (6, 6), (5, 5)]`, a path that ends on a wall, although no route
   reaches the target.
   */
  lemma WallTargetMeets()
    ensures !IsValid(DefaultGrid(), WallCell)
    ensures forall w :: !Route(DefaultGrid(), Start, WallCell, w)
    ensures var g := DefaultGrid();
      var a := Admit(g, map[Start := None], Start, Moves, {WallCell});
      var b := Admit(g, map[WallCell := None], WallCell, Moves, a.parent.Keys);
      var fD := Extend(map[Start := 0], a.admitted, 1);
      var bD := Extend(map[WallCell := 0], b.admitted, 1);
      && a.meet.None?
      && b.meet == Some(Pos(6, 6))
      && Ranked(a.parent, fD)
      && Ranked(b.parent, bD)
      && Stitch(a.parent, fD, b.parent, bD, Pos(6, 6)) == [Start, Pos(6, 6), WallCell]
  {
    var g := DefaultGrid();
    WallUnreachable();
    var a := Admit(g, map[Start := None], Start, Moves, {WallCell});
    DefaultValidity(Pos(6, 6));
    assert Step(Start, Moves[5]) == Pos(6, 6);
    WallForward(g, Start, WallCell, Pos(6, 6), Pos(5, 6), 5, a);
    WallBackward(a.parent.Keys);
    var b := Admit(g, map[WallCell := None], WallCell, Moves, a.parent.Keys);
    StitchNeighbours(a.parent, Extend(map[Start := 0], a.admitted, 1),
                     b.parent, Extend(map[WallCell := 0], b.admitted, 1), Start, Pos(6, 6), WallCell);
  }

  /** The wall cell is blocked, so no route from the start cell ends on it. */
  lemma WallUnreachable()
    ensures !IsValid(DefaultGrid(), WallCell)
    ensures forall w :: !Route(DefaultGrid(), Start, WallCell, w)
  {
  }

  /** Two trees that each hold the meeting cell one step below their root stitch into the three-cell path through it. */
  lemma StitchNeighbours(f: ParentMap, fD: map<Pos, nat>, b: ParentMap, bD: map<Pos, nat>, s: Pos, meet: Pos, t: Pos)
    requires Ranked(f, fD) && Ranked(b, bD)
    requires GetPath(f, fD, meet) == [s, meet] && GetPath(b, bD, meet) == [t, meet]
    ensures Stitch(f, fD, b, bD, meet) == [s, meet, t]
  {
  }

  /**
   The forward half of that round, for any grid: expanding `s` alone, with a
   blocked target as the only stop cell, does not meet; its valid neighbour
   `n` hangs below `s`, and a cell `m` that is not a neighbour stays outside.
   */
  lemma WallForward(g: Grid, s: Pos, t: Pos, n: Pos, m: Pos, k: nat, a: Admission)
    requires !IsValid(g, t)
    requires k < |Moves| && n == Step(s, Moves[k]) && IsValid(g, n)
    requires !Adjacent(s, m) && m != s
    requires a == Admit(g, map[s := None], s, Moves, {t})
    ensures a.meet.None?
    ensures n in a.parent && m !in a.parent
    ensures Ranked(a.parent, Extend(map[s := 0], a.admitted, 1))
    ensures GetPath(a.parent, Extend(map[s := 0], a.admitted, 1), n) == [s, n]
  {
    ForwardMisses(g, s, t, n, k, a);
    ForwardOnlyNeighbours(g, s, t, m, a);
    ForwardPath(g, s, t, n, a);
  }

  /** Expanding `s` with a blocked stop cell does not meet, and gives each valid neighbour a parent. */
  lemma ForwardMisses(g: Grid, s: Pos, t: Pos, n: Pos, k: nat, a: Admission)
    requires !IsValid(g, t)
    requires k < |Moves| && n == Step(s, Moves[k]) && IsValid(g, n)
    requires a == Admit(g, map[s := None], s, Moves, {t})
    ensures a.meet.None? && n in a.parent
  {
    AdmitMeet(g, map[s := None], s, Moves, {t}, a);
    AdmitCovers(g, map[s := None], s, Moves, {t});
    StepMoves(s, k);
  }

  /** Expanding `s` alone gives a parent only to `s` itself and its neighbours. */
  lemma ForwardOnlyNeighbours(g: Grid, s: Pos, t: Pos, m: Pos, a: Admission)
    requires !Adjacent(s, m) && m != s
    requires a == Admit(g, map[s := None], s, Moves, {t})
    ensures m !in a.parent
  {
    forall x | x in a.parent
      ensures x == s || Adjacent(s, x)
    {
      if x != s {
        assert x in Elements(a.admitted);
        var i :| 0 <= i < |a.admitted| && a.admitted[i] == x;
      }
    }
  }

  /** After expanding `s` alone, a cell with parent `s` has the two-cell path from `s`. */
  lemma ForwardPath(g: Grid, s: Pos, t: Pos, n: Pos, a: Admission)
    requires a == Admit(g, map[s := None], s, Moves, {t})
    requires n in a.parent && n != s
    ensures Ranked(a.parent, Extend(map[s := 0], a.admitted, 1))
    ensures GetPath(a.parent, Extend(map[s := 0], a.admitted, 1), n) == [s, n]
  {
    var fp0: ParentMap := map[s := None];
    var fD := Extend(map[s := 0], a.admitted, 1);
    TreeGrow(g, s, fp0, map[s := 0], s, Moves, {t}, a);
    TreeRanked(g, s, a.parent, fD);
    assert a.parent[s] == None;
    assert n in Elements(a.admitted);
    assert a.parent[n] == Some(s);
    GetPathUnique(a.parent, fD, n, [s, n]);
  }

  /**
   The backward half: expanding the wall cell, (4, 5) and (6, 5) are wall
   cells, (5, 6) is admitted, and (6, 6), held by the forward tree, meets.
   */
  lemma WallBackward(stop: set<Pos>)
    requires Pos(6, 6) in stop && Pos(5, 6) !in stop
    ensures var g := DefaultGrid();
      var b := Admit(g, map[WallCell := None], WallCell, Moves, stop);
      var bD := Extend(map[WallCell := 0], b.admitted, 1);
      && b.meet == Some(Pos(6, 6))
      && Ranked(b.parent, bD)
      && GetPath(b.parent, bD, Pos(6, 6)) == [WallCell, Pos(6, 6)]
  {
    var g := DefaultGrid();
    var t := WallCell;
    var n := Pos(6, 6);
    var m := Pos(5, 6);
    DefaultValidity(n);
    DefaultValidity(Pos(4, 5));
    DefaultValidity(m);
    DefaultValidity(Pos(6, 5));
    var bp0: ParentMap := map[t := None];
    var bp1 := bp0[m := Some(t)];
    var r3 := Admit(g, bp1, t, Moves[3..], stop);
    assert Step(t, Moves[3..][0]) == n;
    assert r3 == Admission(bp1[n := Some(t)], [n], Some(n));
    assert Moves[2..][1..] == Moves[3..];
    assert Step(t, Moves[2..][0]) == Pos(6, 5);
    var r2 := Admit(g, bp1, t, Moves[2..], stop);
    assert r2 == r3;
    assert Moves[1..][1..] == Moves[2..];
    assert Step(t, Moves[1..][0]) == m;
    var r1 := Admit(g, bp0, t, Moves[1..], stop);
    assert r1 == Admission(r2.parent, [m] + r2.admitted, r2.meet);
    assert Step(t, Moves[0]) == Pos(4, 5);
    var b := Admit(g, bp0, t, Moves, stop);
    assert b == r1;
    var bD := Extend(map[t := 0], b.admitted, 1);
    TreeGrow(g, t, bp0, map[t := 0], t, Moves, stop, b);
    TreeRanked(g, t, b.parent, bD);
    assert b.parent[n] == Some(t) && b.parent[t] == None;
    GetPathUnique(b.parent, bD, n, [t, n]);
  }

  /**
   `bidirectional` with its two edge cases answered as the other searches
   answer them: when start equals target, the one-cell path `[start]`, met at
   `start`; when the target is blocked or off the grid, no path. Every other
   case is the search above, so a path is always a route, and a missing path
   always means that no route exists.
   */
  method BidirectionalFixed(g: Grid, start: Pos, target: Pos) returns (path: Option<seq<Pos>>, meeting: Option<Pos>)
    ensures path.Some? <==> meeting.Some?
    ensures path.Some? ==> MeetingPath(g, start, target, path.value, meeting.value)
    ensures path.Some? ==> Route(g, start, target, path.value)
    ensures path.None? <==> forall w :: !Route(g, start, target, w)
    ensures start == target ==> path == Some([start])
    ensures start != target && !IsValid(g, target) ==> path.None?
  {
    if start == target {
      assert Route(g, start, target, [start]);
      return Some([start]), Some(start);
    }
    if !IsValid(g, target) {
      return None, None;
    }
    path, meeting := Bidirectional(g, start, target);
  }
}

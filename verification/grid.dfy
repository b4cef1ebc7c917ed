/**
 The grid model and the movement policy of the path finder: a square grid of
 `size` × `size` cells, some of them blocked, and the six moves in their
 mandated tie-break order.
 */
module Grid {

  /** A cell, by (row, column). */
  datatype Pos = Pos(r: int, c: int)

  /** A relative move: (row delta, column delta). */
  datatype Move = Move(dr: int, dc: int)

  /** A `size` × `size` grid; `walls` holds the blocked cells (the `-1` cells of the source). */
  datatype Grid = Grid(size: nat, walls: set<Pos>)

  /** `is_valid`: inside the grid and not blocked. */
  predicate IsValid(g: Grid, p: Pos)
  {
    0 <= p.r < g.size && 0 <= p.c < g.size && p !in g.walls
  }

  /** The mandatory movement order: up, right, down, down-right, left, up-left. */
  const Moves: seq<Move> := [Move(-1, 0), Move(0, 1), Move(1, 0), Move(1, 1), Move(0, -1), Move(-1, -1)]

  /** The cell one move away from `p`. */
  function Step(p: Pos, m: Move): Pos
  {
    Pos(p.r + m.dr, p.c + m.dc)
  }

  /** `b` is one policy move away from `a`. */
  predicate Adjacent(a: Pos, b: Pos)
  {
    Move(b.r - a.r, b.c - a.c) in Moves
  }

  /** Every two consecutive cells of `w` are one policy move apart. */
  predicate Chained(w: seq<Pos>)
  {
    forall i :: 0 < i < |w| ==> Adjacent(w[i - 1], w[i])
  }

  /**
   A route from `s` to `t`: it starts at `s`, ends at `t`, takes one policy
   move at a time, and every cell it enters is valid. The first cell is not
   required to be valid, because no search checks its own start cell.
   */
  predicate Route(g: Grid, s: Pos, t: Pos, w: seq<Pos>)
  {
    && |w| > 0
    && w[0] == s
    && w[|w| - 1] == t
    && Chained(w)
    && forall i :: 0 < i < |w| ==> IsValid(g, w[i])
  }

  /** Every adjacent cell is reached by one of the six moves. */
  lemma AdjacentIsStep(a: Pos, b: Pos) returns (k: nat)
    requires Adjacent(a, b)
    ensures k < |Moves| && Step(a, Moves[k]) == b
  {
    k :| 0 <= k < |Moves| && Moves[k] == Move(b.r - a.r, b.c - a.c);
  }

  /** No move stays in place. */
  lemma StepMoves(p: Pos, k: nat)
    requires k < |Moves|
    ensures Step(p, Moves[k]) != p
  {
  }

  /** The offset set is closed under negation, so adjacency is symmetric. */
  lemma AdjacentSymmetric(a: Pos, b: Pos)
    ensures Adjacent(a, b) <==> Adjacent(b, a)
  {
    if Adjacent(a, b) {
      var k := AdjacentIsStep(a, b);
      assert Move(a.r - b.r, a.c - b.c) == Move(-Moves[k].dr, -Moves[k].dc);
    }
    if Adjacent(b, a) {
      var k := AdjacentIsStep(b, a);
      assert Move(b.r - a.r, b.c - a.c) == Move(-Moves[k].dr, -Moves[k].dc);
    }
  }

  /** The cells of row `r` with column below `n`. */
  function Row(r: int, n: nat): set<Pos>
  {
    if n == 0 then {} else Row(r, n - 1) + {Pos(r, n - 1)}
  }

  /** The cells of rows `0 .. k-1`, each `size` columns wide. */
  function Box(size: nat, k: nat): set<Pos>
  {
    if k == 0 then {} else Box(size, k - 1) + Row(k - 1, size)
  }

  lemma {:induction false} RowMembers(r: int, n: nat)
    ensures forall p :: p in Row(r, n) <==> p.r == r && 0 <= p.c < n
  {
    if n > 0 {
      RowMembers(r, n - 1);
    }
  }

  lemma {:induction false} RowSize(r: int, n: nat)
    ensures |Row(r, n)| == n
  {
    if n > 0 {
      RowSize(r, n - 1);
      RowMembers(r, n - 1);
    }
  }

  lemma {:induction false} BoxMembers(size: nat, k: nat)
    ensures forall p :: p in Box(size, k) <==> 0 <= p.r < k && 0 <= p.c < size
  {
    if k > 0 {
      BoxMembers(size, k - 1);
      RowMembers(k - 1, size);
    }
  }

  /** The last row of a box is disjoint from the rows above it. */
  lemma BoxRowDisjoint(size: nat, k: nat)
    requires k > 0
    ensures Box(size, k - 1) !! Row(k - 1, size)
  {
    BoxMembers(size, k - 1);
    RowMembers(k - 1, size);
  }

  lemma {:induction false} BoxSize(size: nat, k: nat)
    ensures |Box(size, k)| == k * size
  {
    if k > 0 {
      BoxSize(size, k - 1);
      BoxRowDisjoint(size, k);
      RowSize(k - 1, size);
      var above, row := Box(size, k - 1), Row(k - 1, size);
      assert |above + row| == |above| + |row|;
      assert (k - 1) * size + size == k * size;
    }
  }

  /** All valid cells of the grid. */
  function ValidCells(g: Grid): set<Pos>
  {
    set p | p in Box(g.size, g.size) && IsValid(g, p)
  }

  /** `ValidCells` holds exactly the valid cells, and there are at most `size²` of them. */
  lemma ValidCellsFacts(g: Grid)
    ensures forall p :: p in ValidCells(g) <==> IsValid(g, p)
    ensures |ValidCells(g)| <= g.size * g.size
  {
    BoxMembers(g.size, g.size);
    BoxSize(g.size, g.size);
    var box := Box(g.size, g.size);
    assert ValidCells(g) <= box;
    assert box == ValidCells(g) + (box - ValidCells(g));
    assert |box| == |ValidCells(g)| + |box - ValidCells(g)|;
  }

  // ---- The fixed configuration built by the constructor ----

  /** The static wall: rows 2 to 7 of column 5. */
  function DefaultWall(): set<Pos>
  {
    set r | 2 <= r < 8 :: Pos(r, 5)
  }

  /** The 10 × 10 grid the constructor builds. */
  function DefaultGrid(): Grid
  {
    Grid(10, DefaultWall())
  }

  const Start: Pos := Pos(7, 7)
  const Target: Pos := Pos(8, 1)

  /** On the configured grid a cell is valid exactly when it is inside the 10 × 10
      square and not one of the six wall cells of column 5. */
  lemma DefaultValidity(p: Pos)
    ensures IsValid(DefaultGrid(), p) <==>
      0 <= p.r < 10 && 0 <= p.c < 10 && !(p.c == 5 && 2 <= p.r <= 7)
  {
    if p.c == 5 && 2 <= p.r <= 7 {
      assert p == Pos(p.r, 5);
      assert p in DefaultWall();
    }
  }

  /** The configured start and target cells are free, and the wall has six cells. */
  lemma DefaultEndpointsFree()
    ensures IsValid(DefaultGrid(), Start) && IsValid(DefaultGrid(), Target)
    ensures |DefaultWall()| == 6
  {
    assert DefaultWall() == {Pos(2, 5), Pos(3, 5), Pos(4, 5), Pos(5, 5), Pos(6, 5), Pos(7, 5)} by {
      forall p | p in DefaultWall()
        ensures p in {Pos(2, 5), Pos(3, 5), Pos(4, 5), Pos(5, 5), Pos(6, 5), Pos(7, 5)}
      {
      }
      assert Pos(2, 5) in DefaultWall() && Pos(3, 5) in DefaultWall() && Pos(4, 5) in DefaultWall();
      assert Pos(5, 5) in DefaultWall() && Pos(6, 5) in DefaultWall() && Pos(7, 5) in DefaultWall();
    }
  }
}

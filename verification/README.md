# Grid path finder — a Dafny model of its search engine

The path finder (`pathfinder.py`, class `AIPathfinder`) searches a square grid with
blocked cells for a route from a start cell to a target cell. It has six strategies:
breadth-first (`bfs`), depth-first with an optional depth limit (`dfs(limit)`),
uniform-cost (`ucs`), iterative deepening (`iddfs`) and bidirectional search
(`bidirectional`). They share:

- the validity test `is_valid`;
- the mandatory movement order `moves`: up, right, down, down-right, left, up-left;
- the path reconstruction `get_path`, which follows parent links.

This project models that engine and proves what each search returns.

- `wrappers.dfy`: `Option`.
- `grid.dfy` (module `Grid`):
  - the grid as a size and a set of blocked cells, `is_valid`, and the six moves;
  - routes: a start cell, then one policy move at a time through valid cells;
  - the configuration the constructor builds: a 10 × 10 grid, a wall on rows 2–7 of column 5, start (7,7), target (8,1).
- `paths.dfy` (module `Paths`):
  - parent maps and `get_path`;
  - the search-tree invariant every search keeps;
  - the bidirectional stitch: the forward path, then the reversed backward path without the meeting cell.
- `expansion.dfy` (module `Expansion`):
  - the inner `for dr, dc in moves` loop as the function `Admit`: first discoverer wins, and the bidirectional search stops at a cell the other tree already holds;
  - the `ucs` relaxation as `Relax`;
  - the facts that link the two: `Relax` behaves like `Admit`, and depth-first pushes in reversed order.
- `layers.dfy` (module `Layers`):
  - the level invariant shared by `bfs` and `ucs`;
  - the two consequences of that invariant: shortest paths, and "no route" when the frontier empties.
- `bfs.dfy`, `dfs.dfy`, `ucs.dfy` and `bidirectional.dfy` model the searches themselves:
  - `bfs`, `ucs` and `bidirectional` are methods with loop invariants;
  - `dfs` is a tail-recursive function, so that the contract of `iddfs` can name the `dfs` calls it makes.

Each search returns `Option<seq<Pos>>`, the path it reconstructs:
- `Some(path)` means the source draws a path;
- for `dfs` it also means `dfs` returns `True`;
- `None` means the frontier emptied.

`bfs` and `ucs` also return how many cells they expanded, which is the length of the source's `explored` list. `bidirectional` also returns its meeting cell.

Three behaviours of the code worth knowing:
- **`iddfs` limits:** `iddfs` tries the limits `0 .. size² − 1` (`range(size * size)`) and then gives up.
- **Bidirectional stopping rule:** the search stops as soon as either queue is empty (`while f_q and b_q`).
- **Bidirectional with start equal to target:** the search does not return `[start]` (see Findings).
- **Bidirectional with a blocked target:** the target cell is never checked, so the backward side expands from a wall cell and can return a path that ends on it (see Findings).

## Model

| member | source | states |
|---|---|---|
| Grid.DefaultValidity | pathfinder.py:7-21 | On the grid the constructor builds, a cell is valid exactly when both coordinates lie in 0..9 and it is not one of the wall cells (rows 2–7 of column 5). |
| Grid.DefaultEndpointsFree | pathfinder.py:15-17 | The configured start (7,7) and target (8,1) are free cells, and the wall has six cells. |
| Grid.ValidCellsFacts | pathfinder.py:19-21 | The set of valid cells is exactly the set `is_valid` accepts, and a `size` × `size` grid has at most `size²` of them. |
| Grid.AdjacentIsStep | pathfinder.py:13 | A cell one policy move away is reached by one of the six moves. |
| Grid.StepMoves | pathfinder.py:13 | No move leaves a cell where it is. |
| Grid.AdjacentSymmetric | pathfinder.py:13 | The move list is closed under negation, so `b` is one move from `a` exactly when `a` is one move from `b`. This lets the reversed backward half of a bidirectional path use policy moves. |
| Paths.Ancestry | pathfinder.py:70-74 | The list `get_path` collects before reversing starts at the node, links each cell to its recorded parent, and ends at a cell without a parent. The parent map must be acyclic. |
| Paths.GetPath | pathfinder.py:69-75 | `get_path` returns a non-empty list that ends at the node, begins at a cell without a parent, and in which each cell is the recorded parent of the next. |
| Paths.AncestryUnique | pathfinder.py:70-74 | Any list with the three properties of `Ancestry` is the collected list, so those properties determine it. |
| Paths.GetPathUnique | pathfinder.py:69-75 | Any list ending at the node, starting at a parentless cell and linked by parent links is exactly what `get_path` returns. |
| Paths.TreeAncestry | pathfinder.py:70-74 | In a search tree, the collected list of `v` has depth(`v`) + 1 cells. It climbs from `v` to the root one move at a time through valid cells. |
| Paths.TreePath | pathfinder.py:69-75 | In a search tree, `get_path(v)` is a route from the root to `v` with depth(`v`) + 1 cells, and its i-th cell is at depth i. |
| Paths.StitchRoute | pathfinder.py:158 | The stitched path of a forward tree (root `s`) and a backward tree (root `t`) has these properties: its length is the sum of the meeting cell's two depths plus one; it starts at `s` and ends at `t`; it moves one policy move per step; its interior cells are valid; and it holds the meeting cell only at the index equal to the meeting cell's forward depth. |
| Expansion.Admit | pathfinder.py:91-95 | After one expansion, the parent map is the old map plus the admitted cells, and old parents are never changed. Each admitted cell was unparented, is valid, is one move from the expanded cell, and gets that cell as its parent. The admitted cells are distinct. |
| Expansion.AdmitMeet | pathfinder.py:153-160 | A bidirectional expansion stops early only at a cell the other tree holds: the last cell it admitted. If it does not stop, it admitted no such cell. |
| Expansion.AdmitCovers | pathfinder.py:91-95 | After an expansion that did not stop early, every valid neighbour of the expanded cell has a parent. |
| Expansion.FreshFrame | pathfinder.py:91-95 | Giving a parent to a cell that the moves do not reach leaves the reference admission list unchanged. |
| Expansion.AdmitIsFresh | pathfinder.py:91-95 | With distinct moves and no stop set, the admitted list equals an independent reference: the neighbours, in move order, that were valid and unparented before the expansion began. |
| Expansion.FreshReverse | pathfinder.py:111-113 | The reference admission list for the reversed moves is the reversed list. |
| Expansion.DfsPushOrder | pathfinder.py:111-115 | Depth-first expansion over `reversed(moves)` pushes exactly the cells breadth-first expansion admits, in the opposite order, so the first cell in movement order ends up on top of the stack. |
| Expansion.AdmitShrinks | pathfinder.py:93-95 | Admitting distinct unparented valid cells removes exactly that many cells from the valid cells still without a parent. This is the searches' termination measure. |
| Expansion.AdmitMeasure | pathfinder.py:91-95 | One expansion lowers the number of valid cells still without a parent by exactly the number of cells it admitted. With the queue or stack losing the popped entry, this is what makes every search loop end. |
| Expansion.RelaxOnlyImproves | pathfinder.py:132-137 | A `ucs` relaxation never raises a cost. A cell's cost or parent changes only when it was uncosted or strictly improved; it then is a valid neighbour, gets cost `c + 1` and the expanded cell as parent, and is pushed. Any other cell keeps its cost and parent and is not pushed. |
| Expansion.RelaxIsAdmit | pathfinder.py:132-137 | When no recorded cost exceeds `c + 1`, the strict-improvement branch never fires. The relaxation then equals the breadth-first admission, with cost `c + 1` for every admitted cell. |
| Expansion.TreeGrow | pathfinder.py:93-94 | Expanding a tree cell keeps the parent map a search tree rooted at the start, with each admitted cell one level below the expanded one. |
| Layers.LayeredExpand | pathfinder.py:89-95 | Expanding a frontier cell at the current level keeps the level invariant. |
| Layers.RouteDepth | pathfinder.py:84-95 | Along any route from the start, while the cells behind are expanded, the k-th cell has a parent and depth at most k. |
| Layers.LayeredShortest | pathfinder.py:84-88 | When the target is taken off the frontier at the current level L, no route to it has fewer than L + 1 cells. |
| Layers.ClosedRoute | pathfinder.py:84-95 | If every parented cell is expanded and every expanded cell has all its valid neighbours parented, every route from the start stays inside the parent map. |
| Layers.NoRoute | pathfinder.py:84 | If that closure holds and the target was never expanded, no route to the target exists. |
| Layers.LayeredExhausted | pathfinder.py:84 | Under the level invariant, an empty frontier means the target is unreachable. |
| Layers.ExpansionBound | pathfinder.py:89-90 | A search expands only parented cells, which are valid apart from the start, so it expands at most `size²` cells, or one more when the start is not valid. |
| Bfs.FrontIsShallowest | pathfinder.py:84-85 | The cell at the front of the queue is at the current level, so the level invariant holds with that level. |
| Bfs.BfsFound | pathfinder.py:86-88 | When the target is popped, the reconstructed path is a route to it and no route is shorter. When start is the target, the path is `[start]` after zero expansions. |
| Bfs.BfsExpand | pathfinder.py:89-95 | Expanding an unexplored popped cell keeps the loop invariant, with the queue extended by the admitted cells, and shrinks the termination measure. |
| Bfs.BfsSkip | pathfinder.py:84-89 | Popping an already expanded cell keeps the loop invariant. |
| Bfs.BfsExhausted | pathfinder.py:84 | When the queue empties, start is not the target and no route exists. |
| Bfs.Bfs | pathfinder.py:79-96 | `bfs` returns a route of minimum length when one exists and `None` only when none exists. When start is the target it returns `[start]` with zero expansions. It expands at most `size²` cells when the start is valid. |
| Dfs.DfsFound | pathfinder.py:105-107 | A popped target's reconstructed path is a route. Under a limit it has at most limit + 1 cells. When start is the target it is `[start]`. |
| Dfs.DfsSkip | pathfinder.py:108-109 | Popping a frame that is already expanded, or too deep for the limit, keeps the loop invariant. |
| Dfs.DfsExpand | pathfinder.py:108-115 | Expanding a popped frame within the limit keeps the loop invariant: its cells become one level deeper than the frame, no parented cell exceeds the limit, and the termination measure shrinks. |
| Dfs.DfsExhausted | pathfinder.py:103-117 | Without a limit, an emptied stack means no route exists. |
| Dfs.DfsLoop | pathfinder.py:103-117 | The `while stack` loop returns only routes, of at most limit + 1 cells under a limit. Without a limit it returns `None` only when no route exists. When start is the target it returns `[start]`. |
| Dfs.Dfs | pathfinder.py:98-117 | `dfs(limit)` succeeds exactly when it returns a path; that path is a route, and under a limit (start ≠ target) it has at most limit + 1 cells. Without a limit a failure means no route exists. When start is the target it returns `[start]`. |
| Dfs.Iddfs | pathfinder.py:140-143 | `iddfs` tries limits 0, 1, … in order and stops at the first that succeeds. It returns that `dfs` result and limit, and every smaller limit failed. If every limit below `size²` fails, it returns `None`. A path found is a route of at most limit + 1 cells. |
| Ucs.MinIndex | pathfinder.py:126 | The index points at an entry no greater than any other under Python's tuple order: cost first, then row, then column. |
| Ucs.Pop | pathfinder.py:126 | `heappop` returns a least entry, and the remaining heap is the old one without exactly that entry (as multisets). |
| Ucs.PopIsCheapest | pathfinder.py:125-126 | The popped entry is on the heap, its cost is the cell's recorded cost, and the level invariant holds at that cost. |
| Ucs.UcsFound | pathfinder.py:127-129 | When the target is popped, the reconstructed path is a route and no route is shorter. When start is the target, it is `[start]` after zero expansions. |
| Ucs.UcsExpand | pathfinder.py:130-137 | Expanding an unexplored popped cell with the relaxation rule keeps the loop invariant and shrinks the termination measure. |
| Ucs.UcsSkip | pathfinder.py:125-130 | Popping an already expanded cell (a stale entry) keeps the loop invariant. |
| Ucs.UcsExhausted | pathfinder.py:125 | When the heap empties, start is not the target and no route exists. |
| Ucs.Ucs | pathfinder.py:119-138 | `ucs` returns a route of minimum length (the length `bfs` finds) when one exists and `None` only when none exists. When start is the target it returns `[start]` with zero expansions. It expands at most `size²` cells when the start is valid. |
| Ucs.AgreesWithBfs | pathfinder.py:79-138 | With unit move costs, `ucs` and `bfs` on the same grid and endpoints agree: one finds a path exactly when the other does, and the two paths have the same length. |
| Bidirectional.SideStep | pathfinder.py:151-156 | One side's expansion without a meeting keeps that side's tree, queue, closure and coverage invariant, and shrinks that side's share of the loop measure. |
| Bidirectional.ForwardMid | pathfinder.py:151-160 | A forward half-round without a meeting keeps the invariant and shrinks the forward measure. |
| Bidirectional.ForwardMeet | pathfinder.py:153-160 | A forward meeting happens only when start ≠ target. The stitched path then runs from start to target through valid interior cells and holds the meeting cell once. |
| Bidirectional.BackwardInv | pathfinder.py:161-169 | A backward half-round without a meeting restores the round invariant and shrinks the backward measure. |
| Bidirectional.BackwardMeet | pathfinder.py:162-170 | A backward meeting gives a stitched path from start to target through valid interior cells that holds the meeting cell once. When start is the target, the start has a valid neighbour and the path is `[start, meet, start]`. |
| Bidirectional.AdmitFirstMeets | pathfinder.py:163-167 | An expansion in which every unparented valid neighbour lies in the other tree ends in a meeting, provided one such neighbour exists. |
| Bidirectional.MeetPath | pathfinder.py:158 | The stitched path runs from start to target with one policy move per step through valid interior cells and holds the meeting cell exactly once. When start is the target and the meeting cell is one level deep in both trees, the path is `[start, meet, start]`. |
| Bidirectional.BiExhausted | pathfinder.py:150 | When either queue empties and start ≠ target, no route exists. |
| Bidirectional.Bidirectional | pathfinder.py:145-170 | `bidirectional` returns a path exactly when it returns a meeting cell. That path runs from start to target by policy moves through valid interior cells and holds the meeting cell once. Without a path, no route exists when start ≠ target. When start is the target, a path exists exactly when start has a valid neighbour, and it is `[start, n, start]`. |
| Bidirectional.SameEndsDetour | pathfinder.py:150-160 | On the constructor's grid the start cell has a valid neighbour, so `bidirectional` from the start to itself returns a three-cell path, although `[start]` is already a route. |
| Bidirectional.DetourOnDefaultGrid | pathfinder.py:145-170 | Running `bidirectional` on the constructor's grid from the start cell to itself returns a three-cell path that begins and ends at the start cell, not `[start]`. |
| Bidirectional.WallTargetMeets | pathfinder.py:145-170 | On the constructor's grid, with the wall cell (5,5) as target, no route reaches the target. Yet the first round of `bidirectional` meets: the forward expansion of the start does not, and the backward expansion of the wall cell meets at (6,6). The stitched result is `[(7,7), (6,6), (5,5)]`. |
| Bidirectional.WallUnreachable | pathfinder.py:19-21 | The wall cell (5,5) is not valid, so no route from the start ends on it. |
| Bidirectional.WallForward | pathfinder.py:151-160 | Expanding a start cell alone, with a blocked target as the only backward cell, does not meet. Its valid neighbour hangs below it with the two-cell path, and a cell that is not a neighbour stays unparented. |
| Bidirectional.ForwardMisses | pathfinder.py:153-160 | That expansion does not meet, and it gives every valid neighbour of the start a parent. |
| Bidirectional.ForwardOnlyNeighbours | pathfinder.py:153-156 | Expanding the start alone parents only the start and its neighbours. |
| Bidirectional.ForwardPath | pathfinder.py:153-156 | After expanding the start alone, the parent map is ranked, and `get_path` of a newly parented cell is `[start, cell]`. |
| Bidirectional.WallBackward | pathfinder.py:161-170 | Expanding the wall cell (5,5) on the constructor's grid, with (6,6) in the forward tree and (5,6) outside it, admits (5,6) and then meets at (6,6), whose backward path is `[(5,5), (6,6)]`. |
| Bidirectional.StitchNeighbours | pathfinder.py:158 | When the meeting cell is one step below the root in both trees, the stitched path is the root of the forward tree, the meeting cell, then the root of the backward tree. |
| Bidirectional.BidirectionalFixed | pathfinder.py:145-170 | The corrected search returns `[start]`, met at start, when start is the target, and no path when the target is blocked or off the grid. Otherwise it is the search as written. Every path it returns is a route from start to target that holds the meeting cell once. It returns no path exactly when no route exists. |

## Left out

- Drawing is not modelled. This covers `visualize`, the `matplotlib` calls, the `menu` loop and the progress `print` in `iddfs`; they do not affect what a search computes.
- The `numpy` grid is modelled as a size plus a set of blocked cells. A cell is blocked exactly when it holds `-1`.
- The constructor is modelled only for its default size 10 (`DefaultGrid`). The searches are modelled on any grid.
- The `explored` lists are modelled as sets. Their order only feeds drawing; their length is returned as `expansions` by `bfs` and `ucs`.
- The start and target cells are parameters and are never validity-checked, as in the source. A route therefore only requires the cells after its first to be valid. `bfs`, `dfs` and `ucs` only ever reach the target through `is_valid`, so their paths are routes; `bidirectional` roots its backward tree at the unchecked target.
- The binary heap is modelled as a sequence that `heappop` leaves without a least entry. Only the popped entry is observable, and Python's tuple order fixes it.
- `get_path` on a cyclic parent map loops forever in the source. The model requires a rank that strictly decreases along parent links, which every search's tree provides.
- Dfs.Dfs: under a limit, `None` is not claimed to mean that no route exists within the limit. A cell keeps the parent of its first discovery and is never pushed again at a shallower depth, so the depth-limited search can miss routes.
- Dfs.Iddfs: for the same reason, iterative deepening is not claimed to find a route whenever one exists, nor to find a shortest one.
- Bidirectional.Bidirectional: the length of the stitched path is not claimed to be minimal. The search stops at the first cross-tree admission, which need not lie on a shortest route.
- Bidirectional.Bidirectional: a returned path is not claimed to be a route. Only its interior cells are shown valid, because its last cell is the unchecked target, which may be blocked or off the grid (see Findings).

## Findings

| source | as written | input that shows it | evidently intended | confidence | as-written member | corrected member |
|---|---|---|---|---|---|---|
| pathfinder.py:145-170 | When start equals target, the forward side first admits a neighbour `n` of start. The backward side, rooted at the same cell, then admits `n` as well and meets there, so the result is `[start, n, start]`. When start has no valid neighbour, both queues empty and no path is returned. | The constructor's grid with target set to start (7,7): (6,7) is a valid neighbour, so the search returns a three-cell path. | `[start]`, as `bfs`, `dfs` and `ucs` return when start equals target. | not executed | Bidirectional.DetourOnDefaultGrid | Bidirectional.BidirectionalFixed |
| pathfinder.py:145-170 | The backward queue and parent map start from the target without an `is_valid` check. A blocked target is therefore expanded like any other cell, and its valid neighbours can meet the forward tree. | The constructor's grid with target (5,5), a wall cell: the search returns `[(7,7), (6,6), (5,5)]`, a path ending on a wall. | No path, as `bfs`, `dfs` and `ucs` return for a blocked target. | not executed | Bidirectional.WallTargetMeets | Bidirectional.BidirectionalFixed |

/** The constrained A* corridor search of src/a_star.rs over a flat, row-major tile grid.
    Grid indices are natural numbers; `width` is the row length, and the cell `i` has row
    `i / width` and column `i % width`. */
module AStar {
  import opened Config
  import opened BinaryHeap

  /** `grid::Tile`. */
  datatype Tile = Blocker | Wall | Room | Doorway | Corridor | CorridorNeighbor | Empty

  /** `usize::MAX / 2` on a 64-bit target: the score of a cell not reached yet. */
  const Unreached: nat := 0x7FFF_FFFF_FFFF_FFFF

  // ---------------------------------------------------------------------------------------
  // Distances

  /** `diff`: the absolute difference of two unsigned integers. */
  function Diff(a: nat, b: nat): (d: nat)
    ensures a + d == b || b + d == a
  {
    if a < b then b - a else a - b
  }

  lemma DiffSymmetric(a: nat, b: nat)
    ensures Diff(a, b) == Diff(b, a)
    ensures Diff(a, b) == 0 <==> a == b
  {
  }

  /** The source's `unsigned_int_difference` test. */
  lemma UnsignedIntDifference()
    ensures Diff(1, 2) == 1 && Diff(2, 1) == 1
  {
  }

  /** `manhattan`: the grid distance between two cells. */
  function Manhattan(width: nat, a: nat, b: nat): nat
    requires width > 0
  {
    Diff(a / width, b / width) + Diff(a % width, b % width)
  }

  /** The cell at row `q` and column `r` has that row and that column. */
  lemma {:induction false} RowAndColumn(width: nat, q: nat, r: nat)
    requires r < width
    ensures (q * width + r) / width == q && (q * width + r) % width == r
  {
    var a := q * width + r;
    var q', r' := a / width, a % width;
    assert a == q' * width + r';
    if q' != q {
      var lo, hi := if q' < q then q' else q, if q' < q then q else q';
      assert (hi - lo) * width >= width by {
        assert hi - lo >= 1;
        MulAtLeast(hi - lo, width);
      }
      assert false;
    }
  }

  lemma MulAtLeast(d: nat, w: nat)
    requires d >= 1
    ensures d * w >= w
  {
  }

  /** `manhattan` is the number of rows plus the number of columns between the two cells; the
      source's `manhattan_is_corerct` test is the instance `width = 10`, rows 3 and 8,
      columns 4 and 1. */
  lemma ManhattanOfCoordinates(width: nat, rowA: nat, colA: nat, rowB: nat, colB: nat)
    requires colA < width && colB < width
    ensures Manhattan(width, rowA * width + colA, rowB * width + colB) == Diff(rowA, rowB) + Diff(colA, colB)
  {
    RowAndColumn(width, rowA, colA);
    RowAndColumn(width, rowB, colB);
  }

  lemma ManhattanIsCorrect()
    ensures Manhattan(10, 3 * 10 + 4, 8 * 10 + 1) == 8 - 3 + 4 - 1
  {
    ManhattanOfCoordinates(10, 3, 4, 8, 1);
  }

  /** The estimate `manhattan(width, cell, end) * min_cost` the open set is ordered by. */
  function Heuristic(width: nat, cell: nat, end: nat, minCost: nat): nat
    requires width > 0
  {
    Manhattan(width, cell, end) * minCost
  }

  // ---------------------------------------------------------------------------------------
  // The 2x2 rule

  /** Each element is at most the next one. */
  predicate Ascending(s: seq<nat>) {
    forall i :: 0 < i < |s| ==> s[i - 1] <= s[i]
  }

  /** Inserting `x` in front of the first larger element. */
  function InsertAscending(s: seq<nat>, x: nat): (r: seq<nat>)
    ensures |r| == |s| + 1
  {
    if s == [] then [x]
    else if x <= s[0] then [x] + s
    else [s[0]] + InsertAscending(s[1..], x)
  }

  /** Inserting into an ascending sequence adds just `x` and keeps it ascending. */
  lemma {:induction false} InsertAscendingSorts(s: seq<nat>, x: nat)
    requires Ascending(s)
    ensures var r := InsertAscending(s, x);
      multiset(r) == multiset(s) + multiset{x} && Ascending(r)
      && (r[0] == x || (s != [] && r[0] == s[0]))
    decreases |s|
  {
    if s != [] && x > s[0] {
      assert s == [s[0]] + s[1..];
      AscendingTail(s);
      InsertAscendingSorts(s[1..], x);
    }
  }

  /** `nodes.sort()`, on the local copy `make_square` takes. */
  function SortNodes(s: seq<nat>): (r: seq<nat>)
    ensures |r| == |s|
  {
    if s == [] then [] else InsertAscending(SortNodes(s[1..]), s[0])
  }

  /** Sorting keeps the elements and leaves them ascending. */
  lemma {:induction false} SortNodesSorts(s: seq<nat>)
    ensures var r := SortNodes(s); multiset(r) == multiset(s) && Ascending(r)
    decreases |s|
  {
    if s != [] {
      assert s == [s[0]] + s[1..];
      SortNodesSorts(s[1..]);
      InsertAscendingSorts(SortNodes(s[1..]), s[0]);
    }
  }

  /** The first element of an ascending sequence is its least. */
  lemma {:induction false} AscendingHead(s: seq<nat>, k: nat)
    requires Ascending(s) && k < |s|
    ensures s[0] <= s[k]
    decreases k
  {
    if k > 0 {
      AscendingHead(s, k - 1);
    }
  }

  /** `make_square`: the four cells, sorted, are the corners of a 2x2 block. */
  function MakeSquare(width: nat, nodes: seq<nat>): bool
    requires |nodes| == 4
  {
    SquareCorners(width, SortNodes(nodes))
  }

  /** The 2x2 block whose top left corner is `p`. */
  function Block(width: nat, p: nat): multiset<nat> {
    multiset{p, p + 1, p + width, p + width + 1}
  }

  /** The tail of an ascending sequence is ascending. */
  lemma AscendingTail(s: seq<nat>)
    requires Ascending(s) && s != []
    ensures Ascending(s[1..])
  {
    var t := s[1..];
    forall i | 0 < i < |t| ensures t[i - 1] <= t[i] {
      assert t[i - 1] == s[i] && t[i] == s[i + 1];
    }
  }

  /** Two ascending sequences with the same elements are equal. */
  lemma {:induction false} AscendingUnique(a: seq<nat>, b: seq<nat>)
    requires Ascending(a) && Ascending(b) && multiset(a) == multiset(b)
    ensures a == b
    decreases |a|
  {
    assert |a| == |multiset(a)| == |multiset(b)| == |b|;
    if a != [] {
      SameLeast(a, b);
      SameRest(a, b);
      AscendingTail(a);
      AscendingTail(b);
      AscendingUnique(a[1..], b[1..]);
      assert a == [a[0]] + a[1..] && b == [b[0]] + b[1..];
    }
  }

  /** Two ascending sequences with the same elements start with the same least element. */
  lemma SameLeast(a: seq<nat>, b: seq<nat>)
    requires Ascending(a) && Ascending(b) && multiset(a) == multiset(b) && a != [] && b != []
    ensures a[0] == b[0]
  {
    assert a[0] in multiset(b);
    var i :| 0 <= i < |b| && b[i] == a[0];
    assert b[0] in multiset(a);
    var j :| 0 <= j < |a| && a[j] == b[0];
    AscendingHead(a, j);
    AscendingHead(b, i);
  }

  /** Dropping equal first elements leaves equal multisets. */
  lemma SameRest(a: seq<nat>, b: seq<nat>)
    requires multiset(a) == multiset(b) && a != [] && b != [] && a[0] == b[0]
    ensures multiset(a[1..]) == multiset(b[1..])
  {
    assert a == [a[0]] + a[1..] && b == [b[0]] + b[1..];
    assert multiset(a[1..]) == multiset(a) - multiset{a[0]};
    assert multiset(b[1..]) == multiset(b) - multiset{b[0]};
  }

  /** Four ascending cells are the corners of a 2x2 block, top left first. */
  predicate SquareCorners(width: nat, s: seq<nat>)
    requires |s| == 4
  {
    s[0] + 1 == s[1] && s[0] + width == s[2] && s[0] + width + 1 == s[3]
  }

  /** Four ascending cells are in corner order exactly when they make up some 2x2 block. */
  lemma CornersIsBlock(width: nat, s: seq<nat>)
    requires |s| == 4 && Ascending(s) && width >= 1
    ensures SquareCorners(width, s) <==> exists p: nat :: multiset(s) == Block(width, p)
  {
    if SquareCorners(width, s) {
      CornersAreBlock(width, s);
    }
    if p: nat :| multiset(s) == Block(width, p) {
      BlockInOrder(width, p, s);
    }
  }

  /** Cells in corner order make up the block at the first of them. */
  lemma CornersAreBlock(width: nat, s: seq<nat>)
    requires |s| == 4 && SquareCorners(width, s)
    ensures multiset(s) == Block(width, s[0])
  {
    assert s == [s[0], s[0] + 1, s[0] + width, s[0] + width + 1];
  }

  /** Sorted, the cells of a block come top left, top right, bottom left, bottom right. */
  lemma BlockInOrder(width: nat, p: nat, s: seq<nat>)
    requires Ascending(s) && multiset(s) == Block(width, p) && width >= 1
    ensures s == [p, p + 1, p + width, p + width + 1]
  {
    var block: seq<nat> := [p, p + 1, p + width, p + width + 1];
    assert multiset(block) == Block(width, p);
    AscendingUnique(s, block);
  }

  /** `make_square` holds exactly when the four cells are some 2x2 block, in any order. */
  lemma MakeSquareIsBlock(width: nat, nodes: seq<nat>)
    requires |nodes| == 4 && width >= 1
    ensures MakeSquare(width, nodes) <==> exists p: nat :: multiset(nodes) == Block(width, p)
  {
    var s := SortNodes(nodes);
    SortNodesSorts(nodes);
    CornersIsBlock(width, s);
  }

  /** With rows of at least two cells, `make_square` is false as soon as two of the cells
      coincide. */
  lemma MakeSquareNeedsFourCells(width: nat, nodes: seq<nat>, i: nat, j: nat)
    requires |nodes| == 4 && width >= 2
    requires i < j < 4 && nodes[i] == nodes[j]
    ensures !MakeSquare(width, nodes)
  {
    if MakeSquare(width, nodes) {
      MakeSquareIsBlock(width, nodes);
      var p: nat :| multiset(nodes) == Block(width, p);
      Twice(nodes, i, j);
      BlockOnce(width, p, nodes[i]);
    }
  }

  /** A value at two positions occurs at least twice. */
  lemma Twice(nodes: seq<nat>, i: nat, j: nat)
    requires i < j < |nodes| && nodes[i] == nodes[j]
    ensures multiset(nodes)[nodes[i]] >= 2
  {
    var rest := nodes[..i] + nodes[i + 1..];
    assert nodes == nodes[..i] + [nodes[i]] + nodes[i + 1..];
    assert rest[j - 1] == nodes[j];
    assert multiset(nodes) == multiset(rest) + multiset{nodes[i]};
  }

  /** With rows of at least two cells, the four corners of a block are distinct. */
  lemma BlockOnce(width: nat, p: nat, x: nat)
    requires width >= 2
    ensures Block(width, p)[x] <= 1
  {
  }

  // ---------------------------------------------------------------------------------------
  // The grid

  predicate OnBorder(width: nat, size: nat, i: nat)
    requires width > 0
  {
    i < width || i + width >= size || i % width == 0 || i % width == width - 1
  }

  predicate Interior(width: nat, size: nat, i: nat) {
    width > 0 && i < size && !OnBorder(width, size, i)
  }

  /** What the search relies on instead of bound checks: at least three rows of at least three
      cells, with `Blocker` all around. */
  predicate Bordered(width: nat, tiles: seq<Tile>) {
    && width >= 3 && |tiles| % width == 0 && |tiles| >= 3 * width
    && forall i :: 0 <= i < |tiles| && OnBorder(width, |tiles|, i) ==> tiles[i] == Blocker
  }

  /** Tiles the search may step onto. */
  predicate Passable(t: Tile) {
    t != Blocker && t != Room
  }

  /** The move from `from` to `to` does not join two `CorridorNeighbor` tiles. */
  predicate AllowedMove(tiles: seq<Tile>, from: nat, to: nat)
    requires from < |tiles| && to < |tiles|
  {
    !(tiles[from] == CorridorNeighbor && tiles[to] == CorridorNeighbor)
  }

  /** The four neighbours the search tries, as index offsets: south, north, east, west. */
  predicate Adjacent(width: nat, a: nat, b: nat) {
    b == a + width || a == b + width || b == a + 1 || a == b + 1
  }

  /** In a bordered grid a passable cell lies inside the border. */
  lemma PassableIsInterior(width: nat, tiles: seq<Tile>, i: nat)
    requires Bordered(width, tiles) && i < |tiles| && Passable(tiles[i])
    ensures Interior(width, |tiles|, i)
  {
  }

  /** The four neighbours of an interior cell are cells of the grid. */
  lemma InteriorNeighbours(width: nat, size: nat, i: nat)
    requires Interior(width, size, i)
    ensures i >= width && i + width < size && i >= 1 && i + 1 < size
  {
  }

  // ---------------------------------------------------------------------------------------
  // Costs

  /** Every configured cost is positive, as `Configuration::is_valid` demands. */
  predicate PositiveCosts(c: Configuration) {
    c.corridorCost >= 1 && c.straightCost >= 1 && c.standardCost >= 1
  }

  /** The cost of stepping from `current` (reached from `previous`) onto `neighbor`: a corridor
      is cheapest to reuse, and keeping the direction of the last step is cheaper than turning. */
  function StepCost(c: Configuration, tiles: seq<Tile>, previous: nat, current: nat, neighbor: nat): (cost: nat)
    requires neighbor < |tiles|
    ensures cost == c.corridorCost || cost == c.straightCost || cost == c.standardCost
    ensures MinCost(c) <= cost
  {
    if tiles[neighbor] == Corridor then c.corridorCost
    else if Diff(current, previous) == Diff(neighbor, current) then c.straightCost
    else c.standardCost
  }

  /** The first step out of the start, whose parent is itself, is never a straight one. */
  lemma FirstStepTurns(c: Configuration, tiles: seq<Tile>, start: nat, neighbor: nat)
    requires neighbor < |tiles| && neighbor != start && tiles[neighbor] != Corridor
    ensures StepCost(c, tiles, start, start, neighbor) == c.standardCost
  {
  }

  /** The sum of the scores, which every improvement lowers. */
  function Total(s: seq<nat>): nat {
    if s == [] then 0 else Total(s[..|s| - 1]) + s[|s| - 1]
  }

  /** No score of `g` is above the one at the same cell in `g0`. */
  predicate NoHigher(g: seq<nat>, g0: seq<nat>) {
    |g| == |g0| && forall i :: 0 <= i < |g| ==> g[i] <= g0[i]
  }

  lemma {:induction false} TotalUpdate(s: seq<nat>, i: nat, v: nat)
    requires i < |s|
    ensures Total(s[i := v]) + s[i] == Total(s) + v
    decreases |s|
  {
    var t := s[i := v];
    if i < |s| - 1 {
      assert t[..|t| - 1] == s[..|s| - 1][i := v];
      TotalUpdate(s[..|s| - 1], i, v);
    } else {
      assert t[..|t| - 1] == s[..|s| - 1];
    }
  }

  // ---------------------------------------------------------------------------------------
  // The search

  /** The step into `i` that set `parent[i]`: onto a passable tile next to its parent, not from
      one `CorridorNeighbor` to another, at a higher score than the parent's; and the parent is
      the start or itself has a parent. */
  predicate TreeEdge(width: nat, tiles: seq<Tile>, start: nat, gScores: seq<nat>, parent: seq<nat>, i: nat)
    requires |gScores| == |parent| == |tiles| && i < |tiles|
    requires forall j :: 0 <= j < |parent| ==> parent[j] < |parent|
  {
    var p := parent[i];
    && i != start && Passable(tiles[i]) && Adjacent(width, p, i) && AllowedMove(tiles, p, i)
    && gScores[p] < gScores[i]
    && (parent[p] != p || p == start)
  }

  /** The state the search keeps: `parent` is a tree of admissible steps rooted at `start`, and
      no score rises above its initial value. */
  predicate SearchTree(width: nat, tiles: seq<Tile>, start: nat, gScores: seq<nat>, parent: seq<nat>) {
    && |gScores| == |parent| == |tiles| && start < |tiles|
    && gScores[start] == 0 && parent[start] == start
    && (forall j :: 0 <= j < |parent| ==> parent[j] < |parent|)
    && (forall j :: 0 <= j < |gScores| ==> gScores[j] <= Unreached)
    && forall j {:trigger TreeEdge(width, tiles, start, gScores, parent, j)} ::
         0 <= j < |parent| && parent[j] != j ==> TreeEdge(width, tiles, start, gScores, parent, j)
  }

  /** A heap entry `(f, cell)` of a cell inside the border, pushed with `f` at least its
      heuristic, for the start or for a cell that has a parent. */
  predicate EntryOk(width: nat, tiles: seq<Tile>, start: nat, end: nat, minCost: nat, parent: seq<nat>, e: (nat, nat))
    requires width > 0 && |parent| == |tiles|
  {
    && Interior(width, |tiles|, e.1)
    && e.0 >= Heuristic(width, e.1, end, minCost)
    && (e.1 == start || parent[e.1] != e.1)
  }

  ghost predicate EntriesOk(width: nat, tiles: seq<Tile>, start: nat, end: nat, minCost: nat, parent: seq<nat>, open: multiset<(nat, nat)>)
    requires width > 0 && |parent| == |tiles|
  {
    forall e :: e in open ==> EntryOk(width, tiles, start, end, minCost, parent, e)
  }

  /** The walk from `path[0]` back along `parent`: every step goes from a cell to its parent,
      next door, from a passable tile reached by an allowed move, to a strictly lower score. */
  predicate ParentChain(width: nat, tiles: seq<Tile>, gScores: seq<nat>, parent: seq<nat>, path: seq<nat>)
    requires |gScores| == |parent| == |tiles|
  {
    && (forall k :: 0 <= k < |path| ==> path[k] < |tiles|)
    && forall k :: 0 <= k < |path| - 1 ==>
         && path[k + 1] == parent[path[k]] && Adjacent(width, path[k + 1], path[k])
         && Passable(tiles[path[k]]) && AllowedMove(tiles, path[k + 1], path[k])
         && gScores[path[k + 1]] < gScores[path[k]]
  }

  /** Lines 47-58 of `a_star`: clears the open set, resets the scores to "unreached" and every
      parent to the cell itself, empties the path, and seeds the open set with the start. */
  method Initialise(width: nat, tiles: seq<Tile>, start: nat, end: nat, minCost: nat, openSet: Heap)
    returns (gScores: seq<nat>, parent: seq<nat>, path: seq<nat>)
    requires width > 0 && Interior(width, |tiles|, start) && openSet.Valid()
    modifies openSet
    ensures |gScores| == |tiles| && gScores[start] == 0
    ensures forall i :: 0 <= i < |tiles| && i != start ==> gScores[i] == Unreached
    ensures |parent| == |tiles| && forall i :: 0 <= i < |tiles| ==> parent[i] == i
    ensures path == []
    ensures openSet.Valid() && openSet.len == 1
    ensures openSet.Contents() == multiset{(Heuristic(width, start, end, minCost), start)}
  {
    openSet.Clear();
    gScores := seq(|tiles|, i => Unreached);
    parent := [];
    for i := 0 to |tiles|
      invariant |parent| == i && forall j :: 0 <= j < i ==> parent[j] == j
    {
      parent := parent + [i];
    }
    path := [];
    gScores := gScores[start := 0];
    openSet.Insert(Heuristic(width, start, end, minCost), start);
  }

  /** The initial state is a search tree with only the start in the open set. */
  lemma InitialTree(width: nat, tiles: seq<Tile>, start: nat, end: nat, minCost: nat, gScores: seq<nat>, parent: seq<nat>)
    requires width > 0 && Interior(width, |tiles|, start)
    requires |gScores| == |tiles| && gScores[start] == 0
    requires forall i :: 0 <= i < |tiles| && i != start ==> gScores[i] == Unreached
    requires |parent| == |tiles| && forall i :: 0 <= i < |tiles| ==> parent[i] == i
    ensures SearchTree(width, tiles, start, gScores, parent)
    ensures EntriesOk(width, tiles, start, end, minCost, parent, multiset{(Heuristic(width, start, end, minCost), start)})
  {
  }

  /** Whether relaxing `neighbor` through `current` changes anything: the move is not skipped (the
      neighbour is neither `Blocker` nor `Room`, the move is not from one `CorridorNeighbor` to
      another and does not complete a 2x2 block with the last two cells of the tree) and the
      score through `current` is strictly better. */
  predicate Improves(c: Configuration, width: nat, tiles: seq<Tile>, current: nat, neighbor: nat,
                     gScores: seq<nat>, parent: seq<nat>)
    requires current < |tiles| && neighbor < |tiles| && |gScores| == |parent| == |tiles|
    requires forall j :: 0 <= j < |parent| ==> parent[j] < |parent|
  {
    && Passable(tiles[neighbor])
    && AllowedMove(tiles, current, neighbor)
    && !MakeSquare(width, [neighbor, current, parent[current], parent[parent[current]]])
    && gScores[current] + StepCost(c, tiles, parent[current], current, neighbor) < gScores[neighbor]
  }

  /** One pass of the body of the loop over the neighbours (lines 82-116): skips `Blocker` and
      `Room`, a `CorridorNeighbor` to `CorridorNeighbor` move and a move completing a 2x2 block;
      otherwise relaxes `neighbor` through `current` and pushes it when its score improves. */
  method Relax(c: Configuration, width: nat, tiles: seq<Tile>, start: nat, end: nat,
               current: nat, neighbor: nat, gScores: seq<nat>, parent: seq<nat>, openSet: Heap)
    returns (g: seq<nat>, p: seq<nat>)
    requires Bordered(width, tiles) && PositiveCosts(c)
    requires SearchTree(width, tiles, start, gScores, parent)
    requires Interior(width, |tiles|, current) && (current == start || parent[current] != current)
    requires neighbor < |tiles| && Adjacent(width, current, neighbor) && neighbor != current
    requires openSet.Valid() && EntriesOk(width, tiles, start, end, MinCost(c), parent, openSet.Contents())
    modifies openSet
    ensures SearchTree(width, tiles, start, g, p) && p[current] == parent[current]
    ensures openSet.Valid() && EntriesOk(width, tiles, start, end, MinCost(c), p, openSet.Contents())
    ensures Improves(c, width, tiles, current, neighbor, gScores, parent) ==>
              && g == gScores[neighbor := gScores[current] + StepCost(c, tiles, parent[current], current, neighbor)]
              && p == parent[neighbor := current]
              && openSet.len == old(openSet.len) + 1
              && openSet.Contents() == old(openSet.Contents()) + multiset{(g[neighbor] + Heuristic(width, neighbor, end, MinCost(c)), neighbor)}
    ensures !Improves(c, width, tiles, current, neighbor, gScores, parent) ==>
              g == gScores && p == parent && openSet.Contents() == old(openSet.Contents())
    ensures NoHigher(g, gScores)
    ensures Total(g) <= Total(gScores) && openSet.len + Total(g) <= old(openSet.len) + Total(gScores)
  {
    var improves := Improves(c, width, tiles, current, neighbor, gScores, parent);
    if improves {
      var fScore;
      g, p, fScore := Improve(c, width, tiles, start, end, current, neighbor, gScores, parent, openSet);
    } else {
      g, p := gScores, parent;
    }
  }

  /** The improving case of `Relax` (lines 110-116): `neighbor` gets the score through `current`
      and the parent `current`, and is pushed with that score plus its heuristic. */
  method Improve(c: Configuration, width: nat, tiles: seq<Tile>, start: nat, end: nat,
                 current: nat, neighbor: nat, gScores: seq<nat>, parent: seq<nat>, openSet: Heap)
    returns (g: seq<nat>, p: seq<nat>, fScore: nat)
    requires Bordered(width, tiles) && PositiveCosts(c)
    requires SearchTree(width, tiles, start, gScores, parent)
    requires Interior(width, |tiles|, current) && (current == start || parent[current] != current)
    requires neighbor < |tiles| && Adjacent(width, current, neighbor) && neighbor != current
    requires Passable(tiles[neighbor]) && AllowedMove(tiles, current, neighbor)
    requires gScores[current] + StepCost(c, tiles, parent[current], current, neighbor) < gScores[neighbor]
    requires openSet.Valid() && EntriesOk(width, tiles, start, end, MinCost(c), parent, openSet.Contents())
    modifies openSet
    ensures g == gScores[neighbor := gScores[current] + StepCost(c, tiles, parent[current], current, neighbor)]
    ensures p == parent[neighbor := current]
    ensures openSet.Valid()
    ensures fScore == g[neighbor] + Heuristic(width, neighbor, end, MinCost(c))
    ensures openSet.len == old(openSet.len) + 1
    ensures openSet.Contents() == old(openSet.Contents()) + multiset{(fScore, neighbor)}
    ensures SearchTree(width, tiles, start, g, p) && EntriesOk(width, tiles, start, end, MinCost(c), p, openSet.Contents())
    ensures NoHigher(g, gScores)
    ensures Total(g) <= Total(gScores) && openSet.len + Total(g) <= old(openSet.len) + Total(gScores)
  {
    var tentative := gScores[current] + StepCost(c, tiles, parent[current], current, neighbor);
    PassableIsInterior(width, tiles, neighbor);
    ImproveKeepsTree(width, tiles, start, gScores, parent, current, neighbor, tentative);
    TotalUpdate(gScores, neighbor, tentative);
    p := parent[neighbor := current];
    g := gScores[neighbor := tentative];
    fScore := tentative + Heuristic(width, neighbor, end, MinCost(c));
    EntriesAfterImprove(width, tiles, start, end, MinCost(c), parent, openSet.Contents(), current, neighbor, fScore);
    openSet.Insert(fScore, neighbor);
  }

  /** Giving `neighbor` the parent `current` keeps every entry of the open set admissible, and the
      entry pushed for `neighbor` is admissible too. */
  lemma EntriesAfterImprove(width: nat, tiles: seq<Tile>, start: nat, end: nat, minCost: nat, parent: seq<nat>,
                            open: multiset<(nat, nat)>, current: nat, neighbor: nat, f: nat)
    requires width > 0 && |parent| == |tiles| && EntriesOk(width, tiles, start, end, minCost, parent, open)
    requires Interior(width, |tiles|, neighbor) && f >= Heuristic(width, neighbor, end, minCost) && current != neighbor
    ensures EntriesOk(width, tiles, start, end, minCost, parent[neighbor := current], open + multiset{(f, neighbor)})
  {
    var p := parent[neighbor := current];
    forall e | e in open + multiset{(f, neighbor)}
      ensures EntryOk(width, tiles, start, end, minCost, p, e)
    {
      if e in open {
        assert EntryOk(width, tiles, start, end, minCost, parent, e);
      }
    }
  }

  /** Setting `parent[neighbor] := current` with a better score keeps the search tree. */
  lemma ImproveKeepsTree(width: nat, tiles: seq<Tile>, start: nat, gScores: seq<nat>, parent: seq<nat>,
                         current: nat, neighbor: nat, tentative: nat)
    requires SearchTree(width, tiles, start, gScores, parent)
    requires current < |tiles| && (current == start || parent[current] != current)
    requires neighbor < |tiles| && Adjacent(width, current, neighbor) && neighbor != current
    requires Passable(tiles[neighbor]) && AllowedMove(tiles, current, neighbor)
    requires gScores[current] < tentative < gScores[neighbor]
    ensures SearchTree(width, tiles, start, gScores[neighbor := tentative], parent[neighbor := current])
  {
    var g, p := gScores[neighbor := tentative], parent[neighbor := current];
    forall j | 0 <= j < |p| && p[j] != j
      ensures TreeEdge(width, tiles, start, g, p, j)
    {
      if j != neighbor {
        assert TreeEdge(width, tiles, start, gScores, parent, j);
      }
    }
  }

  /** The loop over the four neighbours of `current` (lines 76-117). */
  method Expand(c: Configuration, width: nat, tiles: seq<Tile>, start: nat, end: nat,
                current: nat, gScores: seq<nat>, parent: seq<nat>, openSet: Heap)
    returns (g: seq<nat>, p: seq<nat>)
    requires Bordered(width, tiles) && PositiveCosts(c)
    requires SearchTree(width, tiles, start, gScores, parent)
    requires Interior(width, |tiles|, current) && (current == start || parent[current] != current)
    requires openSet.Valid() && EntriesOk(width, tiles, start, end, MinCost(c), parent, openSet.Contents())
    modifies openSet
    ensures SearchTree(width, tiles, start, g, p) && p[current] == parent[current]
    ensures openSet.Valid() && EntriesOk(width, tiles, start, end, MinCost(c), p, openSet.Contents())
    ensures NoHigher(g, gScores)
    ensures Total(g) <= Total(gScores) && openSet.len + Total(g) <= old(openSet.len) + Total(gScores)
  {
    InteriorNeighbours(width, |tiles|, current);
    var neighbors: seq<nat> := [current + width, current - width, current + 1, current - 1];
    assert forall k :: 0 <= k < 4 ==> neighbors[k] < |tiles| && Adjacent(width, current, neighbors[k]) && neighbors[k] != current;
    g, p := gScores, parent;
    for k := 0 to 4
      invariant SearchTree(width, tiles, start, g, p) && p[current] == parent[current]
      invariant openSet.Valid() && EntriesOk(width, tiles, start, end, MinCost(c), p, openSet.Contents())
      invariant NoHigher(g, gScores)
      invariant Total(g) <= Total(gScores) && openSet.len + Total(g) <= old(openSet.len) + Total(gScores)
    {
      g, p := Relax(c, width, tiles, start, end, current, neighbors[k], g, p, openSet);
    }
  }

  /** Lines 66-72: the walk from `end` back along `parent` to the start. */
  method Backtrack(width: nat, tiles: seq<Tile>, start: nat, end: nat, gScores: seq<nat>, parent: seq<nat>)
    returns (path: seq<nat>)
    requires SearchTree(width, tiles, start, gScores, parent)
    requires end < |tiles| && (end == start || parent[end] != end)
    ensures path != [] && path[0] == end && path[|path| - 1] == start
    ensures ParentChain(width, tiles, gScores, parent, path)
  {
    var current: nat := end;
    path := [current];
    while current != parent[current]
      invariant current < |tiles| == |parent| && (current == start || parent[current] != current)
      invariant path != [] && path[0] == end && path[|path| - 1] == current
      invariant ParentChain(width, tiles, gScores, parent, path)
      decreases gScores[current]
    {
      assert TreeEdge(width, tiles, start, gScores, parent, current);
      ChainExtend(width, tiles, start, gScores, parent, path);
      current := parent[current];
      path := path + [current];
    }
  }

  /** A chain that ends at a cell with a tree edge continues to that cell's parent. */
  lemma ChainExtend(width: nat, tiles: seq<Tile>, start: nat, gScores: seq<nat>, parent: seq<nat>, path: seq<nat>)
    requires SearchTree(width, tiles, start, gScores, parent)
    requires ParentChain(width, tiles, gScores, parent, path) && path != []
    requires parent[path[|path| - 1]] != path[|path| - 1]
    requires TreeEdge(width, tiles, start, gScores, parent, path[|path| - 1])
    ensures ParentChain(width, tiles, gScores, parent, path + [parent[path[|path| - 1]]])
  {
    var last := path[|path| - 1];
    var q := path + [parent[last]];
    forall k | 0 <= k < |q| - 1
      ensures q[k + 1] == parent[q[k]] && Adjacent(width, q[k + 1], q[k])
      ensures Passable(tiles[q[k]]) && AllowedMove(tiles, q[k + 1], q[k]) && gScores[q[k + 1]] < gScores[q[k]]
    {
      if k < |path| - 1 {
        assert q[k] == path[k] && q[k + 1] == path[k + 1];
      } else {
        assert q[k] == last && q[k + 1] == parent[last];
      }
    }
  }

  /** `a_star`: searches from `start` to `end`, leaving in `path` either nothing or the cells
      from `end` back to `start` along the final `parent` links. The grid must be bordered by
      `Blocker` and the start must lie inside the border (the source reads the four
      neighbours of every cell it expands without a bound check). */
  method AStar(c: Configuration, start: nat, end: nat, width: nat, tiles: seq<Tile>, openSet: Heap)
    returns (gScores: seq<nat>, parent: seq<nat>, path: seq<nat>)
    requires Bordered(width, tiles) && Interior(width, |tiles|, start) && PositiveCosts(c)
    requires openSet.Valid()
    modifies openSet
    ensures openSet.Valid()
    ensures SearchTree(width, tiles, start, gScores, parent)
    ensures path != [] ==> path[0] == end && path[|path| - 1] == start && ParentChain(width, tiles, gScores, parent, path)
  {
    var minCost := MinCost(c);
    gScores, parent, path := Initialise(width, tiles, start, end, minCost, openSet);
    InitialTree(width, tiles, start, end, minCost, gScores, parent);
    while true
      invariant openSet.Valid() && path == []
      invariant SearchTree(width, tiles, start, gScores, parent)
      invariant EntriesOk(width, tiles, start, end, minCost, parent, openSet.Contents())
      decreases Total(gScores), openSet.len
    {
      ghost var open := openSet.Contents();
      var top := openSet.ExtractMin();
      if top.None? {
        return;
      }
      var fCost, current := top.value.0, top.value.1;
      assert EntryOk(width, tiles, start, end, minCost, parent, top.value);
      var gCost := fCost - Heuristic(width, current, end, minCost);
      if gCost > gScores[current] {
        continue;
      }
      if current == end {
        path := Backtrack(width, tiles, start, end, gScores, parent);
        return;
      }
      gScores, parent := Expand(c, width, tiles, start, end, current, gScores, parent, openSet);
    }
  }

  // ---------------------------------------------------------------------------------------
  // The heuristic

  /** One step between two interior cells changes the distance to `end` by at most one. */
  lemma StepChangesManhattanByOne(width: nat, size: nat, a: nat, b: nat, end: nat)
    requires Interior(width, size, a) && Interior(width, size, b) && Adjacent(width, a, b)
    ensures Manhattan(width, a, end) <= Manhattan(width, b, end) + 1
  {
    if b == a + width {
      SouthOf(width, a);
    } else if a == b + width {
      SouthOf(width, b);
    } else if b == a + 1 {
      EastOf(width, a);
    } else {
      EastOf(width, b);
    }
  }

  /** The cell below `a` is in the next row, same column. */
  lemma SouthOf(width: nat, a: nat)
    requires width > 0
    ensures (a + width) / width == a / width + 1 && (a + width) % width == a % width
  {
    var q, r := a / width, a % width;
    assert a + width == (q + 1) * width + r;
    RowAndColumn(width, q + 1, r);
  }

  /** The cell right of `a`, when `a` is not in the last column, is in the same row. */
  lemma EastOf(width: nat, a: nat)
    requires width > 0 && a % width != width - 1
    ensures (a + 1) / width == a / width && (a + 1) % width == a % width + 1
  {
    var q, r := a / width, a % width;
    assert a + 1 == q * width + (r + 1);
    RowAndColumn(width, q, r + 1);
  }

  /** The heuristic is consistent: it never drops by more than the cost of the step taken, so
      (being zero at `end`) it never overestimates the cost of the rest of the way. */
  lemma HeuristicConsistent(c: Configuration, width: nat, tiles: seq<Tile>, previous: nat, current: nat,
                            neighbor: nat, end: nat)
    requires Interior(width, |tiles|, current) && Interior(width, |tiles|, neighbor)
    requires Adjacent(width, current, neighbor)
    ensures Heuristic(width, current, end, MinCost(c))
            <= Heuristic(width, neighbor, end, MinCost(c)) + StepCost(c, tiles, previous, current, neighbor)
    ensures Heuristic(width, end, end, MinCost(c)) == 0
  {
    StepChangesManhattanByOne(width, |tiles|, current, neighbor, end);
    var m := MinCost(c);
    MulMonotone(Manhattan(width, current, end), Manhattan(width, neighbor, end) + 1, m);
    assert (Manhattan(width, neighbor, end) + 1) * m == Manhattan(width, neighbor, end) * m + m;
  }

  lemma MulMonotone(x: nat, y: nat, m: nat)
    requires x <= y
    ensures x * m <= y * m
  {
  }

  // ---------------------------------------------------------------------------------------
  // The source's tests

  /** The `no_path` grid, five by five: `Blocker` on the outline and down the middle column,
      the doorways at (1, 2) and (3, 2), and `Wall` elsewhere. */
  function NoPathTiles(): (tiles: seq<Tile>)
    ensures |tiles| == 25
  {
    seq(25, i => if i < 5 || i >= 20 || (i % 5) % 2 == 0 then Blocker else if i == 11 || i == 13 then Doorway else Wall)
  }

  lemma NoPathBordered()
    ensures Bordered(5, NoPathTiles())
  {
  }

  /** Every walk along passable cells from (3, 2) stays in column three, so it never reaches
      (1, 2). */
  lemma {:induction false} NoPathChain(gScores: seq<nat>, parent: seq<nat>, path: seq<nat>)
    requires |gScores| == |parent| == 25
    requires ParentChain(5, NoPathTiles(), gScores, parent, path) && path != [] && path[0] == 13
    ensures path[|path| - 1] != 11
  {
    var tiles := NoPathTiles();
    if |path| > 1 {
      var k := 0;
      while k + 1 < |path| - 1
        invariant 0 <= k < |path| - 1 && path[k] % 5 == 3
      {
        assert Passable(tiles[path[k]]) && Passable(tiles[path[k + 1]]);
        k := k + 1;
      }
      assert Passable(tiles[path[k]]);
    }
  }

  /** The source's `no_path` test: the search between the two doorways of `NoPathTiles`, split
      by a column of `Blocker`, leaves the path empty. */
  method NoPath() returns (path: seq<nat>)
    ensures path == []
  {
    var openSet := new Heap.WithCapacity(1000);
    var c := Default();
    ValidCostsArePositive(c);
    NoPathBordered();
    var gScores, parent;
    gScores, parent, path := AStar(c, 11, 13, 5, NoPathTiles(), openSet);
    if path != [] {
      NoPathChain(gScores, parent, path);
    }
  }

  /** The `grid_edge_should_be_unreachable` grid, whose outline is `Wall`: the source reads past
      the edge of it and panics, and the search's precondition rejects it. */
  function GridEdgeTiles(): (tiles: seq<Tile>)
    ensures |tiles| == 25
  {
    seq(25, i => if i == 7 || i == 12 || i == 17 then Blocker else if i == 11 || i == 13 then Doorway else Wall)
  }

  lemma GridEdgeShouldBeUnreachable()
    ensures !Bordered(5, GridEdgeTiles())
  {
    assert GridEdgeTiles()[0] == Wall;
  }
}

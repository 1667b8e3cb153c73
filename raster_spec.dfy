/** The mathematics behind `MyMap2D`'s algorithms, on values: the grid's shape,
    the one neighbour rule that flood fill, shortest path and all-distances share,
    walks and reachability, and what a flood fill and a distance map must be. */
module RasterSpec {
  import opened JavaInt
  import opened Wrappers

  /** A coordinate pair as the algorithms compute it. */
  datatype Cell = Cell(x: int, y: int)

  /** Width, height and whether the edges wrap (`_cyclic`). */
  datatype Topology = Topology(w: nat, h: nat, cyclic: bool)

  /** The cell contents, column by column: `g[x][y]` is `_map[x][y]`. */
  type Board = seq<seq<int>>

  predicate Inside(t: Topology, c: Cell)
  {
    0 <= c.x < t.w && 0 <= c.y < t.h
  }

  predicate Shaped(t: Topology, g: Board)
  {
    |g| == t.w && forall x :: 0 <= x < |g| ==> |g[x]| == t.h
  }

  function At(t: Topology, g: Board, c: Cell): int
    requires Shaped(t, g) && Inside(t, c)
  {
    g[c.x][c.y]
  }

  ghost function AllCells(t: Topology): set<Cell>
  {
    set x, y | 0 <= x < t.w && 0 <= y < t.h :: Cell(x, y)
  }

  lemma InAllCells(t: Topology, c: Cell)
    ensures c in AllCells(t) <==> Inside(t, c)
  {
    if Inside(t, c) {
      assert Cell(c.x, c.y) in AllCells(t);
    }
  }

  /** Two boards of one shape that agree cell by cell are the same board. */
  lemma BoardsEqual(t: Topology, a: Board, b: Board)
    requires Shaped(t, a) && Shaped(t, b)
    requires forall x, y :: 0 <= x < t.w && 0 <= y < t.h ==> a[x][y] == b[x][y]
    ensures a == b
  {
    forall x | 0 <= x < t.w ensures a[x] == b[x] {
      assert |a[x]| == |b[x]| == t.h;
      assert forall y :: 0 <= y < t.h ==> a[x][y] == b[x][y];
    }
  }

  // ---------------------------------------------------------------------------
  // The neighbour rule

  /** The direction tables of `fill`, `addFillNeighbors` and `allDistance`. */
  const FillDX: seq<int> := [0, 0, -1, 1]
  const FillDY: seq<int> := [1, -1, 0, 0]

  /** The direction tables of `shortestPath`. */
  const PathDX: seq<int> := [1, -1, 0, 0]
  const PathDY: seq<int> := [0, 0, 1, -1]

  /** Every table entry is a unit step along one axis. */
  lemma UnitDirections(i: nat)
    requires i < 4
    ensures |FillDX| == |FillDY| == |PathDX| == |PathDY| == 4
    ensures -1 <= FillDX[i] <= 1 && -1 <= FillDY[i] <= 1 && -1 <= PathDX[i] <= 1 && -1 <= PathDY[i] <= 1
  {
  }

  /** A coordinate at most one step off an axis of length `n`, brought back
      onto it: `-1` becomes `n - 1` and `n` becomes `0`. */
  function Wrap(n: nat, i: int): int
  {
    if i < 0 then i + n else if i >= n then i - n else i
  }

  /** Both wrap idioms of the source, the floored modulus `((i % n) + n) % n` and
      the shifted remainder `(i + n) % n`, compute `Wrap` one step off the axis. */
  lemma WrapIsFloorMod(n: nat, i: int)
    requires n > 0 && -1 <= i <= n
    ensures FloorMod(i, n) == Wrap(n, i) && ShiftMod(i, n) == Wrap(n, i)
  {
    WrapIdiomsAgree(i, n);
    if i < 0 { ModShiftDown(i, n); }
    else if i == n { ModShift(0, n); }
    else { ModSmall(i, n); }
  }

  /** One step from `c` by `(dx, dy)`: on a cyclic grid both coordinates wrap
      around, otherwise a step off the grid is no cell. */
  function Step(t: Topology, c: Cell, dx: int, dy: int): (r: Option<Cell>)
    requires Inside(t, c)
    requires -1 <= dx <= 1 && -1 <= dy <= 1
    ensures r.Some? ==> Inside(t, r.value)
  {
    var nx, ny := c.x + dx, c.y + dy;
    var n := if t.cyclic then Cell(Wrap(t.w, nx), Wrap(t.h, ny)) else Cell(nx, ny);
    if Inside(t, n) then Some(n) else None
  }

  /** `b` is one of the (at most four) cells a step from `a` reaches. */
  predicate Adjacent(t: Topology, a: Cell, b: Cell)
  {
    Inside(t, a) && Inside(t, b) &&
    (Step(t, a, 1, 0) == Some(b) || Step(t, a, -1, 0) == Some(b) ||
     Step(t, a, 0, 1) == Some(b) || Step(t, a, 0, -1) == Some(b))
  }

  /** The next and the previous coordinate on an axis of length `n` that wraps. */
  function Succ(n: nat, i: int): int
  {
    if i + 1 == n then 0 else i + 1
  }

  function Pred(n: nat, i: int): int
  {
    if i == 0 then n - 1 else i - 1
  }

  /** Coordinate `j` is one away from `i` along an axis of length `n`. */
  predicate Near(cyclic: bool, n: nat, i: int, j: int)
  {
    if cyclic then j == Succ(n, i) || j == Pred(n, i) else j == i + 1 || j == i - 1
  }

  /** The neighbour rule read as geometry: same row or column, one apart, with
      wrap-around on a cyclic grid. */
  lemma AdjacentMeans(t: Topology, a: Cell, b: Cell)
    requires Inside(t, a) && Inside(t, b)
    ensures Adjacent(t, a, b) <==>
      (a.y == b.y && Near(t.cyclic, t.w, a.x, b.x)) || (a.x == b.x && Near(t.cyclic, t.h, a.y, b.y))
  {
  }

  /** Neighbourhood is symmetric, on bounded and on cyclic grids. */
  lemma AdjacentSymmetric(t: Topology, a: Cell, b: Cell)
    requires Adjacent(t, a, b)
    ensures Adjacent(t, b, a)
  {
    AdjacentMeans(t, a, b);
    AdjacentMeans(t, b, a);
  }

  /** Each direction table lists exactly the four unit steps, so a step by any of
      its entries reaches a neighbour, and every neighbour is reached by one entry. */
  lemma DirectionTablesCoverNeighbours(t: Topology, a: Cell, b: Cell)
    requires Inside(t, a)
    ensures forall i :: 0 <= i < 4 ==> (Step(t, a, FillDX[i], FillDY[i]) == Some(b) ==> Adjacent(t, a, b))
    ensures forall i :: 0 <= i < 4 ==> (Step(t, a, PathDX[i], PathDY[i]) == Some(b) ==> Adjacent(t, a, b))
    ensures Adjacent(t, a, b) ==> exists i :: 0 <= i < 4 && Step(t, a, FillDX[i], FillDY[i]) == Some(b)
    ensures Adjacent(t, a, b) ==> exists i :: 0 <= i < 4 && Step(t, a, PathDX[i], PathDY[i]) == Some(b)
  {
    if Adjacent(t, a, b) {
      if Step(t, a, 1, 0) == Some(b) {
        assert Step(t, a, FillDX[3], FillDY[3]) == Some(b);
        assert Step(t, a, PathDX[0], PathDY[0]) == Some(b);
      } else if Step(t, a, -1, 0) == Some(b) {
        assert Step(t, a, FillDX[2], FillDY[2]) == Some(b);
        assert Step(t, a, PathDX[1], PathDY[1]) == Some(b);
      } else if Step(t, a, 0, 1) == Some(b) {
        assert Step(t, a, FillDX[0], FillDY[0]) == Some(b);
        assert Step(t, a, PathDX[2], PathDY[2]) == Some(b);
      } else {
        assert Step(t, a, FillDX[1], FillDY[1]) == Some(b);
        assert Step(t, a, PathDX[3], PathDY[3]) == Some(b);
      }
    }
  }

  /** The direction table a breadth-first loop walks: `fill`'s and
      `allDistance`'s, or `shortestPath`'s. */
  datatype Table = FillTable | PathTable

  function DX(tab: Table, i: nat): (r: int)
    requires i < 4
    ensures -1 <= r <= 1
  {
    UnitDirections(i);
    if tab == FillTable then FillDX[i] else PathDX[i]
  }

  function DY(tab: Table, i: nat): (r: int)
    requires i < 4
    ensures -1 <= r <= 1
  {
    UnitDirections(i);
    if tab == FillTable then FillDY[i] else PathDY[i]
  }

  /** A step by a table entry reaches a neighbour. */
  lemma TableStepAdjacent(t: Topology, tab: Table, a: Cell, i: nat, b: Cell)
    requires Inside(t, a) && i < 4
    requires Step(t, a, DX(tab, i), DY(tab, i)) == Some(b)
    ensures Adjacent(t, a, b)
  {
    DirectionTablesCoverNeighbours(t, a, b);
  }

  /** Every neighbour is a step by some table entry. */
  lemma TableCoversNeighbour(t: Topology, tab: Table, a: Cell, b: Cell)
    requires Inside(t, a) && Adjacent(t, a, b)
    ensures exists i :: 0 <= i < 4 && Step(t, a, DX(tab, i), DY(tab, i)) == Some(b)
  {
    var fill := tab == FillTable;
    if Step(t, a, 1, 0) == Some(b) {
      var i := if fill then 3 else 0;
      assert DX(tab, i) == 1 && DY(tab, i) == 0;
    } else if Step(t, a, -1, 0) == Some(b) {
      var i := if fill then 2 else 1;
      assert DX(tab, i) == -1 && DY(tab, i) == 0;
    } else if Step(t, a, 0, 1) == Some(b) {
      var i := if fill then 0 else 2;
      assert DX(tab, i) == 0 && DY(tab, i) == 1;
    } else {
      var i := if fill then 1 else 3;
      assert DX(tab, i) == 0 && DY(tab, i) == -1;
    }
  }

  // ---------------------------------------------------------------------------
  // Walks

  /** Which cells a walk may enter: those holding `v` (flood fill) or those not
      holding the obstacle value `obs` (shortest path, all distances). */
  datatype Rule = Through(v: int) | Avoiding(obs: int)

  predicate Passable(t: Topology, g: Board, rule: Rule, c: Cell)
    requires Shaped(t, g) && Inside(t, c)
  {
    match rule
    case Through(v) => At(t, g, c) == v
    case Avoiding(obs) => At(t, g, c) != obs
  }

  /** A walk: inside cells, each a neighbour of the one before, every cell after
      the first passable (the first is where the search starts, whatever it holds). */
  predicate Walk(t: Topology, g: Board, rule: Rule, w: seq<Cell>)
    requires Shaped(t, g)
  {
    && |w| >= 1
    && (forall i :: 0 <= i < |w| ==> Inside(t, w[i]))
    && (forall i :: 0 < i < |w| ==> Inside(t, w[i]) && Passable(t, g, rule, w[i]))
    && (forall i :: 0 <= i < |w| - 1 ==> Adjacent(t, w[i], w[i + 1]))
  }

  /** `w` is a walk from `a` to `b`. */
  predicate WalkBetween(t: Topology, g: Board, rule: Rule, w: seq<Cell>, a: Cell, b: Cell)
    requires Shaped(t, g)
  {
    Walk(t, g, rule, w) && w[0] == a && w[|w| - 1] == b
  }

  ghost predicate Reachable(t: Topology, g: Board, rule: Rule, a: Cell, b: Cell)
    requires Shaped(t, g)
  {
    exists w :: WalkBetween(t, g, rule, w, a, b)
  }

  /** A set that no allowed step leaves. */
  ghost predicate ClosedUnder(t: Topology, g: Board, rule: Rule, s: set<Cell>)
    requires Shaped(t, g)
  {
    forall c, n :: c in s && Adjacent(t, c, n) && Passable(t, g, rule, n) ==> n in s
  }

  lemma WalkPrefix(t: Topology, g: Board, rule: Rule, w: seq<Cell>, k: nat)
    requires Shaped(t, g) && Walk(t, g, rule, w) && 1 <= k <= |w|
    ensures Walk(t, g, rule, w[..k])
  {
  }

  lemma WalkExtend(t: Topology, g: Board, rule: Rule, w: seq<Cell>, c: Cell)
    requires Shaped(t, g) && Walk(t, g, rule, w)
    requires Adjacent(t, w[|w| - 1], c) && Passable(t, g, rule, c)
    ensures Walk(t, g, rule, w + [c])
  {
    var w' := w + [c];
    forall i | 0 <= i < |w'| - 1 ensures Adjacent(t, w'[i], w'[i + 1]) {
      if i < |w| - 1 { assert w'[i] == w[i] && w'[i + 1] == w[i + 1]; }
    }
  }

  /** A reachable cell's passable neighbour is reachable. */
  lemma ReachableStep(t: Topology, g: Board, rule: Rule, a: Cell, b: Cell, c: Cell)
    requires Shaped(t, g) && Reachable(t, g, rule, a, b)
    requires Adjacent(t, b, c) && Passable(t, g, rule, c)
    ensures Reachable(t, g, rule, a, c)
  {
    var w :| WalkBetween(t, g, rule, w, a, b);
    WalkExtend(t, g, rule, w, c);
    var w' := w + [c];
    assert w'[0] == a && w'[|w'| - 1] == c;
    assert WalkBetween(t, g, rule, w', a, c);
  }

  lemma ReachableSelf(t: Topology, g: Board, rule: Rule, a: Cell)
    requires Shaped(t, g) && Inside(t, a)
    ensures Reachable(t, g, rule, a, a)
  {
    assert WalkBetween(t, g, rule, [a], a, a);
  }

  /** A closed set holding the start of a walk holds its end. */
  lemma {:induction false} ClosedHoldsWalkEnd(t: Topology, g: Board, rule: Rule, s: set<Cell>, w: seq<Cell>)
    requires Shaped(t, g) && ClosedUnder(t, g, rule, s)
    requires Walk(t, g, rule, w) && w[0] in s
    ensures w[|w| - 1] in s
    decreases |w|
  {
    if |w| > 1 {
      WalkPrefix(t, g, rule, w, |w| - 1);
      ClosedHoldsWalkEnd(t, g, rule, s, w[..|w| - 1]);
      assert w[..|w| - 1][|w| - 2] == w[|w| - 2];
      assert Adjacent(t, w[|w| - 2], w[|w| - 1]);
    }
  }

  lemma ClosedHoldsReachable(t: Topology, g: Board, rule: Rule, s: set<Cell>, a: Cell, b: Cell)
    requires Shaped(t, g) && ClosedUnder(t, g, rule, s) && a in s
    requires Reachable(t, g, rule, a, b)
    ensures b in s
  {
    var w :| WalkBetween(t, g, rule, w, a, b);
    ClosedHoldsWalkEnd(t, g, rule, s, w);
  }

  // ---------------------------------------------------------------------------
  // Flood fill

  /** The cells a fill from `p` recolours: those reachable from `p` through
      cells holding `p`'s value. */
  ghost function FillRegion(t: Topology, g: Board, p: Cell): set<Cell>
    requires Shaped(t, g) && Inside(t, p)
  {
    set c | c in AllCells(t) && Reachable(t, g, Through(At(t, g, p)), p, c)
  }

  /** The board after `fill(p, v)`: unchanged when `p` is outside or already holds
      `v`; otherwise every cell of the region now holds `v`. */
  ghost function Filled(t: Topology, g: Board, p: Cell, v: int): (r: Board)
    requires Shaped(t, g)
    ensures Shaped(t, r)
  {
    if !Inside(t, p) || At(t, g, p) == v then g
    else
      var region := FillRegion(t, g, p);
      seq(t.w, x requires 0 <= x < t.w =>
        seq(t.h, y requires 0 <= y < t.h => if Cell(x, y) in region then v else g[x][y]))
  }

  /** What `fill(p, v)` returns. */
  ghost function FillCount(t: Topology, g: Board, p: Cell, v: int): nat
    requires Shaped(t, g)
  {
    if !Inside(t, p) || At(t, g, p) == v then 0 else |FillRegion(t, g, p)|
  }

  /** The fill region is the connected component of `p` among the cells holding
      its value: it holds `p`, holds only such cells, no step through such cells
      leaves it, and it lies inside every set that has those properties. */
  lemma FillRegionIsComponent(t: Topology, g: Board, p: Cell, s: set<Cell>)
    requires Shaped(t, g) && Inside(t, p)
    ensures p in FillRegion(t, g, p)
    ensures forall c :: c in FillRegion(t, g, p) ==> Inside(t, c) && At(t, g, c) == At(t, g, p)
    ensures ClosedUnder(t, g, Through(At(t, g, p)), FillRegion(t, g, p))
    ensures p in s && ClosedUnder(t, g, Through(At(t, g, p)), s) ==> FillRegion(t, g, p) <= s
  {
    var rule := Through(At(t, g, p));
    var r := FillRegion(t, g, p);
    ReachableSelf(t, g, rule, p);
    InAllCells(t, p);
    forall c | c in r ensures Inside(t, c) && At(t, g, c) == At(t, g, p) {
      InAllCells(t, c);
      var w :| Walk(t, g, rule, w) && w[0] == p && w[|w| - 1] == c;
      if |w| > 1 { assert Passable(t, g, rule, w[|w| - 1]); }
    }
    forall c, n | c in r && Adjacent(t, c, n) && Passable(t, g, rule, n) ensures n in r {
      ReachableStep(t, g, rule, p, c, n);
      InAllCells(t, n);
    }
    if p in s && ClosedUnder(t, g, rule, s) {
      forall c | c in r ensures c in s {
        ClosedHoldsReachable(t, g, rule, s, p, c);
      }
    }
  }

  /** A fill changes exactly the region's cells, each from the old value to `v`,
      and returns how many it changed. */
  lemma FillChangesRegionOnly(t: Topology, g: Board, p: Cell, v: int, c: Cell)
    requires Shaped(t, g) && Inside(t, p) && Inside(t, c) && At(t, g, p) != v
    ensures At(t, Filled(t, g, p, v), c) != At(t, g, c) <==> c in FillRegion(t, g, p)
    ensures c in FillRegion(t, g, p) ==> At(t, g, c) == At(t, g, p) && At(t, Filled(t, g, p, v), c) == v
    ensures FillCount(t, g, p, v) == |FillRegion(t, g, p)| >= 1
  {
    FillRegionIsComponent(t, g, p, {});
  }

  /** Filling twice in a row: the second fill finds `p` already holding `v`,
      returns 0 and changes nothing. */
  lemma FillIdempotent(t: Topology, g: Board, p: Cell, v: int)
    requires Shaped(t, g)
    ensures Filled(t, Filled(t, g, p, v), p, v) == Filled(t, g, p, v)
    ensures FillCount(t, Filled(t, g, p, v), p, v) == 0
  {
    if Inside(t, p) && At(t, g, p) != v {
      FillRegionIsComponent(t, g, p, {});
      assert At(t, Filled(t, g, p, v), p) == v;
    }
  }

  /** What `addFillNeighbors(queue, x, y, v)` appends: the steps from `c` by the
      fill direction table, in table order, that land on a cell holding `v`. */
  function FillNeighbors(t: Topology, g: Board, c: Cell, v: int): seq<Cell>
    requires Shaped(t, g) && Inside(t, c)
  {
    FillNeighborsUpTo(t, g, c, v, 4)
  }

  /** The cells contributed by the first `i` entries of the direction table. */
  function FillNeighborsUpTo(t: Topology, g: Board, c: Cell, v: int, i: nat): seq<Cell>
    requires Shaped(t, g) && Inside(t, c) && i <= 4
  {
    if i == 0 then []
    else
      var n := Step(t, c, FillDX[i - 1], FillDY[i - 1]);
      FillNeighborsUpTo(t, g, c, v, i - 1) + if n.Some? && At(t, g, n.value) == v then [n.value] else []
  }

  lemma {:induction false} FillNeighborsUpToExact(t: Topology, g: Board, c: Cell, v: int, i: nat, n: Cell)
    requires Shaped(t, g) && Inside(t, c) && i <= 4
    ensures n in FillNeighborsUpTo(t, g, c, v, i) <==>
      exists j :: 0 <= j < i && Step(t, c, FillDX[j], FillDY[j]) == Some(n) && At(t, g, n) == v
  {
    if i > 0 {
      FillNeighborsUpToExact(t, g, c, v, i - 1, n);
    }
  }

  /** The cells `addFillNeighbors` appends are exactly the neighbours holding `v`. */
  lemma FillNeighborsExact(t: Topology, g: Board, c: Cell, v: int, n: Cell)
    requires Shaped(t, g) && Inside(t, c)
    ensures n in FillNeighbors(t, g, c, v) <==> Adjacent(t, c, n) && At(t, g, n) == v
  {
    FillNeighborsUpToExact(t, g, c, v, 4, n);
    DirectionTablesCoverNeighbours(t, c, n);
  }

  /** When the fill's queue runs dry: the filled set holds the start, holds only
      cells reachable from it, and every neighbour with the old value of a filled
      cell is filled; so it is the fill region. */
  lemma FillSetIsRegion(t: Topology, g: Board, p: Cell, f: set<Cell>)
    requires Shaped(t, g) && Inside(t, p) && p in f
    requires forall c :: c in f ==> Inside(t, c) && Reachable(t, g, Through(At(t, g, p)), p, c)
    requires forall c, n :: c in f && Inside(t, c) && n in FillNeighbors(t, g, c, At(t, g, p)) ==> n in f
    ensures f == FillRegion(t, g, p)
  {
    var rule := Through(At(t, g, p));
    forall c, n | c in f && Adjacent(t, c, n) && Passable(t, g, rule, n) ensures n in f {
      FillNeighborsExact(t, g, c, At(t, g, p), n);
    }
    FillRegionIsComponent(t, g, p, f);
    forall c | c in f ensures c in FillRegion(t, g, p) { InAllCells(t, c); }
  }

  /** Every neighbour holding `v` of a filled cell is filled or still queued. */
  ghost predicate FillFrontier(t: Topology, g: Board, v: int, filled: set<Cell>, queue: seq<Cell>)
    requires Shaped(t, g)
  {
    forall c, n :: c in filled && Inside(t, c) && n in FillNeighbors(t, g, c, v) ==> n in filled || n in queue
  }

  /** `b` with cell `c` set to `v`. */
  function Paint(t: Topology, b: Board, c: Cell, v: int): (r: Board)
    requires Shaped(t, b) && Inside(t, c)
    ensures Shaped(t, r)
    ensures forall x, y :: 0 <= x < t.w && 0 <= y < t.h ==> r[x][y] == if x == c.x && y == c.y then v else b[x][y]
  {
    b[c.x := b[c.x][c.y := v]]
  }

  /** What holds between turns of `fill`'s loop, which started at `start` on board
      `g` and recolours to `nv`: `b` shows `nv` on the filled cells and `g`
      elsewhere; filled and queued cells are reachable from `start`, queued cells
      held the old value; the start is filled or queued; and every old-valued
      neighbour of a filled cell is filled or queued. */
  ghost predicate FillProgress(t: Topology, g: Board, start: Cell, nv: int, filled: set<Cell>, queue: seq<Cell>, b: Board)
    requires Shaped(t, g) && Shaped(t, b) && Inside(t, start)
  {
    var ov := At(t, g, start);
    && filled <= AllCells(t)
    && (forall c :: c in filled ==> Inside(t, c) && Reachable(t, g, Through(ov), start, c))
    && (forall c :: c in queue ==> Inside(t, c) && At(t, g, c) == ov && Reachable(t, g, Through(ov), start, c))
    && (forall x, y :: 0 <= x < t.w && 0 <= y < t.h ==> b[x][y] == if Cell(x, y) in filled then nv else g[x][y])
    && (start in filled || start in queue)
    && FillFrontier(t, g, ov, filled, queue)
  }

  lemma FillProgressStart(t: Topology, g: Board, start: Cell, nv: int)
    requires Shaped(t, g) && Inside(t, start)
    ensures FillProgress(t, g, start, nv, {}, [start], g)
  {
    ReachableSelf(t, g, Through(At(t, g, start)), start);
  }

  /** The cell at the head of the queue is inside. */
  lemma FillHead(t: Topology, g: Board, start: Cell, nv: int, filled: set<Cell>, queue: seq<Cell>, b: Board)
    requires Shaped(t, g) && Shaped(t, b) && Inside(t, start) && |queue| > 0
    requires FillProgress(t, g, start, nv, filled, queue, b)
    ensures Inside(t, queue[0])
  {
    assert queue[0] in queue;
  }

  /** One turn of `fill`'s loop keeps its invariant. The head of the queue is
      polled; if it still shows the old value it is painted (giving `b'`) and its
      neighbours that show the old value on `b'` are `added` to the queue, which
      also brings the filled set one cell closer to the whole grid. */
  lemma FillTurn(t: Topology, g: Board, start: Cell, nv: int, filled: set<Cell>, queue: seq<Cell>,
                 b: Board, b': Board, added: seq<Cell>)
    requires Shaped(t, g) && Shaped(t, b) && Shaped(t, b') && Inside(t, start) && |queue| > 0
    requires Inside(t, queue[0]) && At(t, g, start) != nv
    requires FillProgress(t, g, start, nv, filled, queue, b)
    requires At(t, b, queue[0]) != At(t, g, start) ==> b' == b && added == []
    requires At(t, b, queue[0]) == At(t, g, start) ==>
      b' == Paint(t, b, queue[0], nv) && added == FillNeighbors(t, b', queue[0], At(t, g, start))
    ensures At(t, b, queue[0]) != At(t, g, start) ==> FillProgress(t, g, start, nv, filled, queue[1..] + added, b')
    ensures At(t, b, queue[0]) == At(t, g, start) ==>
      FillProgress(t, g, start, nv, filled + {queue[0]}, queue[1..] + added, b') &&
      |AllCells(t) - (filled + {queue[0]})| < |AllCells(t) - filled|
  {
    var ov, c := At(t, g, start), queue[0];
    assert queue == [c] + queue[1..];
    if At(t, b, c) != ov {
      assert c in queue;
      FrontierAfterSkip(t, g, ov, filled, queue);
      assert queue[1..] + added == queue[1..];
    } else {
      var f := filled + {c};
      var q := queue[1..] + added;
      InAllCells(t, c);
      assert AllCells(t) - f == (AllCells(t) - filled) - {c};
      assert c in queue;
      FrontierAfterFill(t, g, b', ov, nv, filled, queue, added);
      forall n | n in added ensures Inside(t, n) && At(t, g, n) == ov && Reachable(t, g, Through(ov), start, n) {
        FillNeighborsExact(t, b', c, ov, n);
        ReachableStep(t, g, Through(ov), start, c, n);
      }
      forall n | n in q ensures Inside(t, n) && At(t, g, n) == ov && Reachable(t, g, Through(ov), start, n) {
        if n !in added { assert n in queue; }
      }
    }
  }

  /** Polling a cell that no longer holds the old value only shortens the queue. */
  lemma FillSkip(t: Topology, g: Board, start: Cell, nv: int, filled: set<Cell>, queue: seq<Cell>, b: Board)
    requires Shaped(t, g) && Shaped(t, b) && Inside(t, start) && |queue| > 0
    requires Inside(t, queue[0]) && At(t, g, start) != nv
    requires FillProgress(t, g, start, nv, filled, queue, b)
    requires At(t, b, queue[0]) != At(t, g, start)
    ensures FillProgress(t, g, start, nv, filled, queue[1..], b)
  {
    FillTurn(t, g, start, nv, filled, queue, b, b, []);
    assert queue[1..] + [] == queue[1..];
  }

  /** Polling a cell that is already filled keeps the frontier property. */
  lemma FrontierAfterSkip(t: Topology, g: Board, v: int, filled: set<Cell>, queue: seq<Cell>)
    requires Shaped(t, g) && |queue| > 0 && queue[0] in filled
    requires FillFrontier(t, g, v, filled, queue)
    ensures FillFrontier(t, g, v, filled, queue[1..])
  {
    forall c, n | c in filled && Inside(t, c) && n in FillNeighbors(t, g, c, v) ensures n in filled || n in queue[1..] {
      if n !in filled {
        assert queue == [queue[0]] + queue[1..];
      }
    }
  }

  /** Filling a polled cell and queueing its neighbours that hold `v` on the
      current board `b` (which shows `nv` on the filled cells and `g` elsewhere)
      keeps the frontier property. */
  lemma FrontierAfterFill(t: Topology, g: Board, b: Board, v: int, nv: int, filled: set<Cell>, queue: seq<Cell>, added: seq<Cell>)
    requires Shaped(t, g) && Shaped(t, b) && |queue| > 0 && Inside(t, queue[0]) && nv != v
    requires FillFrontier(t, g, v, filled, queue)
    requires forall x, y :: 0 <= x < t.w && 0 <= y < t.h ==>
      b[x][y] == if Cell(x, y) in filled + {queue[0]} then nv else g[x][y]
    requires added == FillNeighbors(t, b, queue[0], v)
    ensures FillFrontier(t, g, v, filled + {queue[0]}, queue[1..] + added)
  {
    var c0 := queue[0];
    var f := filled + {c0};
    var q := queue[1..] + added;
    forall c, n | c in f && Inside(t, c) && n in FillNeighbors(t, g, c, v) ensures n in f || n in q {
      if n !in f {
        if c == c0 {
          FillNeighborsExact(t, g, c0, v, n);
          FillNeighborsExact(t, b, c0, v, n);
          assert n in q;
        } else {
          assert queue == [c0] + queue[1..];
          assert n in queue[1..];
        }
      }
    }
  }

  /** When the queue is empty the filled cells are the fill region, the board is
      the filled board, and the count of filled cells is what `fill` returns. */
  lemma FillProgressDone(t: Topology, g: Board, start: Cell, nv: int, filled: set<Cell>, b: Board)
    requires Shaped(t, g) && Shaped(t, b) && Inside(t, start) && At(t, g, start) != nv
    requires FillProgress(t, g, start, nv, filled, [], b)
    ensures b == Filled(t, g, start, nv) && |filled| == FillCount(t, g, start, nv)
  {
    FillSetIsRegion(t, g, start, filled);
    FillChangesRegionOnly(t, g, start, nv, start);
    BoardsEqual(t, b, Filled(t, g, start, nv));
  }
}

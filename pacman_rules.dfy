/** The rules of `PacmanGameImpl` on values: the 22-by-21 board `initMap`
    builds, one turn of `move` (Pacman's step, the ghosts' steps, the
    collisions) as a function of the state before it, and what a turn keeps
    true of the state. The ghosts' random directions are an input. */
module PacmanRules {
  import opened JavaInt
  import opened Pixel
  import RasterSpec

  const Width: int := 22
  const Height: int := 21

  /** Cell values: `WALL`, `FOOD` and `EMPTY` of the game interface, and the
      power pellet, which the engine writes as the literal 5. */
  const WALL: int := 1
  const FOOD: int := 0
  const EMPTY: int := -1
  const POWER: int := 5

  /** The status codes the engine writes (`DONE` is 3 here). */
  const INIT: int32 := 0
  const PLAY: int32 := 1
  const DONE: int32 := 3

  /** Ghost status codes. */
  const DANGEROUS: int32 := 1
  const EDIBLE: int32 := 2

  /** Pacman's direction codes. */
  const UP: int := 1
  const LEFT: int := 2
  const DOWN: int := 3
  const RIGHT: int := 4

  /** `_gameMap` as a value, the same column-by-column grid as a raster's:
      column `x` holds the cells `(x, 0) .. (x, 20)`. */
  type Board = RasterSpec.Board

  predicate Shaped(b: Board)
  {
    |b| == Width && forall x :: 0 <= x < Width ==> |b[x]| == Height
  }

  predicate OnBoard(x: int, y: int)
  {
    0 <= x < Width && 0 <= y < Height
  }

  /** The engine's grid as a raster topology, for the raster lemmas about boards. */
  const Grid := RasterSpec.Topology(22, 21, false)

  /** `_gameMap[x][y] = v`. */
  function SetCell(b: Board, x: int, y: int, v: int): (r: Board)
    requires Shaped(b) && OnBoard(x, y)
    ensures Shaped(r)
    ensures forall i, j :: OnBoard(i, j) ==> r[i][j] == if i == x && j == y then v else b[i][j]
  {
    b[x := b[x][y := v]]
  }

  /** A `GhostCL`: position, status (1 dangerous, 2 edible), type and the
      time it stays edible. */
  datatype Ghost = Ghost(pos: Pixel2D, status: int32, kind: int32, eatableTime: int32)

  /** The part of the engine's state that a turn reads or writes. */
  datatype Game = Game(board: Board, pos: Pixel2D, dir: int32, score: int32, dots: int32, steps: int32,
                       kills: int32, status: int32, cyclic: bool, ghosts: seq<Ghost>)

  // ---------------------------------------------------------------------------
  // The initial board

  /** The board `initMap` leaves: FOOD, except WALL on the border and on the
      divider `x = 5..17, y = 10`, a power pellet near each corner, and an
      empty start cell `(11, 14)`. */
  function InitialCell(x: int, y: int): int
  {
    if x == 0 || x == Width - 1 || y == 0 || y == Height - 1 then WALL
    else if 5 <= x < 18 && y == 10 then WALL
    else if (x == 2 || x == 19) && (y == 2 || y == 18) then POWER
    else if x == 11 && y == 14 then EMPTY
    else FOOD
  }

  /** The cells `InitialCell` gives on a `w`-by-`h` grid; the initial board
      is `Layout(Width, Height)`. The sizes are parameters so that the board
      is not a closed constant that the verifier would evaluate cell by cell. */
  function Layout(w: nat, h: nat): (b: seq<seq<int>>)
    ensures |b| == w && forall x :: 0 <= x < w ==> |b[x]| == h
    ensures forall x, y :: 0 <= x < w && 0 <= y < h ==> b[x][y] == InitialCell(x, y)
  {
    seq(w, x => seq(h, y => InitialCell(x, y)))
  }

  /** The six ghosts `init` creates, all dangerous and not edible. */
  const InitialGhosts: seq<Ghost> := [
    Ghost(Index2D(10, 10), 1, 1, 0), Ghost(Index2D(10, 10), 1, 2, 0),
    Ghost(Index2D(11, 11), 1, 3, 0), Ghost(Index2D(11, 11), 1, 4, 0),
    Ghost(Index2D(12, 12), 1, 5, 0), Ghost(Index2D(12, 12), 1, 6, 0)]

  // ---------------------------------------------------------------------------
  // Counting food

  /** The FOOD cells of column `x` below row `hi`. */
  function FoodInColumn(b: Board, x: int, hi: int): (n: nat)
    requires Shaped(b) && 0 <= x < Width && 0 <= hi <= Height
    ensures n <= hi
  {
    if hi == 0 then 0 else FoodInColumn(b, x, hi - 1) + (if b[x][hi - 1] == FOOD then 1 else 0)
  }

  /** The FOOD cells of the columns left of `hi`. */
  function FoodInColumns(b: Board, hi: int): (n: nat)
    requires Shaped(b) && 0 <= hi <= Width
    ensures n <= hi * Height
  {
    if hi == 0 then 0 else FoodInColumns(b, hi - 1) + FoodInColumn(b, hi - 1, Height)
  }

  function FoodCount(b: Board): nat
    requires Shaped(b)
  {
    FoodInColumns(b, Width)
  }

  /** The FOOD cells of column `x` of the initial board below row `hi`,
      counted on `InitialCell`. */
  function InitialColumnFood(x: int, hi: nat): nat
  {
    if hi == 0 then 0 else InitialColumnFood(x, hi - 1) + (if InitialCell(x, hi - 1) == FOOD then 1 else 0)
  }

  lemma {:induction false} InitialColumn(x: int, hi: int)
    requires 0 <= x < Width && 0 <= hi <= Height
    ensures FoodInColumn(Layout(Width, Height), x, hi) == InitialColumnFood(x, hi)
    decreases hi
  {
    if hi > 0 {
      InitialColumn(x, hi - 1);
    }
  }

  /** Rows `lo .. hi - 1` of column `x` are all FOOD initially, or none is. */
  lemma {:induction false} InitialRun(x: int, lo: nat, hi: nat, food: bool)
    requires lo <= hi
    requires forall y :: lo <= y < hi ==> (InitialCell(x, y) == FOOD) == food
    ensures InitialColumnFood(x, hi) == InitialColumnFood(x, lo) + if food then hi - lo else 0
    decreases hi
  {
    if hi > lo {
      InitialRun(x, lo, hi - 1, food);
    }
  }

  /** The FOOD cells of a whole column of the initial board: none on the
      border, 17 in the columns of the power pellets and in the start column,
      18 in the other columns crossing the divider, 19 elsewhere. */
  function ColumnFood(x: int): nat
  {
    if x == 0 || x == Width - 1 then 0
    else if x == 2 || x == 19 || x == 11 then 17
    else if 5 <= x < 18 then 18
    else 19
  }

  lemma PelletColumn(x: int)
    requires x == 2 || x == 19
    ensures InitialColumnFood(x, Height) == 17
  {
    InitialRun(x, 0, 1, false);
    InitialRun(x, 1, 2, true);
    InitialRun(x, 2, 3, false);
    InitialRun(x, 3, 18, true);
    InitialRun(x, 18, 19, false);
    InitialRun(x, 19, 20, true);
    InitialRun(x, 20, 21, false);
  }

  lemma StartColumn()
    ensures InitialColumnFood(11, Height) == 17
  {
    InitialRun(11, 0, 1, false);
    InitialRun(11, 1, 10, true);
    InitialRun(11, 10, 11, false);
    InitialRun(11, 11, 14, true);
    InitialRun(11, 14, 15, false);
    InitialRun(11, 15, 20, true);
    InitialRun(11, 20, 21, false);
  }

  lemma DividerColumn(x: int)
    requires 5 <= x < 18 && x != 11
    ensures InitialColumnFood(x, Height) == 18
  {
    InitialRun(x, 0, 1, false);
    InitialRun(x, 1, 10, true);
    InitialRun(x, 10, 11, false);
    InitialRun(x, 11, 20, true);
    InitialRun(x, 20, 21, false);
  }

  lemma PlainColumn(x: int)
    requires 0 < x < Width - 1 && x != 2 && x != 19 && !(5 <= x < 18)
    ensures InitialColumnFood(x, Height) == 19
  {
    InitialRun(x, 0, 1, false);
    InitialRun(x, 1, 20, true);
    InitialRun(x, 20, 21, false);
  }

  lemma InitialColumnCount(x: int)
    requires 0 <= x < Width
    ensures InitialColumnFood(x, Height) == ColumnFood(x)
  {
    if x == 0 || x == Width - 1 {
      InitialRun(x, 0, 21, false);
    } else if x == 2 || x == 19 {
      PelletColumn(x);
    } else if x == 11 {
      StartColumn();
    } else if 5 <= x < 18 {
      DividerColumn(x);
    } else {
      PlainColumn(x);
    }
  }

  /** The FOOD cells of the initial board's columns left of `hi`, in closed
      form. */
  function ColumnsFood(hi: int): int
  {
    if hi <= 0 then 0
    else if hi <= 2 then 19 * (hi - 1)
    else if hi == 3 then 36
    else if hi <= 5 then 36 + 19 * (hi - 3)
    else if hi <= 11 then 74 + 18 * (hi - 5)
    else if hi <= 18 then 199 + 18 * (hi - 12)
    else if hi == 19 then 326
    else if hi == 20 then 343
    else 362
  }

  /** The FOOD cells of the initial board's columns left of `hi`, summed
      column by column. */
  function ColumnsFoodSum(hi: nat): nat
  {
    if hi == 0 then 0 else ColumnsFoodSum(hi - 1) + ColumnFood(hi - 1)
  }

  lemma {:induction false} ColumnsFoodClosed(hi: int)
    requires 0 <= hi <= Width
    ensures ColumnsFoodSum(hi) == ColumnsFood(hi)
    decreases hi
  {
    if hi > 0 {
      ColumnsFoodClosed(hi - 1);
      ColumnsFoodStep(hi);
    }
  }

  lemma {:induction false} InitialColumns(hi: int)
    requires 0 <= hi <= Width
    ensures FoodInColumns(Layout(Width, Height), hi) == ColumnsFoodSum(hi)
    decreases hi
  {
    if hi > 0 {
      InitialColumns(hi - 1);
      InitialColumn(hi - 1, Height);
      InitialColumnCount(hi - 1);
    }
  }

  lemma ColumnsFoodStep(hi: int)
    requires 0 < hi <= Width
    ensures ColumnsFood(hi) == ColumnsFood(hi - 1) + ColumnFood(hi - 1)
  {
  }

  /** The initial board holds 362 FOOD cells, the `dots` of a new game. */
  lemma InitialFood()
    ensures FoodCount(Layout(Width, Height)) == 362
  {
    InitialColumns(Width);
    ColumnsFoodClosed(Width);
  }

  /** Writing `v` into one cell changes the column's food count only by what
      that cell held and now holds. */
  lemma {:induction false} ColumnSetCell(b: Board, x: int, y: int, v: int, c: int, hi: int)
    requires Shaped(b) && OnBoard(x, y) && 0 <= c < Width && 0 <= hi <= Height
    ensures var b' := SetCell(b, x, y, v);
      FoodInColumn(b', c, hi) + (if c == x && y < hi && b[x][y] == FOOD then 1 else 0)
      == FoodInColumn(b, c, hi) + (if c == x && y < hi && v == FOOD then 1 else 0)
    decreases hi
  {
    if hi > 0 {
      ColumnSetCell(b, x, y, v, c, hi - 1);
    }
  }

  lemma {:induction false} ColumnsSetCell(b: Board, x: int, y: int, v: int, hi: int)
    requires Shaped(b) && OnBoard(x, y) && 0 <= hi <= Width
    ensures var b' := SetCell(b, x, y, v);
      FoodInColumns(b', hi) + (if x < hi && b[x][y] == FOOD then 1 else 0)
      == FoodInColumns(b, hi) + (if x < hi && v == FOOD then 1 else 0)
    decreases hi
  {
    if hi > 0 {
      ColumnsSetCell(b, x, y, v, hi - 1);
      ColumnSetCell(b, x, y, v, hi - 1, Height);
    }
  }

  /** Emptying a FOOD cell leaves one FOOD cell fewer. */
  lemma EatOne(b: Board, x: int, y: int)
    requires Shaped(b) && OnBoard(x, y) && b[x][y] == FOOD
    ensures FoodCount(SetCell(b, x, y, EMPTY)) + 1 == FoodCount(b)
  {
    ColumnsSetCell(b, x, y, EMPTY, Width);
  }

  /** Emptying a cell that holds no FOOD leaves the food count alone. */
  lemma EatNone(b: Board, x: int, y: int)
    requires Shaped(b) && OnBoard(x, y) && b[x][y] != FOOD
    ensures FoodCount(SetCell(b, x, y, EMPTY)) == FoodCount(b)
  {
    ColumnsSetCell(b, x, y, EMPTY, Width);
  }

  // ---------------------------------------------------------------------------
  // Steps

  /** A coordinate after a step, brought back onto an axis of length `n`: the
      floored modulus `((v % n) + n) % n` on a cyclic board, otherwise clamped
      with `max(0, min(v, n - 1))`. */
  function Bound(cyclic: bool, n: int, v: int): (r: int)
    requires n > 0
    ensures 0 <= r < n
    ensures 0 <= v < n ==> r == v
    ensures cyclic ==> r == v % n
    ensures !cyclic ==> (v < 0 ==> r == 0) && (v >= n ==> r == n - 1)
  {
    FloorModIsMod(v, n);
    if cyclic then FloorMod(v, n) else if v < 0 then 0 else if v > n - 1 then n - 1 else v
  }

  /** `isValidMove(x, y)`: on the board and not a wall. */
  predicate Open(b: Board, x: int, y: int)
    requires Shaped(b)
  {
    OnBoard(x, y) && b[x][y] != WALL
  }

  /** Pacman's step for a direction code: UP is `y + 1`, DOWN `y - 1`, LEFT
      `x - 1`, RIGHT `x + 1`; STAY and unknown codes do not move. */
  function PacmanDX(direction: int): int
  {
    if direction == LEFT then -1 else if direction == RIGHT then 1 else 0
  }

  function PacmanDY(direction: int): int
  {
    if direction == UP then 1 else if direction == DOWN then -1 else 0
  }

  /** The facing angle after a direction code; STAY and unknown codes keep it. */
  function Facing(direction: int, dir: int32): int32
  {
    if direction == UP then 90 else if direction == DOWN then 270
    else if direction == LEFT then 180 else if direction == RIGHT then 0
    else dir
  }

  /** A ghost's step for its random direction: 0 is `y + 1`, 1 `y - 1`, 2 `x - 1`,
      3 `x + 1`. */
  function GhostDX(d: int): int
  {
    if d == 2 then -1 else if d == 3 then 1 else 0
  }

  function GhostDY(d: int): int
  {
    if d == 0 then 1 else if d == 1 then -1 else 0
  }

  /** Every coordinate the engine handles lies on the board. */
  predicate WellFormed(g: Game)
  {
    && Shaped(g.board)
    && OnBoard(g.pos.x, g.pos.y)
    && forall k :: 0 <= k < |g.ghosts| ==> OnBoard(g.ghosts[k].pos.x, g.ghosts[k].pos.y)
  }

  /** The cell Pacman tries to enter. */
  function PacmanTarget(g: Game, direction: int): (r: (int, int))
    requires WellFormed(g)
    ensures OnBoard(r.0, r.1)
  {
    (Bound(g.cyclic, Width, g.pos.x + PacmanDX(direction)), Bound(g.cyclic, Height, g.pos.y + PacmanDY(direction)))
  }

  /** Every ghost edible for 10 time units. */
  function Frightened(gs: seq<Ghost>): (r: seq<Ghost>)
    ensures |r| == |gs|
    ensures forall k :: 0 <= k < |gs| ==> r[k] == gs[k].(status := EDIBLE, eatableTime := 10)
  {
    seq(|gs|, k requires 0 <= k < |gs| => gs[k].(status := EDIBLE, eatableTime := 10))
  }

  /** Pacman's part of `move`: face the direction, then enter the target cell
      unless it is a wall; FOOD there scores 10 and is eaten, and the last dot
      ends the game; a power pellet scores 100, is eaten and frightens every
      ghost. */
  function MovePacman(g: Game, direction: int): (r: Game)
    requires WellFormed(g)
    ensures WellFormed(r) && r.steps == g.steps && r.kills == g.kills && r.cyclic == g.cyclic
    ensures |r.ghosts| == |g.ghosts|
  {
    var (nx, ny) := PacmanTarget(g, direction);
    var g1 := g.(dir := Facing(direction, g.dir));
    if !Open(g.board, nx, ny) then g1 else Enter(g1, nx, ny)
  }

  /** Pacman enters the open cell `(x, y)` and eats what it holds. */
  function Enter(g: Game, x: int, y: int): (r: Game)
    requires WellFormed(g) && OnBoard(x, y)
    ensures WellFormed(r) && r.steps == g.steps && r.kills == g.kills && r.cyclic == g.cyclic && r.dir == g.dir
    ensures |r.ghosts| == |g.ghosts|
  {
    var cell := g.board[x][y];
    var g2 := g.(pos := PointInt2D(x, y));
    if cell == FOOD then
      var dots := Wrap32(g.dots - 1);
      g2.(score := Wrap32(g.score + 10), dots := dots, board := SetCell(g.board, x, y, EMPTY),
          status := if dots == 0 then DONE else g.status)
    else if cell == POWER then
      g2.(score := Wrap32(g.score + 100), board := SetCell(g.board, x, y, EMPTY), ghosts := Frightened(g.ghosts))
    else
      g2
  }

  /** `moveGhost`: one step in direction `d`, brought back onto the board, and
      taken only when the cell there is no wall. */
  function GhostMove(b: Board, cyclic: bool, gh: Ghost, d: int): (r: Ghost)
    requires Shaped(b) && OnBoard(gh.pos.x, gh.pos.y)
    ensures OnBoard(r.pos.x, r.pos.y) && r.status == gh.status && r.kind == gh.kind && r.eatableTime == gh.eatableTime
  {
    var nx := Bound(cyclic, Width, gh.pos.x + GhostDX(d));
    var ny := Bound(cyclic, Height, gh.pos.y + GhostDY(d));
    if Open(b, nx, ny) then gh.(pos := Index2D(nx, ny)) else gh
  }

  /** Every ghost moved, each in its own direction. */
  function MoveGhosts(b: Board, cyclic: bool, gs: seq<Ghost>, dirs: seq<int>): (r: seq<Ghost>)
    requires Shaped(b) && |dirs| == |gs| && forall k :: 0 <= k < |gs| ==> OnBoard(gs[k].pos.x, gs[k].pos.y)
    ensures |r| == |gs| && forall k :: 0 <= k < |gs| ==> r[k] == GhostMove(b, cyclic, gs[k], dirs[k])
  {
    seq(|gs|, k requires 0 <= k < |gs| => GhostMove(b, cyclic, gs[k], dirs[k]))
  }

  /** The ghost shares Pacman's cell. */
  predicate Meets(p: Pixel2D, gh: Ghost)
  {
    gh.pos.x == p.x && gh.pos.y == p.y
  }

  /** The collision check for ghost `k`: an edible ghost on Pacman's cell is
      eaten (one kill, 200 points, back to `(10, 10)` and dangerous); any other
      ghost there ends the game. */
  function CollideOne(g: Game, k: int): Game
    requires 0 <= k < |g.ghosts|
  {
    var gh := g.ghosts[k];
    if Meets(g.pos, gh) then
      if gh.status == EDIBLE then
        g.(kills := Wrap32(g.kills + 1), score := Wrap32(g.score + 200),
           ghosts := g.ghosts[k := gh.(pos := Index2D(10, 10), status := DANGEROUS)])
      else
        g.(status := DONE)
    else
      g
  }

  /** The collision loop after its first `k` ghosts. */
  function CollideUpTo(g: Game, k: int): (r: Game)
    requires 0 <= k <= |g.ghosts|
    ensures |r.ghosts| == |g.ghosts|
    ensures r.(kills := g.kills, score := g.score, status := g.status, ghosts := g.ghosts) == g
  {
    if k == 0 then g else CollideOne(CollideUpTo(g, k - 1), k - 1)
  }

  /** One turn of `move(direction)` with the ghosts' directions `dirs`: nothing
      happens unless the game is being played; otherwise Pacman moves, the
      step count goes up, every ghost moves, and the collisions are checked. */
  function Turn(g: Game, direction: int, dirs: seq<int>): (r: Game)
    requires WellFormed(g) && |dirs| == |g.ghosts|
  {
    if g.status != PLAY then
      g
    else
      var m := Moved(g, direction, dirs);
      CollideUpTo(m, |m.ghosts|)
  }

  /** The state of a turn before the collision loop: Pacman has moved, the
      step is counted and every ghost has moved. */
  function Moved(g: Game, direction: int, dirs: seq<int>): (r: Game)
    requires WellFormed(g) && |dirs| == |g.ghosts|
    ensures WellFormed(r) && |r.ghosts| == |g.ghosts|
  {
    var g1 := MovePacman(g, direction);
    g1.(steps := Wrap32(g1.steps + 1), ghosts := MoveGhosts(g1.board, g1.cyclic, g1.ghosts, dirs))
  }

  // ---------------------------------------------------------------------------
  // The other state changes

  /** The state `init` leaves, with the level and the random generator aside:
      the initial board, Pacman on the start cell `(11, 14)`, 362 dots, six
      dangerous ghosts and everything counted from zero. `init` does not reset
      the facing angle. */
  function NewGame(cyclic: bool, dir: int32): Game
  {
    var b := Layout(Width, Height);
    Game(b, PointInt2D(11, 14), dir, 0, FoodCount(b) as int32, 0, 0, INIT, cyclic, InitialGhosts)
  }

  /** `play`: any game not over is being played. */
  function Play(g: Game): Game
  {
    if g.status != DONE then g.(status := PLAY) else g
  }

  /** `end`: the game is over. */
  function End(g: Game): Game
  {
    g.(status := DONE)
  }

  // ---------------------------------------------------------------------------
  // What every state keeps

  /** The cell values the engine writes. */
  predicate Known(v: int)
  {
    v == WALL || v == FOOD || v == EMPTY || v == POWER
  }

  /** The invariant of a game: every coordinate on the board, the walls those
      of the initial board, every cell a known value, Pacman on an emptied
      cell, `dots` the number of FOOD cells left, a known status, and a game
      without food over. */
  ghost predicate Sound(g: Game)
  {
    && WellFormed(g)
    && g.board[g.pos.x][g.pos.y] == EMPTY
    && (forall x, y :: OnBoard(x, y) ==> Known(g.board[x][y]) && (g.board[x][y] == WALL <==> InitialCell(x, y) == WALL))
    && g.dots as int == FoodCount(g.board)
    && (g.status == INIT || g.status == PLAY || g.status == DONE)
    && (g.dots == 0 ==> g.status == DONE)
  }

  /** A new game is sound, whatever its topology and facing angle. */
  lemma NewGameSound(cyclic: bool, dir: int32)
    ensures Sound(NewGame(cyclic, dir))
  {
    var g := NewGame(cyclic, dir);
    assert Shaped(g.board);
    assert forall k :: 0 <= k < |g.ghosts| ==> OnBoard(g.ghosts[k].pos.x, g.ghosts[k].pos.y);
    InitialCellsKnown();
    assert g.board[g.pos.x][g.pos.y] == EMPTY;
    InitialFood();
    assert g.dots as int == FoodCount(g.board);
  }

  /** Every cell of the initial board holds a known value, and Pacman's start
      cell is empty. */
  lemma InitialCellsKnown()
    ensures forall x, y :: OnBoard(x, y) ==>
      Known(Layout(Width, Height)[x][y]) && (Layout(Width, Height)[x][y] == WALL <==> InitialCell(x, y) == WALL)
    ensures Layout(Width, Height)[11][14] == EMPTY
  {
    forall x, y | OnBoard(x, y) ensures Known(Layout(Width, Height)[x][y]) {
      assert Layout(Width, Height)[x][y] == InitialCell(x, y);
    }
  }

  lemma PlayKeepsSound(g: Game)
    requires Sound(g)
    ensures Sound(Play(g))
    ensures Play(g).status == (if g.status == DONE then DONE else PLAY)
  {
  }

  lemma EndKeepsSound(g: Game)
    requires Sound(g)
    ensures Sound(End(g)) && End(g).status == DONE
  {
  }

  /** The points a cell is worth when Pacman enters it. */
  function Points(v: int): int
  {
    if v == FOOD then 10 else if v == POWER then 100 else 0
  }

  /** Emptying an already empty cell changes nothing. */
  lemma SetEmptyCell(b: Board, x: int, y: int)
    requires Shaped(b) && OnBoard(x, y) && b[x][y] == EMPTY
    ensures SetCell(b, x, y, EMPTY) == b
  {
    var r := SetCell(b, x, y, EMPTY);
    forall i | 0 <= i < Width ensures r[i] == b[i] {
    }
  }

  /** Pacman's part of a turn on a sound game being played: it enters the
      target cell exactly when that is no wall, and then the cell is emptied,
      its points are scored (the score taken as not overflowing), a FOOD cell
      costs one dot and a power pellet frightens every ghost; a blocked step
      changes nothing but the facing angle; and the state stays sound. */
  lemma MovePacmanEffect(g: Game, direction: int)
    requires Sound(g) && g.status == PLAY
    ensures var (tx, ty) := PacmanTarget(g, direction);
      var r := MovePacman(g, direction);
      var cell := g.board[tx][ty];
      && Sound(r)
      && r.dir == Facing(direction, g.dir)
      && (Open(g.board, tx, ty) ==> r.pos.x == tx && r.pos.y == ty && r.board == SetCell(g.board, tx, ty, EMPTY))
      && (!Open(g.board, tx, ty) ==> r == g.(dir := r.dir))
      && r.dots as int == g.dots as int - (if Open(g.board, tx, ty) && cell == FOOD then 1 else 0)
      && (g.score as int + 100 <= MaxInt ==> r.score as int == g.score as int + if Open(g.board, tx, ty) then Points(cell) else 0)
      && r.ghosts == (if Open(g.board, tx, ty) && cell == POWER then Frightened(g.ghosts) else g.ghosts)
  {
    var (tx, ty) := PacmanTarget(g, direction);
    var r := MovePacman(g, direction);
    if Open(g.board, tx, ty) {
      var cell := g.board[tx][ty];
      var b' := SetCell(g.board, tx, ty, EMPTY);
      if cell == FOOD {
        EatOne(g.board, tx, ty);
        assert r.board == b' && r.dots as int == g.dots as int - 1;
      } else if cell == POWER {
        EatNone(g.board, tx, ty);
        assert r.board == b';
      } else {
        assert cell == EMPTY;
        SetEmptyCell(g.board, tx, ty);
        assert r.board == g.board;
      }
    }
  }

  /** `ghost` is eaten: it shares Pacman's cell while edible. */
  predicate Eats(p: Pixel2D, gh: Ghost)
  {
    Meets(p, gh) && gh.status == EDIBLE
  }

  /** An eaten ghost, back on `(10, 10)` and dangerous. */
  function Respawned(gh: Ghost): Ghost
  {
    gh.(pos := Index2D(10, 10), status := DANGEROUS)
  }

  /** How many of the first `k` ghosts Pacman eats. */
  function EatenCount(p: Pixel2D, gs: seq<Ghost>, k: int): (n: nat)
    requires 0 <= k <= |gs|
    ensures n <= k
  {
    if k == 0 then 0 else EatenCount(p, gs, k - 1) + if Eats(p, gs[k - 1]) then 1 else 0
  }

  /** One of the first `k` ghosts shares Pacman's cell without being edible. */
  predicate CaughtBy(p: Pixel2D, gs: seq<Ghost>, k: int)
    requires 0 <= k <= |gs|
  {
    exists j :: 0 <= j < k && Meets(p, gs[j]) && gs[j].status != EDIBLE
  }

  /** The collision loop after `k` ghosts: exactly the eaten ghosts among
      them are respawned, and the game is over if and only if it was or a
      dangerous ghost shares Pacman's cell. */
  lemma {:induction false} CollideOutcome(g: Game, k: int)
    requires 0 <= k <= |g.ghosts|
    ensures var r := CollideUpTo(g, k);
      && (forall j :: 0 <= j < |g.ghosts| ==>
            r.ghosts[j] == if j < k && Eats(g.pos, g.ghosts[j]) then Respawned(g.ghosts[j]) else g.ghosts[j])
      && r.status == if CaughtBy(g.pos, g.ghosts, k) then DONE else g.status
    decreases k
  {
    if k > 0 {
      CollideOutcome(g, k - 1);
      var h := CollideUpTo(g, k - 1);
      var gh := g.ghosts[k - 1];
      assert h.ghosts[k - 1] == gh && h.pos == g.pos;
      assert CaughtBy(g.pos, g.ghosts, k) <==> CaughtBy(g.pos, g.ghosts, k - 1) || (Meets(g.pos, gh) && gh.status != EDIBLE) by {
        if CaughtBy(g.pos, g.ghosts, k) {
          var j :| 0 <= j < k && Meets(g.pos, g.ghosts[j]) && g.ghosts[j].status != EDIBLE;
          if j < k - 1 {
            assert CaughtBy(g.pos, g.ghosts, k - 1);
          }
        }
        if CaughtBy(g.pos, g.ghosts, k - 1) {
          var j :| 0 <= j < k - 1 && Meets(g.pos, g.ghosts[j]) && g.ghosts[j].status != EDIBLE;
          assert 0 <= j < k;
        }
      }
    }
  }

  /** Each ghost eaten in the collision loop scores one kill and 200 points
      (the counters taken as not overflowing). */
  lemma {:induction false} CollideScore(g: Game, k: int)
    requires 0 <= k <= |g.ghosts|
    requires g.kills as int + k <= MaxInt && g.score as int + 200 * k <= MaxInt
    ensures var r := CollideUpTo(g, k);
      && r.kills as int == g.kills as int + EatenCount(g.pos, g.ghosts, k)
      && r.score as int == g.score as int + 200 * EatenCount(g.pos, g.ghosts, k)
    decreases k
  {
    if k > 0 {
      CollideScore(g, k - 1);
      CollideOutcome(g, k - 1);
      var h := CollideUpTo(g, k - 1);
      assert h.ghosts[k - 1] == g.ghosts[k - 1] && h.pos == g.pos;
    }
  }

  /** The collision loop leaves a sound game sound. */
  lemma {:induction false} CollideKeepsSound(g: Game, k: int)
    requires Sound(g) && 0 <= k <= |g.ghosts|
    ensures Sound(CollideUpTo(g, k))
    decreases k
  {
    if k > 0 {
      CollideKeepsSound(g, k - 1);
    }
  }

  /** Pacman's step on a sound game being played is the one that ends it
      exactly when it eats the last dot. */
  lemma MovePacmanEnds(g: Game, direction: int)
    requires Sound(g) && g.status == PLAY
    ensures var r := MovePacman(g, direction); r.status == DONE <==> r.dots == 0
  {
    MovePacmanEffect(g, direction);
  }

  /** The moves of a turn keep a sound game sound; beside Pacman's step they
      count the step and move the ghosts, nothing else. */
  lemma MovedSound(g: Game, direction: int, dirs: seq<int>)
    requires Sound(g) && g.status == PLAY && |dirs| == |g.ghosts|
    ensures var g1, m := MovePacman(g, direction), Moved(g, direction, dirs);
      && Sound(m)
      && m == g1.(steps := m.steps, ghosts := m.ghosts)
      && m.ghosts == MoveGhosts(g1.board, g1.cyclic, g1.ghosts, dirs)
  {
    MovePacmanEffect(g, direction);
  }

  /** A turn leaves a sound game sound. */
  lemma TurnKeepsSound(g: Game, direction: int, dirs: seq<int>)
    requires Sound(g) && |dirs| == |g.ghosts|
    ensures Sound(Turn(g, direction, dirs))
  {
    if g.status == PLAY {
      MovedSound(g, direction, dirs);
      CollideKeepsSound(Moved(g, direction, dirs), |g.ghosts|);
    }
  }

  /** A turn does nothing unless the game is being played, and otherwise
      counts one step (wrapping like a Java `int`). */
  lemma TurnSteps(g: Game, direction: int, dirs: seq<int>)
    requires WellFormed(g) && |dirs| == |g.ghosts|
    ensures g.status != PLAY ==> Turn(g, direction, dirs) == g
    ensures g.status == PLAY ==> Turn(g, direction, dirs).steps == Wrap32(g.steps as int + 1)
  {
  }

  /** A ghost keeps its place or steps onto a cell that is no wall. */
  lemma GhostAvoidsWalls(b: Board, cyclic: bool, gh: Ghost, d: int)
    requires Shaped(b) && OnBoard(gh.pos.x, gh.pos.y)
    ensures var r := GhostMove(b, cyclic, gh, d);
      r.pos == gh.pos || (Open(b, r.pos.x, r.pos.y) && r.pos == Index2D(
        Bound(cyclic, Width, gh.pos.x + GhostDX(d)), Bound(cyclic, Height, gh.pos.y + GhostDY(d))))
  {
  }

  /** A turn of a sound game being played ends it exactly when Pacman eats
      the last dot or, after the ghosts have moved, a dangerous ghost shares
      Pacman's cell. */
  lemma TurnEnds(g: Game, direction: int, dirs: seq<int>)
    requires Sound(g) && g.status == PLAY && |dirs| == |g.ghosts|
    ensures var m := Moved(g, direction, dirs);
      Turn(g, direction, dirs).status == DONE <==> m.dots == 0 || CaughtBy(m.pos, m.ghosts, |m.ghosts|)
  {
    MovePacmanEnds(g, direction);
    MovedSound(g, direction, dirs);
    CollideOutcome(Moved(g, direction, dirs), |g.ghosts|);
  }

  /** The score of a turn of a sound game being played: the points of the
      cell Pacman enters and 200 for each ghost it eats after they have moved
      (the counters taken as not overflowing). */
  lemma TurnScore(g: Game, direction: int, dirs: seq<int>)
    requires Sound(g) && g.status == PLAY && |dirs| == |g.ghosts|
    requires g.score as int + 100 + 200 * |g.ghosts| <= MaxInt && g.kills as int + |g.ghosts| <= MaxInt
    ensures var (tx, ty) := PacmanTarget(g, direction);
      var m := Moved(g, direction, dirs);
      var r := Turn(g, direction, dirs);
      && r.kills as int == g.kills as int + EatenCount(m.pos, m.ghosts, |m.ghosts|)
      && r.score as int == g.score as int + (if Open(g.board, tx, ty) then Points(g.board[tx][ty]) else 0)
                           + 200 * EatenCount(m.pos, m.ghosts, |m.ghosts|)
  {
    MovePacmanEffect(g, direction);
    MovedSound(g, direction, dirs);
    CollideScore(Moved(g, direction, dirs), |g.ghosts|);
  }
}

/** `PacmanGameImpl`: the game engine as an object whose methods update its
    fields in place, each proved against the rules of `PacmanRules`. The
    ghosts' random directions and the clock that `log` reads are inputs. */
module PacmanGame {
  import opened Wrappers
  import opened JavaInt
  import opened Pixel
  import opened PacmanRules
  import RasterSpec

  /** Cells `(x, 0) .. (x, n - 1)` of a map. */
  ghost function Column(a: array2<int>, x: int, n: int): (c: seq<int>)
    reads a
    requires 0 <= x < a.Length0 && 0 <= n <= a.Length1
    ensures |c| == n && forall y :: 0 <= y < n ==> c[y] == a[x, y]
  {
    if n == 0 then [] else Column(a, x, n - 1) + [a[x, n - 1]]
  }

  /** Columns `0 .. m - 1` of a map. */
  ghost function Columns(a: array2<int>, m: int): (b: Board)
    reads a
    requires 0 <= m <= a.Length0
    ensures |b| == m && forall x :: 0 <= x < m ==> b[x] == Column(a, x, a.Length1)
  {
    if m == 0 then [] else Columns(a, m - 1) + [Column(a, m - 1, a.Length1)]
  }

  /** The cells of a map as a value: column `x` holds `(x, 0) .. (x, h - 1)`. */
  ghost function Contents(a: array2<int>): (b: Board)
    reads a
    ensures |b| == a.Length0 && forall x :: 0 <= x < |b| ==> |b[x]| == a.Length1
    ensures forall x, y :: 0 <= x < a.Length0 && 0 <= y < a.Length1 ==> b[x][y] == a[x, y]
  {
    Columns(a, a.Length0)
  }

  class PacmanGameImpl {
    var level: int32
    /** `_userID`: `None` until `init` stores one. */
    var userID: Option<string>
    var score: int32
    var dots: int32
    var kills: int32
    var status: int32
    var steps: int32
    /** `_pos`: `None` for the `null` of a game never initialised. */
    var pos: Option<Pixel2D>
    var dir: int32
    /** `_gameMap`: column `x` holds the cells `(x, 0) .. (x, h - 1)`; the
        map of a game never initialised is the 0-by-0 array. */
    var gameMap: array2<int>
    /** `_ghosts`, each ghost a value that the methods replace. */
    var ghosts: seq<Ghost>
    var cyclic: bool

    /** The fields a turn reads and writes, as a `Game`. */
    ghost function State(): Game
      reads this, gameMap
      requires pos.Some?
    {
      Game(Contents(gameMap), pos.value, dir, score, dots, steps, kills, status, cyclic, ghosts)
    }

    /** `pos` is set, the map has the engine's size, and the state satisfies
        the game invariant. */
    ghost predicate Valid()
      reads this, gameMap
    {
      pos.Some? && gameMap.Length0 == Width && gameMap.Length1 == Height && Sound(State())
    }

    /** `new PacmanGameImpl()`: nothing counted, no ghosts, a cyclic board,
        status INIT, and neither a position nor a map yet. */
    constructor ()
      ensures score == 0 && kills == 0 && dots == 0 && ghosts == [] && cyclic && status == INIT && steps == 0 && dir == 0
      ensures level == 0 && userID.None? && pos.None? && gameMap.Length0 == 0 && gameMap.Length1 == 0
    {
      score := 0;
      kills := 0;
      ghosts := [];
      cyclic := true;
      status := INIT;
      steps := 0;
      dir := 0;
      level := 0;
      userID := None;
      pos := None;
      dots := 0;
      gameMap := new int[0, 0];
    }

    /** `getWidth()`: the number of columns. */
    function GetWidth(): int
      reads this
    {
      gameMap.Length0
    }

    /** `getHeight()`: the length of column 0 (Java throws for a map without
        columns). */
    function GetHeight(): int
      reads this
      requires gameMap.Length0 > 0
    {
      gameMap.Length1
    }

    function GetStatus(): int32
      reads this
    {
      status
    }

    function IsCyclic(): bool
      reads this
    {
      cyclic
    }

    /** `getPos(code)`: the text `"x,y"` of Pacman's cell. */
    function GetPos(): string
      reads this
      requires pos.Some?
    {
      ToString(pos.value)
    }

    /** `isValidMove(x, y)`: on a map of the engine's size, exactly the cells
        a step may enter, those on the board holding no wall. */
    function IsValidMove(x: int, y: int): (r: bool)
      reads this, gameMap
      ensures r ==> 0 <= x < gameMap.Length0 && 0 <= y < gameMap.Length1
      ensures gameMap.Length0 == Width && gameMap.Length1 == Height ==> (r <==> Open(Contents(gameMap), x, y))
    {
      if x < 0 || x >= GetWidth() || y < 0 || y >= GetHeight() then false else gameMap[x, y] != WALL
    }

    /** `log()` at clock reading `now`: the record
        `userID,level,score,dots,steps,now,kills,now % 3331` of a finished game
        (`null` for a user never set), and the empty string for any other. */
    function Log(now: int): (r: string)
      reads this
      ensures r == "" <==> status != DONE
    {
      if status == DONE then
        (if userID.Some? then userID.value else "null") + "," + DecimalString(level) + "," +
        DecimalString(score) + "," + DecimalString(dots) + "," + DecimalString(steps) + "," +
        DecimalString(now) + "," + DecimalString(kills) + "," + DecimalString(JavaRem(now, 3331))
      else
        ""
    }

    /** `init(level, myId, cyclic, ...)` at clock reading `now`: a level
        outside 0..4 becomes 2, and the game is the new game of `PacmanRules`
        (the facing angle kept), on a freshly built map whose FOOD cells are
        counted into `dots`. It returns `log()`, empty for a game at INIT. */
    method Init(lvl: int32, myId: Option<string>, cyc: bool, now: int) returns (r: string)
      modifies this
      ensures Valid() && State() == NewGame(cyc, old(dir))
      ensures level == (if lvl < 0 || lvl > 4 then 2 else lvl) && userID == myId
      ensures fresh(gameMap) && GetWidth() == Width && GetHeight() == Height && dots == 362 && r == ""
    {
      Reset(lvl, myId, cyc);
      LoadMap();
      ghosts := InitialGhosts;
      assert State() == NewGame(cyc, dir);
      NewGameSound(cyc, dir);
      InitialFood();
      r := Log(now);
    }

    /** The scalar fields `init` sets before it builds the map. */
    method Reset(lvl: int32, myId: Option<string>, cyc: bool)
      modifies this`level, this`userID, this`pos, this`steps, this`cyclic, this`status, this`score, this`kills
      ensures level == (if lvl < 0 || lvl > 4 then 2 else lvl) && userID == myId
      ensures pos == Some(PointInt2D(11, 14)) && steps == 0 && cyclic == cyc
      ensures status == INIT && score == 0 && kills == 0
    {
      if lvl < 0 || lvl > 4 {
        level := 2;
      } else {
        level := lvl;
      }
      userID := myId;
      pos := Some(PointInt2D(11, 14));
      steps := 0;
      cyclic := cyc;
      status := INIT;
      score := 0;
      kills := 0;
    }

    /** `initMap()` followed by the count of its FOOD cells into `dots`. */
    method LoadMap()
      modifies this`gameMap, this`dots
      ensures fresh(gameMap) && gameMap.Length0 == Width && gameMap.Length1 == Height
      ensures Contents(gameMap) == Layout(Width, Height) && dots as int == FoodCount(Contents(gameMap))
    {
      gameMap := InitMap();
      dots := CountFood(gameMap);
    }

    /** `initMap()`: a 22-by-21 map filled with FOOD, then the border walls,
        the divider, the four power pellets and the empty start cell; that is,
        the initial board. */
    static method InitMap() returns (a: array2<int>)
      ensures fresh(a) && a.Length0 == Width && a.Length1 == Height
      ensures Contents(a) == Layout(Width, Height)
    {
      a := new int[22, 21];
      FillFood(a);
      DrawBorder(a);
      DrawDivider(a);
      a[2, 2] := 5;
      a[2, 18] := 5;
      a[19, 2] := 5;
      a[19, 18] := 5;
      a[11, 14] := EMPTY;
      RasterSpec.BoardsEqual(Grid, Contents(a), Layout(Width, Height));
    }

    /** The first loop of `initMap`: every cell FOOD. */
    static method FillFood(a: array2<int>)
      requires a.Length0 == Width && a.Length1 == Height
      modifies a
      ensures forall x, y :: OnBoard(x, y) ==> a[x, y] == FOOD
    {
      for i := 0 to 22
        invariant forall x, y :: 0 <= x < i && 0 <= y < Height ==> a[x, y] == FOOD
      {
        for j := 0 to 21
          invariant forall x, y :: 0 <= x < i && 0 <= y < Height ==> a[x, y] == FOOD
          invariant forall y :: 0 <= y < j ==> a[i, y] == FOOD
        {
          a[i, j] := FOOD;
        }
      }
    }

    /** The border loops of `initMap`: the top and bottom rows, then the
        left and right columns, become WALL. */
    static method DrawBorder(a: array2<int>)
      requires a.Length0 == Width && a.Length1 == Height
      requires forall x, y :: OnBoard(x, y) ==> a[x, y] == FOOD
      modifies a
      ensures forall x, y :: OnBoard(x, y) ==> a[x, y] == if x == 0 || x == 21 || y == 0 || y == 20 then WALL else FOOD
    {
      for i := 0 to 22
        invariant forall x, y :: OnBoard(x, y) ==> a[x, y] == if x < i && (y == 0 || y == 20) then WALL else FOOD
      {
        a[i, 0] := WALL;
        a[i, 20] := WALL;
      }
      for j := 0 to 21
        invariant forall x, y :: OnBoard(x, y) ==>
          a[x, y] == if y == 0 || y == 20 || ((x == 0 || x == 21) && y < j) then WALL else FOOD
      {
        a[0, j] := WALL;
        a[21, j] := WALL;
      }
    }

    /** The divider loop of `initMap`: row 10 is WALL from column 5 to 17. */
    static method DrawDivider(a: array2<int>)
      requires a.Length0 == Width && a.Length1 == Height
      requires forall x, y :: OnBoard(x, y) ==> a[x, y] == if x == 0 || x == 21 || y == 0 || y == 20 then WALL else FOOD
      modifies a
      ensures forall x, y :: OnBoard(x, y) ==>
        a[x, y] == if x == 0 || x == 21 || y == 0 || y == 20 || (5 <= x < 18 && y == 10) then WALL else FOOD
    {
      for i := 5 to 18
        invariant forall x, y :: OnBoard(x, y) ==>
          a[x, y] == if x == 0 || x == 21 || y == 0 || y == 20 || (5 <= x < i && y == 10) then WALL else FOOD
      {
        a[i, 10] := WALL;
      }
    }

    /** The loop of `init` counting FOOD cells column by column. */
    static method CountFood(a: array2<int>) returns (count: int32)
      requires a.Length0 == Width && a.Length1 == Height
      ensures count as int == FoodCount(Contents(a))
    {
      ghost var b := Contents(a);
      count := 0;
      for i := 0 to a.Length0
        invariant count as int == FoodInColumns(b, i)
      {
        for j := 0 to a.Length1
          invariant count as int == FoodInColumns(b, i) + FoodInColumn(b, i, j)
        {
          if a[i, j] == FOOD {
            count := count + 1;
          }
        }
      }
    }

    /** `play()`: any game not over is being played; a valid game stays so. */
    method Play()
      modifies this`status
      ensures status == if old(status) != DONE then PLAY else old(status)
      ensures old(Valid()) ==> Valid() && State() == PacmanRules.Play(old(State()))
    {
      if status != DONE {
        status := PLAY;
      }
      if old(Valid()) {
        assert State() == PacmanRules.Play(old(State()));
        PlayKeepsSound(old(State()));
      }
    }

    /** `end(code)` at clock reading `now`: the game is over, and its record
        is returned. */
    method End(now: int) returns (r: string)
      modifies this`status
      ensures status == DONE && r == Log(now)
      ensures old(Valid()) ==> Valid() && State() == PacmanRules.End(old(State()))
    {
      status := DONE;
      if old(Valid()) {
        assert State() == PacmanRules.End(old(State()));
        EndKeepsSound(old(State()));
      }
      r := Log(now);
    }

    /** `move(direction)` with the ghosts' random directions `ghostDirs`, one
        per ghost: the turn of `PacmanRules`, after which the game is still
        valid; it returns Pacman's position as text. */
    method Move(direction: int, ghostDirs: seq<int>) returns (r: string)
      requires Valid() && |ghostDirs| == |ghosts|
      modifies this`pos, this`dir, this`score, this`dots, this`status, this`steps, this`kills, this`ghosts, gameMap
      ensures Valid() && State() == Turn(old(State()), direction, ghostDirs)
      ensures r == GetPos()
    {
      if status != PLAY {
        return GetPos();
      }
      ghost var g0 := State();
      Advance(direction, ghostDirs);
      TurnKeepsSound(g0, direction, ghostDirs);
      r := GetPos();
    }

    /** The turn of a game being played: Pacman's step, the step count, the
        ghosts' steps and the collision loop. */
    method Advance(direction: int, ghostDirs: seq<int>)
      requires pos.Some? && gameMap.Length0 == Width && gameMap.Length1 == Height && WellFormed(State())
      requires status == PLAY && |ghostDirs| == |ghosts|
      modifies this`pos, this`dir, this`score, this`dots, this`status, this`steps, this`kills, this`ghosts, gameMap
      ensures pos.Some? && State() == Turn(old(State()), direction, ghostDirs)
    {
      ghost var g0 := State();
      StepPacman(direction);
      steps := Wrap32(steps as int + 1);
      MoveAllGhosts(ghostDirs);
      assert State() == Moved(g0, direction, ghostDirs);
      CollideAll();
    }

    /** Pacman's part of `move`: face the direction, compute the target cell
        with wrap-around or clamping, and enter it unless it is a wall. */
    method StepPacman(direction: int)
      requires pos.Some? && gameMap.Length0 == Width && gameMap.Length1 == Height && WellFormed(State())
      modifies this`pos, this`dir, this`score, this`dots, this`status, this`ghosts, gameMap
      ensures pos.Some? && State() == MovePacman(old(State()), direction)
    {
      ghost var g := State();
      var newX, newY := Face(direction);
      assert State() == g.(dir := Facing(direction, g.dir));
      newX, newY := Bound(cyclic, GetWidth(), newX), Bound(cyclic, GetHeight(), newY);
      assert (newX, newY) == PacmanTarget(g, direction);
      if IsValidMove(newX, newY) {
        EnterCell(newX, newY);
      }
    }

    /** The direction switch of `move`: the new facing angle, and the cell one
        step from Pacman's before it is brought back onto the board. */
    method Face(direction: int) returns (newX: int, newY: int)
      requires pos.Some?
      modifies this`dir
      ensures dir == Facing(direction, old(dir))
      ensures newX == pos.value.x as int + PacmanDX(direction) && newY == pos.value.y as int + PacmanDY(direction)
    {
      newX, newY := pos.value.x as int, pos.value.y as int;
      if direction == UP {
        newY := newY + 1;
        dir := 90;
      } else if direction == DOWN {
        newY := newY - 1;
        dir := 270;
      } else if direction == LEFT {
        newX := newX - 1;
        dir := 180;
      } else if direction == RIGHT {
        newX := newX + 1;
        dir := 0;
      }
    }

    /** Pacman moves onto the open cell `(x, y)` and eats what it holds: FOOD
        scores 10 and costs a dot, the last dot ending the game; a power
        pellet scores 100 and frightens the ghosts. */
    method EnterCell(x: int, y: int)
      requires pos.Some? && gameMap.Length0 == Width && gameMap.Length1 == Height && WellFormed(State())
      requires OnBoard(x, y)
      modifies this`pos, this`score, this`dots, this`status, this`ghosts, gameMap
      ensures pos.Some? && State() == Enter(old(State()), x, y)
    {
      ghost var g := State();
      var cellValue := gameMap[x, y];
      pos := Some(PointInt2D(x as int32, y as int32));
      if cellValue == FOOD {
        EatFood(g, x, y);
      } else if cellValue == 5 {
        EatPellet(g, x, y);
      }
    }

    /** `EnterCell` on a FOOD cell, once `pos` is `(x, y)`. */
    method EatFood(ghost g: Game, x: int, y: int)
      requires pos.Some? && gameMap.Length0 == Width && gameMap.Length1 == Height && WellFormed(g)
      requires OnBoard(x, y) && g.board[x][y] == FOOD && State() == g.(pos := PointInt2D(x, y))
      modifies this`score, this`dots, this`status, gameMap
      ensures pos.Some? && State() == Enter(g, x, y)
    {
      score := Wrap32(score as int + 10);
      dots := Wrap32(dots as int - 1);
      gameMap[x, y] := EMPTY;
      if dots == 0 {
        status := DONE;
      }
      RasterSpec.BoardsEqual(Grid, Contents(gameMap), SetCell(g.board, x, y, EMPTY));
    }

    /** `EnterCell` on a power pellet, once `pos` is `(x, y)`. */
    method EatPellet(ghost g: Game, x: int, y: int)
      requires pos.Some? && gameMap.Length0 == Width && gameMap.Length1 == Height && WellFormed(g)
      requires OnBoard(x, y) && g.board[x][y] == POWER && State() == g.(pos := PointInt2D(x, y))
      modifies this`score, this`ghosts, gameMap
      ensures pos.Some? && State() == Enter(g, x, y)
    {
      score := Wrap32(score as int + 100);
      gameMap[x, y] := EMPTY;
      Frighten();
      RasterSpec.BoardsEqual(Grid, Contents(gameMap), SetCell(g.board, x, y, EMPTY));
    }

    /** The loop making every ghost edible for 10 time units. */
    method Frighten()
      modifies this`ghosts
      ensures ghosts == Frightened(old(ghosts))
    {
      ghost var gs := ghosts;
      for k := 0 to |ghosts|
        invariant |ghosts| == |gs|
        invariant forall j :: 0 <= j < |gs| ==> ghosts[j] == if j < k then Frightened(gs)[j] else gs[j]
      {
        ghosts := ghosts[k := ghosts[k].(status := EDIBLE, eatableTime := 10)];
      }
    }

    /** `moveGhost(ghost)` with its random direction `d` as input. */
    method MoveGhost(gh: Ghost, d: int) returns (r: Ghost)
      requires gameMap.Length0 == Width && gameMap.Length1 == Height && OnBoard(gh.pos.x, gh.pos.y)
      ensures r == GhostMove(Contents(gameMap), cyclic, gh, d)
    {
      var newX, newY := gh.pos.x as int, gh.pos.y as int;
      if d == 0 {
        newY := newY + 1;
      } else if d == 1 {
        newY := newY - 1;
      } else if d == 2 {
        newX := newX - 1;
      } else if d == 3 {
        newX := newX + 1;
      }
      assert newX == gh.pos.x + GhostDX(d) && newY == gh.pos.y + GhostDY(d);
      newX, newY := Bound(cyclic, GetWidth(), newX), Bound(cyclic, GetHeight(), newY);
      r := gh;
      if IsValidMove(newX, newY) {
        r := gh.(pos := Index2D(newX as int32, newY as int32));
      }
    }

    /** The loop of `move` moving every ghost. */
    method MoveAllGhosts(dirs: seq<int>)
      requires gameMap.Length0 == Width && gameMap.Length1 == Height && |dirs| == |ghosts|
      requires forall k :: 0 <= k < |ghosts| ==> OnBoard(ghosts[k].pos.x, ghosts[k].pos.y)
      modifies this`ghosts
      ensures ghosts == MoveGhosts(Contents(gameMap), cyclic, old(ghosts), dirs)
    {
      ghost var gs := ghosts;
      for k := 0 to |ghosts|
        invariant |ghosts| == |gs|
        invariant forall j :: 0 <= j < |gs| ==> ghosts[j] == if j < k then GhostMove(Contents(gameMap), cyclic, gs[j], dirs[j]) else gs[j]
      {
        var moved := MoveGhost(ghosts[k], dirs[k]);
        ghosts := ghosts[k := moved];
      }
    }

    /** The collision loop of `move`. */
    method CollideAll()
      requires pos.Some?
      modifies this`ghosts, this`kills, this`score, this`status
      ensures State() == CollideUpTo(old(State()), |old(ghosts)|)
    {
      ghost var g := State();
      for k := 0 to |ghosts|
        invariant State() == CollideUpTo(g, k)
      {
        CollideWith(k);
      }
    }

    /** One turn of the collision loop: ghost `k` on Pacman's cell is eaten
        when edible and ends the game otherwise. */
    method CollideWith(k: int)
      requires pos.Some? && 0 <= k < |ghosts|
      modifies this`ghosts, this`kills, this`score, this`status
      ensures State() == CollideOne(old(State()), k)
    {
      ghost var g := State();
      var gh := ghosts[k];
      if gh.pos.x == pos.value.x && gh.pos.y == pos.value.y {
        if gh.status == EDIBLE {
          var k', s' := Wrap32(kills as int + 1), Wrap32(score as int + 200);
          kills, score := k', s';
          ghosts := ghosts[k := gh.(pos := Index2D(10, 10), status := DANGEROUS)];
          assert State() == g.(kills := k', score := s', ghosts := ghosts);
        } else {
          status := DONE;
          assert State() == g.(status := DONE);
        }
      } else {
        assert State() == g;
      }
    }
  }
}

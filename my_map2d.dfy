/** `MyMap2D`: a mutable raster of `int` cells with a wrap-around flag, and the
    three breadth-first algorithms over it (flood fill, shortest path, all
    distances). Each algorithm is proved against the value-level definitions
    of module `RasterSpec`. */
module Raster {
  import opened Wrappers
  import opened JavaInt
  import opened Pixel
  import opened RasterSpec
  import opened DistanceSpec
  import opened PathSpec

  /** Why an operation threw a `RuntimeException`. */
  datatype MapError =
    | NonPositiveSize   // init(w, h, v) with w <= 0 or h <= 0
    | NullOrEmptyArray  // init(arr) with arr null or of length 0
    | NullFirstRow      // init(arr) reading arr[0].length on a null row
    | NotRectangular    // init(arr) with a null row or rows of different lengths
    | OutOfBounds       // getPixel / setPixel outside the grid
    | NullPixel         // getPixel / setPixel handed a null pixel

  /** Every row of `arr` is non-null and as long as the first. */
  predicate Rectangular(arr: array<array?<int>>)
    requires arr.Length > 0 && arr[0] != null
    reads arr
  {
    forall i :: 0 <= i < arr.Length ==> arr[i] != null && arr[i].Length == arr[0].Length
  }

  /** The cells of `m` are the board `g` of shape `t`. */
  ghost predicate Shows(m: array2<int>, t: Topology, g: Board)
    reads m
  {
    m.Length0 == t.w && m.Length1 == t.h && Shaped(t, g) &&
    forall x, y :: 0 <= x < t.w && 0 <= y < t.h ==> m[x, y] == g[x][y]
  }

  /** The cells of `a` are the parents table `p` of shape `t`. */
  ghost predicate ShowsParents(a: array2<Option<Cell>>, t: Topology, p: Parents)
    reads a
  {
    a.Length0 == t.w && a.Length1 == t.h && ParentsShaped(t, p) &&
    forall x, y :: 0 <= x < t.w && 0 <= y < t.h ==> a[x, y] == p[x][y]
  }

  /** The cell a pixel names. */
  function CellOf(p: Pixel2D): Cell
  {
    Cell(p.x, p.y)
  }

  function CellsOf(s: seq<Pixel2D>): (r: seq<Cell>)
    ensures |r| == |s| && forall k :: 0 <= k < |s| ==> r[k] == CellOf(s[k])
  {
    seq(|s|, k requires 0 <= k < |s| => CellOf(s[k]))
  }

  lemma CellsOfCons(p: Pixel2D, s: seq<Pixel2D>)
    ensures CellsOf([p] + s) == [CellOf(p)] + CellsOf(s)
  {
  }

  /** `path` is an answer of `shortestPath(p1, p2, obs)` on board `g`: its cells
      form a walk from `p1` to `p2` whose every cell after the first holds no
      `obs`, it begins with `p1` itself, a longer one ends with `p2` itself, and
      every pixel in between is an `Index2D`. */
  predicate PixelPath(t: Topology, g: Board, obs: int, path: seq<Pixel2D>, p1: Pixel2D, p2: Pixel2D)
    requires Shaped(t, g)
  {
    && |path| >= 1 && path[0] == p1
    && (|path| > 1 ==> path[|path| - 1] == p2)
    && (forall k :: 0 < k < |path| - 1 ==> path[k].Index2D?)
    && WalkBetween(t, g, Avoiding(obs), CellsOf(path), CellOf(p1), CellOf(p2))
  }

  class MyMap2D {
    /** `_map`: column `x` holds the cells `(x, 0) .. (x, h - 1)`. A map that was
        never initialised (`_map == null`) is the 0-by-0 array. */
    var cells: array2<int>
    /** `_cyclic`: whether neighbours wrap around the edges. */
    var cyclic: bool

    /** Java array lengths are `int`s, and only a map never initialised has no columns. */
    ghost predicate Valid()
      reads this
    {
      cells.Length0 <= MaxInt && cells.Length1 <= MaxInt && (cells.Length0 == 0 ==> cells.Length1 == 0)
    }

    /** `new MyMap2D()`: no cells, not cyclic. */
    constructor Empty()
      ensures Valid() && Width() == 0 && Height() == 0 && !cyclic
    {
      cells := new int[0, 0];
      cyclic := false;
    }

    /** `getWidth()`: 0 for the uninitialised cells, otherwise the number of columns. */
    function Width(): nat
      reads this
    {
      cells.Length0
    }

    /** `getHeight()`: 0 for the uninitialised cells, otherwise the column length. */
    function Height(): nat
      reads this
    {
      cells.Length1
    }

    function Topo(): Topology
      reads this
    {
      Topology(cells.Length0, cells.Length1, cyclic)
    }

    /** The cells as a value. */
    ghost function Board(): (g: Board)
      reads this, cells
      ensures Shaped(Topo(), g)
      ensures forall x, y :: 0 <= x < Width() && 0 <= y < Height() ==> g[x][y] == cells[x, y]
    {
      var m := cells;
      seq(m.Length0, x requires 0 <= x < m.Length0 reads m =>
        seq(m.Length1, y requires 0 <= y < m.Length1 reads m => m[x, y]))
    }

    /** `isValidCoordinate(x, y)`. */
    predicate IsValidCoordinate(x: int, y: int)
      reads this
      ensures IsValidCoordinate(x, y) <==> Inside(Topo(), Cell(x, y))
    {
      x >= 0 && x < Width() && y >= 0 && y < Height()
    }

    /** The neighbour computation of `fill` and `allDistance` on a map of shape
        `t`: the floored modulus of each coordinate on a cyclic map, then
        `isValidCoordinate`; it is the shared one-step rule `Step`. */
    static function FillStep(t: Topology, x: int, y: int, dx: int, dy: int): (r: Option<Cell>)
      requires Inside(t, Cell(x, y)) && -1 <= dx <= 1 && -1 <= dy <= 1
      ensures r == Step(t, Cell(x, y), dx, dy)
    {
      var nx, ny := x + dx, y + dy;
      WrapIsFloorMod(t.w, nx);
      WrapIsFloorMod(t.h, ny);
      var wx, wy := if t.cyclic then FloorMod(nx, t.w) else nx, if t.cyclic then FloorMod(ny, t.h) else ny;
      if 0 <= wx < t.w && 0 <= wy < t.h then Some(Cell(wx, wy)) else None
    }

    /** `isInside(p)`: false for null. */
    predicate IsInside(p: Option<Pixel2D>)
      reads this
      ensures IsInside(p) <==> p.Some? && Inside(Topo(), Cell(p.value.x, p.value.y))
    {
      p.Some? && IsValidCoordinate(p.value.x, p.value.y)
    }

    /** `isCyclic()`. */
    function IsCyclic(): bool
      reads this
    {
      cyclic
    }

    /** `setCyclic(cy)`. */
    method SetCyclic(cy: bool)
      modifies this`cyclic
      ensures cyclic == cy && IsCyclic() == cy
    {
      cyclic := cy;
    }

    /** `init(w, h, v)`: throws unless both sizes are positive; otherwise a fresh
        `w`-by-`h` grid with every cell `v`, not cyclic. */
    method Init(w: int32, h: int32, v: int) returns (r: Outcome<MapError>)
      requires Valid()
      modifies this
      ensures Valid()
      ensures w <= 0 || h <= 0 ==> r == Fail(NonPositiveSize) && cells == old(cells) && cyclic == old(cyclic)
      ensures w > 0 && h > 0 ==> r == Pass && fresh(cells) && Width() == w as int && Height() == h as int && !cyclic
      ensures w > 0 && h > 0 ==> forall x, y :: 0 <= x < w && 0 <= y < h ==> cells[x, y] == v
    {
      if w <= 0 || h <= 0 {
        return Fail(NonPositiveSize);
      }
      var m := new int[w, h];
      for i := 0 to w
        invariant forall x, y :: 0 <= x < i && 0 <= y < h ==> m[x, y] == v
      {
        for j := 0 to h
          invariant forall x, y :: 0 <= x < i && 0 <= y < h ==> m[x, y] == v
          invariant forall y :: 0 <= y < j ==> m[i, y] == v
        {
          m[i, j] := v;
        }
      }
      cells := m;
      cyclic := false;
      return Pass;
    }

    /** `init(arr)`: throws for a null or empty array, for a null first row (the
        length read fails), and for a null or shorter/longer later row; otherwise a
        fresh deep copy of `arr`, not cyclic. */
    method InitFrom(arr: array?<array?<int>>) returns (r: Outcome<MapError>)
      requires Valid()
      requires arr != null ==> arr.Length <= MaxInt
      requires arr != null ==> forall i :: 0 <= i < arr.Length && arr[i] != null ==> arr[i].Length <= MaxInt
      modifies this
      ensures Valid()
      ensures r.Fail? ==> cells == old(cells) && cyclic == old(cyclic)
      ensures arr == null || arr.Length == 0 ==> r == Fail(NullOrEmptyArray)
      ensures arr != null && arr.Length > 0 && arr[0] == null ==> r == Fail(NullFirstRow)
      ensures arr != null && arr.Length > 0 && arr[0] != null && !Rectangular(arr) ==> r == Fail(NotRectangular)
      ensures arr != null && arr.Length > 0 && arr[0] != null && Rectangular(arr) ==>
        r == Pass && fresh(cells) && Width() == arr.Length && Height() == arr[0].Length && !cyclic &&
        forall x, y :: 0 <= x < Width() && 0 <= y < Height() ==> cells[x, y] == arr[x][y]
    {
      if arr == null || arr.Length == 0 {
        return Fail(NullOrEmptyArray);
      }
      if arr[0] == null {
        return Fail(NullFirstRow);
      }
      var height := arr[0].Length;
      for i := 0 to arr.Length
        invariant forall k :: 0 <= k < i ==> arr[k] != null && arr[k].Length == height
      {
        if arr[i] == null || arr[i].Length != height {
          return Fail(NotRectangular);
        }
      }
      var m := new int[arr.Length, height];
      for i := 0 to arr.Length
        invariant forall x, y :: 0 <= x < i && 0 <= y < height ==> m[x, y] == arr[x][y]
      {
        for j := 0 to height
          invariant forall x, y :: 0 <= x < i && 0 <= y < height ==> m[x, y] == arr[x][y]
          invariant forall y :: 0 <= y < j ==> m[i, y] == arr[i][y]
        {
          m[i, j] := arr[i][j];
        }
      }
      cells := m;
      cyclic := false;
      return Pass;
    }

    /** `new MyMap2D(w, h, v)`: the constructor runs `init(w, h, v)`, so it throws
        unless both sizes are positive. */
    static method Create(w: int32, h: int32, v: int) returns (r: Result<MyMap2D, MapError>)
      ensures w <= 0 || h <= 0 ==> r == Failure(NonPositiveSize)
      ensures w > 0 && h > 0 ==> r.Success? && fresh(r.value) && fresh(r.value.cells) && r.value.Valid()
      ensures w > 0 && h > 0 ==>
        r.value.Width() == w as int && r.value.Height() == h as int && !r.value.cyclic &&
        forall x, y :: 0 <= x < w && 0 <= y < h ==> r.value.cells[x, y] == v
    {
      var m := new MyMap2D.Empty();
      var o := m.Init(w, h, v);
      if o.Fail? {
        return Failure(o.error);
      }
      return Success(m);
    }

    /** `new MyMap2D(arr)`: the constructor runs `init(arr)` and throws when it does. */
    static method CreateFrom(arr: array?<array?<int>>) returns (r: Result<MyMap2D, MapError>)
      requires arr != null ==> arr.Length <= MaxInt
      requires arr != null ==> forall i :: 0 <= i < arr.Length && arr[i] != null ==> arr[i].Length <= MaxInt
      ensures arr == null || arr.Length == 0 ==> r == Failure(NullOrEmptyArray)
      ensures arr != null && arr.Length > 0 && arr[0] == null ==> r == Failure(NullFirstRow)
      ensures arr != null && arr.Length > 0 && arr[0] != null && !Rectangular(arr) ==> r == Failure(NotRectangular)
      ensures arr != null && arr.Length > 0 && arr[0] != null && Rectangular(arr) ==>
        r.Success? && fresh(r.value) && fresh(r.value.cells) && r.value.Valid() &&
        r.value.Width() == arr.Length && r.value.Height() == arr[0].Length && !r.value.cyclic &&
        forall x, y :: 0 <= x < arr.Length && 0 <= y < arr[0].Length ==> r.value.cells[x, y] == arr[x][y]
    {
      var m := new MyMap2D.Empty();
      var o := m.InitFrom(arr);
      if o.Fail? {
        return Failure(o.error);
      }
      return Success(m);
    }

    /** `getMap()`: null for the uninitialised cells, otherwise a fresh copy of the
        cells, so later changes to either side do not reach the other. */
    method GetMap() returns (copy: array2?<int>)
      requires Valid()
      ensures copy == null <==> Width() == 0
      ensures copy != null ==> fresh(copy) && copy.Length0 == Width() && copy.Length1 == Height()
      ensures copy != null ==> forall x, y :: 0 <= x < Width() && 0 <= y < Height() ==> copy[x, y] == cells[x, y]
    {
      if cells.Length0 == 0 {
        return null;
      }
      var c := new int[cells.Length0, cells.Length1];
      for i := 0 to cells.Length0
        invariant forall x, y :: 0 <= x < i && 0 <= y < cells.Length1 ==> c[x, y] == cells[x, y]
      {
        for j := 0 to cells.Length1
          invariant forall x, y :: 0 <= x < i && 0 <= y < cells.Length1 ==> c[x, y] == cells[x, y]
          invariant forall y :: 0 <= y < j ==> c[i, y] == cells[i, y]
        {
          c[i, j] := cells[i, j];
        }
      }
      return c;
    }

    /** `getPixel(x, y)`: the cell's value, or an exception outside the grid. */
    function GetPixel(x: int, y: int): (r: Result<int, MapError>)
      reads this, cells
      ensures r.Success? <==> Inside(Topo(), Cell(x, y))
      ensures r.Success? ==> r.value == At(Topo(), Board(), Cell(x, y))
      ensures r.Failure? ==> r.error == OutOfBounds
    {
      if !IsValidCoordinate(x, y) then Failure(OutOfBounds) else Success(cells[x, y])
    }

    /** `getPixel(p)`: an exception for null, otherwise `getPixel(p.x, p.y)`. */
    function GetPixelAt(p: Option<Pixel2D>): (r: Result<int, MapError>)
      reads this, cells
      ensures p.None? ==> r == Failure(NullPixel)
      ensures p.Some? ==> r == GetPixel(p.value.x, p.value.y)
      ensures r.Success? <==> IsInside(p)
    {
      if p.None? then Failure(NullPixel) else GetPixel(p.value.x, p.value.y)
    }

    /** `setPixel(x, y, v)`: outside the grid an exception and nothing changes;
        inside, that one cell now reads `v` and every other cell is as it was. */
    method SetPixel(x: int, y: int, v: int) returns (r: Outcome<MapError>)
      modifies cells
      ensures r.Pass? <==> IsValidCoordinate(x, y)
      ensures r.Fail? ==> r.error == OutOfBounds && Board() == old(Board())
      ensures r.Pass? ==> Board() == Paint(Topo(), old(Board()), Cell(x, y), v)
    {
      if !IsValidCoordinate(x, y) {
        return Fail(OutOfBounds);
      }
      ghost var before := Board();
      cells[x, y] := v;
      BoardsEqual(Topo(), Board(), Paint(Topo(), before, Cell(x, y), v));
      return Pass;
    }

    /** `setPixel(p, v)`: an exception for null, otherwise `setPixel(p.x, p.y, v)`. */
    method SetPixelAt(p: Option<Pixel2D>, v: int) returns (r: Outcome<MapError>)
      modifies cells
      ensures p.None? ==> r == Fail(NullPixel) && Board() == old(Board())
      ensures p.Some? ==> (r.Pass? <==> IsInside(p))
      ensures p.Some? && r.Fail? ==> r.error == OutOfBounds && Board() == old(Board())
      ensures r.Pass? ==> Board() == Paint(Topo(), old(Board()), Cell(p.value.x, p.value.y), v)
    {
      if p.None? {
        return Fail(NullPixel);
      }
      r := SetPixel(p.value.x, p.value.y, v);
    }

    /** `addFillNeighbors(queue, x, y, v)`: appends, in direction-table order, the
        neighbours of `(x, y)` that hold `v`. */
    method AddFillNeighbors(queue: seq<Cell>, x: int, y: int, v: int) returns (q: seq<Cell>)
      requires IsValidCoordinate(x, y)
      ensures q == queue + FillNeighbors(Topo(), Board(), Cell(x, y), v)
    {
      ghost var t, g, c := Topo(), Board(), Cell(x, y);
      q := queue;
      for i := 0 to 4
        invariant q == queue + FillNeighborsUpTo(t, g, c, v, i)
      {
        UnitDirections(i);
        var n := FillStep(Topo(), x, y, FillDX[i], FillDY[i]);
        if n.Some? && cells[n.value.x, n.value.y] == v {
          q := q + [n.value];
        }
      }
    }

    /** One turn of the fill loop on a polled cell that still holds the old value:
        paint it and enqueue its neighbours holding the old value. */
    method FillVisit(ghost g: Board, start: Cell, newV: int, ghost filled: set<Cell>, polled: seq<Cell>)
      returns (queue: seq<Cell>, ghost filled': set<Cell>)
      requires Shaped(Topo(), g) && Inside(Topo(), start) && |polled| > 0
      requires Inside(Topo(), polled[0]) && At(Topo(), g, start) != newV
      requires FillProgress(Topo(), g, start, newV, filled, polled, Board())
      requires cells[polled[0].x, polled[0].y] == At(Topo(), g, start)
      modifies cells
      ensures filled' == filled + {polled[0]} && |filled'| == |filled| + 1
      ensures FillProgress(Topo(), g, start, newV, filled', queue, Board())
      ensures |AllCells(Topo()) - filled'| < |AllCells(Topo()) - filled|
    {
      ghost var t, before := Topo(), Board();
      var current := polled[0];
      var x, y, oldV := current.x, current.y, cells[current.x, current.y];
      assert At(t, before, current) == At(t, g, start) == oldV;
      var _ := SetPixel(x, y, newV);
      filled' := filled + {current};
      ghost var after := Board();
      assert after == Paint(t, before, current, newV);
      label painted:
      queue := AddFillNeighbors(polled[1..], x, y, oldV);
      assert unchanged@painted(this, cells);
      assert queue == polled[1..] + FillNeighbors(t, after, current, oldV);
      FillTurn(t, g, start, newV, filled, polled, before, after, FillNeighbors(t, after, current, oldV));
    }

    /** `fill(p, v)`: recolours the fill region of `p` (see `Filled`) and returns
        its size; a null or outside `p`, or one already holding `v`, changes nothing
        and returns 0. */
    method Fill(p: Option<Pixel2D>, newV: int) returns (count: int)
      modifies cells
      ensures !IsInside(p) ==> count == 0 && Board() == old(Board())
      ensures IsInside(p) ==>
        Board() == Filled(Topo(), old(Board()), Cell(p.value.x, p.value.y), newV) &&
        count == FillCount(Topo(), old(Board()), Cell(p.value.x, p.value.y), newV)
    {
      if !IsInside(p) {
        return 0;
      }
      var start := Cell(p.value.x, p.value.y);
      var oldV := cells[start.x, start.y];
      if oldV == newV {
        assert At(Topo(), Board(), start) == newV;
        return 0;
      }
      count := FillFrom(start, oldV, newV);
    }

    /** The breadth-first loop of `fill`, from an inside `start` holding `oldV`. */
    method FillFrom(start: Cell, oldV: int, newV: int) returns (count: int)
      requires Inside(Topo(), start) && cells[start.x, start.y] == oldV && oldV != newV
      modifies cells
      ensures Board() == Filled(Topo(), old(Board()), start, newV)
      ensures count == FillCount(Topo(), old(Board()), start, newV)
    {
      ghost var t, g := Topo(), Board();
      ghost var filled: set<Cell> := {};
      count := 0;
      var queue := [start];
      assert oldV == At(t, g, start);
      FillProgressStart(t, g, start, newV);
      while |queue| > 0
        invariant Topo() == t
        invariant FillProgress(t, g, start, newV, filled, queue, Board())
        invariant count == |filled|
        decreases |AllCells(t) - filled|, |queue|
      {
        queue, filled, count := FillPoll(g, start, oldV, newV, filled, queue, count);
      }
      FillProgressDone(t, g, start, newV, filled, Board());
    }

    /** One turn of `fill`'s loop: poll the head of the queue, drop it when it no
        longer holds the old value, otherwise paint it, count it and enqueue its
        neighbours. */
    method FillPoll(ghost g: Board, start: Cell, oldV: int, newV: int, ghost filled: set<Cell>, polled: seq<Cell>, count: int)
      returns (queue: seq<Cell>, ghost filled': set<Cell>, count': int)
      requires Shaped(Topo(), g) && Inside(Topo(), start) && At(Topo(), g, start) == oldV && oldV != newV
      requires |polled| > 0 && FillProgress(Topo(), g, start, newV, filled, polled, Board()) && count == |filled|
      modifies cells
      ensures FillProgress(Topo(), g, start, newV, filled', queue, Board()) && count' == |filled'|
      ensures |AllCells(Topo()) - filled'| < |AllCells(Topo()) - filled| || (filled' == filled && |queue| < |polled|)
    {
      FillHead(Topo(), g, start, newV, filled, polled, Board());
      var current := polled[0];
      if cells[current.x, current.y] != oldV {
        FillSkip(Topo(), g, start, newV, filled, polled, Board());
        queue, filled', count' := polled[1..], filled, count;
      } else {
        queue, filled' := FillVisit(g, start, newV, filled, polled);
        count' := count + 1;
      }
    }

    /** `shortestPath(p1, p2, obsColor)`: null when an endpoint is null or
        outside, when an endpoint holds `obs`, or when no walk avoiding `obs`
        leads from `p1` to `p2`; `[p1]` when the two are equal; otherwise the
        parents chain read back from `p2`. This map is not changed. */
    method ShortestPath(p1: Option<Pixel2D>, p2: Option<Pixel2D>, obs: int) returns (r: Option<seq<Pixel2D>>)
      requires Valid()
      ensures !IsInside(p1) || !IsInside(p2) ==> r.None?
      ensures IsInside(p1) && IsInside(p2) ==>
        (r.None? <==>
          At(Topo(), Board(), CellOf(p1.value)) == obs || At(Topo(), Board(), CellOf(p2.value)) == obs ||
          !Reachable(Topo(), Board(), Avoiding(obs), CellOf(p1.value), CellOf(p2.value)))
      ensures r.Some? ==> IsInside(p1) && IsInside(p2) && PixelPath(Topo(), Board(), obs, r.value, p1.value, p2.value)
      ensures r.Some? && Equals(p1.value, PixelObject(p2.value)) ==> r.value == [p1.value]
    {
      if !IsInside(p1) || !IsInside(p2) {
        return None;
      }
      if GetPixelAt(p1).value == obs || GetPixelAt(p2).value == obs {
        return None;
      }
      var a, b := p1.value, p2.value;
      ghost var t, g := Topo(), Board();
      var start, goal := CellOf(a), CellOf(b);
      if Equals(a, PixelObject(b)) {
        assert WalkBetween(t, g, Avoiding(obs), CellsOf([a]), start, goal);
        return Some([a]);
      }
      assert Shows(cells, t, g);
      r := PathBetween(Topo(), cells, g, obs, a, b);
    }

    /** The search and the reconstruction of `shortestPath` for two different
        inside pixels holding no `obs`, over cells `m` of shape `t` that show
        `g`: the path when some walk avoiding `obs` reaches `p2`, null otherwise. */
    static method PathBetween(t: Topology, m: array2<int>, ghost g: Board, obs: int, p1: Pixel2D, p2: Pixel2D)
      returns (r: Option<seq<Pixel2D>>)
      requires Shows(m, t, g) && t.w <= MaxInt && t.h <= MaxInt
      requires Inside(t, CellOf(p1)) && Inside(t, CellOf(p2)) && CellOf(p1) != CellOf(p2)
      ensures r.None? <==> !Reachable(t, g, Avoiding(obs), CellOf(p1), CellOf(p2))
      ensures r.Some? ==> PixelPath(t, g, obs, r.value, p1, p2)
    {
      var start, goal := CellOf(p1), CellOf(p2);
      var parents := new Option<Cell>[t.w, t.h]((x, y) => None);
      parents[start.x, start.y] := Some(start);
      ghost var P := SetParent(t, NoParents(t), start, Some(start));
      ghost var dep := Paint(t, NoDepths(t), start, 0);
      PathStart(t, g, obs, start);
      assert ShowsParents(parents, t, P);
      var found;
      found, P, dep := PathSearch(t, m, g, parents, P, dep, obs, start, goal);
      if !found {
        NotFoundUnreachable(t, g, obs, start, P, dep, goal);
        return None;
      }
      var path := Reconstruct(t, g, obs, parents, P, dep, p1, p2);
      ChainIsWalk(t, g, obs, start, P, dep, goal);
      assert WalkBetween(t, g, Avoiding(obs), CellsOf(path), start, goal);
      return Some(path);
    }

    /** The neighbour computation of `shortestPath` on a map of shape `t`: the
        shifted remainder `(n + w) % w` of each coordinate on a cyclic map, then
        `isValidCoordinate`; it too is the one-step rule `Step`. */
    static function PathNeighbour(t: Topology, x: int, y: int, dx: int, dy: int): (r: Option<Cell>)
      requires Inside(t, Cell(x, y)) && -1 <= dx <= 1 && -1 <= dy <= 1
      ensures r == Step(t, Cell(x, y), dx, dy)
    {
      var nx, ny := x + dx, y + dy;
      WrapIsFloorMod(t.w, nx);
      WrapIsFloorMod(t.h, ny);
      var wx, wy := if t.cyclic then ShiftMod(nx, t.w) else nx, if t.cyclic then ShiftMod(ny, t.h) else ny;
      if 0 <= wx < t.w && 0 <= wy < t.h then Some(Cell(wx, wy)) else None
    }

    /** The breadth-first loop of `shortestPath` over cells `m` of shape `t`,
        which show `g`, writing into `par`, which shows `P0`; `dep` is a ghost
        board of discovery depths. It stops as soon as `goal` gets a parent, or
        when the queue runs dry, and then no walk reaches `goal`. */
    static method PathSearch(t: Topology, m: array2<int>, ghost g: Board, par: array2<Option<Cell>>, ghost P0: Parents,
                             ghost dep0: Board, obs: int, start: Cell, goal: Cell)
      returns (found: bool, ghost P: Parents, ghost dep: Board)
      requires Shows(m, t, g) && ShowsParents(par, t, P0) && Shaped(t, dep0) && Inside(t, start) && Inside(t, goal)
      requires ParentsAgree(t, g, obs, start, P0, dep0) && ParentOf(t, P0, goal).None?
      requires DistProgress(t, g, obs, start, dep0, [start])
      modifies par
      ensures ShowsParents(par, t, P) && Shaped(t, dep) && ParentsAgree(t, g, obs, start, P, dep)
      ensures found <==> ParentOf(t, P, goal).Some?
      ensures !found ==> DistProgress(t, g, obs, start, dep, [])
    {
      var queue := [start];
      found, P, dep := false, P0, dep0;
      while |queue| > 0 && !found
        invariant ShowsParents(par, t, P) && Shaped(t, dep) && ParentsAgree(t, g, obs, start, P, dep)
        invariant found <==> ParentOf(t, P, goal).Some?
        invariant !found ==> DistProgress(t, g, obs, start, dep, queue)
        decreases Unvisited(dep), |queue|
      {
        DistPoll(t, g, obs, start, dep, queue, PathTable);
        var current := queue[0];
        queue, found, P, dep := PathVisit(t, m, g, par, P, dep, obs, start, goal, queue[1..], current);
      }
    }

    /** One turn of `shortestPath`'s loop on the polled cell `cur`: each
        neighbour, in direction-table order, that is on the grid, has no parent
        and holds no `obs` gets `cur` as its parent and is queued; the turn
        breaks off once that neighbour is `goal`. */
    static method PathVisit(t: Topology, m: array2<int>, ghost g: Board, par: array2<Option<Cell>>, ghost P0: Parents,
                            ghost dep0: Board, obs: int, start: Cell, goal: Cell, queue: seq<Cell>, cur: Cell)
      returns (q: seq<Cell>, found: bool, ghost P: Parents, ghost dep: Board)
      requires Shows(m, t, g) && ShowsParents(par, t, P0) && Shaped(t, dep0) && Inside(t, start) && Inside(t, goal)
      requires ParentsAgree(t, g, obs, start, P0, dep0) && ParentOf(t, P0, goal).None?
      requires DistVisiting(t, g, obs, start, dep0, queue, cur, PathTable, 0)
      modifies par
      ensures ShowsParents(par, t, P) && Shaped(t, dep) && ParentsAgree(t, g, obs, start, P, dep)
      ensures found <==> ParentOf(t, P, goal).Some?
      ensures !found ==> DistProgress(t, g, obs, start, dep, q)
      ensures Unvisited(dep) < Unvisited(dep0) || (dep == dep0 && q == queue)
    {
      q, found, P, dep := queue, false, P0, dep0;
      for i := 0 to 4
        invariant ShowsParents(par, t, P) && Shaped(t, dep) && ParentsAgree(t, g, obs, start, P, dep)
        invariant !found && ParentOf(t, P, goal).None?
        invariant DistVisiting(t, g, obs, start, dep, q, cur, PathTable, i)
        invariant Unvisited(dep) < Unvisited(dep0) || (dep == dep0 && q == queue)
      {
        assert At(t, dep, cur) >= 0;
        DistStepKeeps(t, g, obs, start, dep, q, cur, PathTable, i);
        DistStepProgress(t, g, obs, dep, q, cur, PathTable, i);
        ParentStepKeeps(t, g, obs, start, P, dep, q, cur, i, goal);
        q, found, P, dep := PathStep(t, m, g, par, P, dep, obs, goal, q, cur, i);
        if found {
          break;
        }
      }
      if !found {
        DistVisitDone(t, g, obs, start, dep, q, cur, PathTable);
      }
    }

    /** `a[c.x][c.y] = v` on a parents table that shows `p`. */
    static method RecordParent(ghost t: Topology, a: array2<Option<Cell>>, ghost p: Parents, c: Cell, v: Option<Cell>)
      returns (ghost p': Parents)
      requires ShowsParents(a, t, p) && Inside(t, c)
      modifies a
      ensures p' == SetParent(t, p, c, v) && ShowsParents(a, t, p')
    {
      a[c.x, c.y] := v;
      p' := SetParent(t, p, c, v);
    }

    /** Direction `i` of a turn on `cur`. */
    static method PathStep(t: Topology, m: array2<int>, ghost g: Board, par: array2<Option<Cell>>, ghost P0: Parents,
                           ghost dep0: Board, obs: int, goal: Cell, queue: seq<Cell>, cur: Cell, i: nat)
      returns (q: seq<Cell>, found: bool, ghost P: Parents, ghost dep: Board)
      requires Shows(m, t, g) && ShowsParents(par, t, P0) && Shaped(t, dep0) && Inside(t, cur) && i < 4
      requires forall c :: Inside(t, c) ==> (ParentOf(t, P0, c).None? <==> At(t, dep0, c) == Unreached)
      modifies par
      ensures ShowsParents(par, t, P)
      ensures (dep, q) == DistStep(t, g, obs, dep0, queue, cur, PathTable, i)
      ensures P == ParentStep(t, g, obs, P0, dep0, cur, i)
      ensures found <==> Discovered(t, g, obs, dep0, cur, PathTable, i) == Some(goal)
    {
      UnitDirections(i);
      var n := PathNeighbour(t, cur.x, cur.y, PathDX[i], PathDY[i]);
      assert cur == Cell(cur.x, cur.y);
      if n.Some? && par[n.value.x, n.value.y].None? && m[n.value.x, n.value.y] != obs {
        var next := n.value;
        assert ParentOf(t, P0, next).None?;
        P := RecordParent(t, par, P0, next, Some(cur));
        q := queue + [next];
        dep := Paint(t, dep0, next, At(t, dep0, cur) + 1);
        found := next == goal;
      } else {
        q, found, P, dep := queue, false, P0, dep0;
      }
    }

    /** The path reconstruction of `shortestPath`: from `p2`, prepend each cell
        and step to its parent until a pixel equal to `p1` is reached, then
        prepend `p1`. The result is the parents chain from `p1` to `p2`. */
    static method Reconstruct(ghost t: Topology, ghost g: Board, ghost obs: int, par: array2<Option<Cell>>, ghost P: Parents,
                              ghost dep: Board, p1: Pixel2D, p2: Pixel2D)
      returns (path: seq<Pixel2D>)
      requires ShowsParents(par, t, P) && Shaped(t, g) && Shaped(t, dep) && t.w <= MaxInt && t.h <= MaxInt
      requires Inside(t, CellOf(p1)) && Inside(t, CellOf(p2)) && CellOf(p1) != CellOf(p2)
      requires ParentsAgree(t, g, obs, CellOf(p1), P, dep) && ParentOf(t, P, CellOf(p2)).Some?
      ensures CellsOf(path) == Chain(t, g, obs, CellOf(p1), P, dep, CellOf(p2))
      ensures |path| >= 2 && path[0] == p1 && path[|path| - 1] == p2
      ensures forall k :: 0 < k < |path| - 1 ==> path[k].Index2D?
    {
      var rest, temp := UnwindAll(t, g, obs, par, P, dep, p1, p2);
      Unwound(t, g, obs, P, dep, p1, p2, rest, temp);
      path := [p1] + rest;
    }

    /** The loop of the reconstruction: unwind until `temp` equals `p1`. */
    static method UnwindAll(ghost t: Topology, ghost g: Board, ghost obs: int, par: array2<Option<Cell>>, ghost P: Parents,
                            ghost dep: Board, p1: Pixel2D, p2: Pixel2D)
      returns (path: seq<Pixel2D>, temp: Pixel2D)
      requires ShowsParents(par, t, P) && Shaped(t, g) && Shaped(t, dep) && t.w <= MaxInt && t.h <= MaxInt
      requires Inside(t, CellOf(p1)) && Inside(t, CellOf(p2))
      requires ParentsAgree(t, g, obs, CellOf(p1), P, dep) && ParentOf(t, P, CellOf(p2)).Some?
      ensures Unwinding(t, g, obs, CellOf(p1), P, dep, p2, Chain(t, g, obs, CellOf(p1), P, dep, CellOf(p2)), path, temp)
      ensures CellOf(temp) == CellOf(p1)
    {
      ghost var whole := Chain(t, g, obs, CellOf(p1), P, dep, CellOf(p2));
      path := [];
      temp := p2;
      while !Equals(temp, PixelObject(p1))
        invariant Unwinding(t, g, obs, CellOf(p1), P, dep, p2, whole, path, temp)
        decreases At(t, dep, CellOf(temp))
      {
        path, temp := Unwind(t, g, obs, par, P, dep, p1, p2, whole, path, temp);
      }
    }

    /** Once `temp` is `p1`'s cell, which is not `p2`'s, `p1` followed by the
        unwound pixels is the whole chain, and those pixels end with `p2`. */
    static lemma UnwoundAll(t: Topology, g: Board, obs: int, P: Parents, dep: Board, p1: Pixel2D, p2: Pixel2D,
                            whole: seq<Cell>, path: seq<Pixel2D>, temp: Pixel2D)
      requires ParentsShaped(t, P) && Shaped(t, g) && Shaped(t, dep)
      requires Inside(t, CellOf(p1)) && Inside(t, CellOf(p2)) && CellOf(p1) != CellOf(p2)
      requires ParentsAgree(t, g, obs, CellOf(p1), P, dep) && ParentOf(t, P, CellOf(p2)).Some?
      requires Unwinding(t, g, obs, CellOf(p1), P, dep, p2, whole, path, temp) && CellOf(temp) == CellOf(p1)
      ensures CellsOf([p1] + path) == whole && path != [] && path[|path| - 1] == p2
    {
      assert Chain(t, g, obs, CellOf(p1), P, dep, CellOf(temp)) == [CellOf(p1)];
      CellsOfCons(p1, path);
    }

    /** Once the loop is back at `p1`, `p1` in front of the unwound pixels is the parent chain. */
    static lemma Unwound(t: Topology, g: Board, obs: int, P: Parents, dep: Board, p1: Pixel2D, p2: Pixel2D,
                         path: seq<Pixel2D>, temp: Pixel2D)
      requires ParentsShaped(t, P) && Shaped(t, g) && Shaped(t, dep)
      requires Inside(t, CellOf(p1)) && Inside(t, CellOf(p2)) && CellOf(p1) != CellOf(p2)
      requires ParentsAgree(t, g, obs, CellOf(p1), P, dep) && ParentOf(t, P, CellOf(p2)).Some?
      requires Unwinding(t, g, obs, CellOf(p1), P, dep, p2, Chain(t, g, obs, CellOf(p1), P, dep, CellOf(p2)), path, temp)
      requires CellOf(temp) == CellOf(p1)
      ensures CellsOf([p1] + path) == Chain(t, g, obs, CellOf(p1), P, dep, CellOf(p2))
      ensures |[p1] + path| >= 2 && ([p1] + path)[0] == p1 && ([p1] + path)[|[p1] + path| - 1] == p2
      ensures forall k :: 0 < k < |[p1] + path| - 1 ==> ([p1] + path)[k].Index2D?
    {
      ghost var whole := Chain(t, g, obs, CellOf(p1), P, dep, CellOf(p2));
      UnwoundAll(t, g, obs, P, dep, p1, p2, whole, path, temp);
      UnwoundPixels(t, g, obs, P, dep, p1, p2, whole, path, temp);
      PrependStart(p1, p2, path);
    }

    /** The pixels unwound so far hold only `Index2D`s before their last one. */
    static lemma UnwoundPixels(t: Topology, g: Board, obs: int, P: Parents, dep: Board, p1: Pixel2D, p2: Pixel2D,
                               whole: seq<Cell>, path: seq<Pixel2D>, temp: Pixel2D)
      requires ParentsShaped(t, P) && Shaped(t, g) && Shaped(t, dep)
      requires Inside(t, CellOf(p1)) && Inside(t, CellOf(p2))
      requires ParentsAgree(t, g, obs, CellOf(p1), P, dep) && ParentOf(t, P, CellOf(p2)).Some?
      requires Unwinding(t, g, obs, CellOf(p1), P, dep, p2, whole, path, temp)
      ensures forall k :: 0 <= k < |path| - 1 ==> path[k].Index2D?
    {
    }

    /** `p1` put in front of pixels that end with `p2` and hold only `Index2D`s
        before it. */
    static lemma PrependStart(p1: Pixel2D, p2: Pixel2D, path: seq<Pixel2D>)
      requires path != [] && path[|path| - 1] == p2
      requires forall k :: 0 <= k < |path| - 1 ==> path[k].Index2D?
      ensures var full := [p1] + path;
        && |full| >= 2 && full[0] == p1 && full[|full| - 1] == p2
        && forall k :: 0 < k < |full| - 1 ==> full[k].Index2D?
    {
      var full := [p1] + path;
      forall k | 0 < k < |full| - 1 ensures full[k].Index2D? {
        assert full[k] == path[k - 1];
      }
    }

    /** What the reconstruction loop keeps: `temp` is a discovered cell, its
        chain followed by `path` is `p2`'s chain, `path` ends with `p2` once it
        is not empty, and every other pixel in it, like `temp` then, is an
        `Index2D`. */
    static ghost predicate Unwinding(t: Topology, g: Board, obs: int, start: Cell, P: Parents, dep: Board, p2: Pixel2D,
                                     whole: seq<Cell>, path: seq<Pixel2D>, temp: Pixel2D)
      requires ParentsShaped(t, P) && Shaped(t, g) && Shaped(t, dep) && Inside(t, start) && Inside(t, CellOf(p2))
      requires ParentsAgree(t, g, obs, start, P, dep) && ParentOf(t, P, CellOf(p2)).Some?
    {
      && Inside(t, CellOf(temp)) && ParentOf(t, P, CellOf(temp)).Some?
      && Chain(t, g, obs, start, P, dep, CellOf(temp)) + CellsOf(path) == whole
      && (path == [] ==> temp == p2)
      && (path != [] ==> path[|path| - 1] == p2 && temp.Index2D?)
      && (forall k :: 0 <= k < |path| - 1 ==> path[k].Index2D?)
    }

    /** One turn of the reconstruction loop: `pathList.addFirst(temp)`, then
        `temp = parents[temp.x][temp.y]`, one step shallower. */
    static method Unwind(ghost t: Topology, ghost g: Board, ghost obs: int, par: array2<Option<Cell>>, ghost P: Parents,
                         ghost dep: Board, p1: Pixel2D, p2: Pixel2D, ghost whole: seq<Cell>, path: seq<Pixel2D>, temp: Pixel2D)
      returns (path': seq<Pixel2D>, temp': Pixel2D)
      requires ShowsParents(par, t, P) && Shaped(t, g) && Shaped(t, dep) && t.w <= MaxInt && t.h <= MaxInt
      requires Inside(t, CellOf(p1)) && Inside(t, CellOf(p2))
      requires ParentsAgree(t, g, obs, CellOf(p1), P, dep) && ParentOf(t, P, CellOf(p2)).Some?
      requires Unwinding(t, g, obs, CellOf(p1), P, dep, p2, whole, path, temp) && !Equals(temp, PixelObject(p1))
      ensures Unwinding(t, g, obs, CellOf(p1), P, dep, p2, whole, path', temp')
      ensures 0 <= At(t, dep, CellOf(temp')) < At(t, dep, CellOf(temp))
    {
      ChainStep(t, g, obs, CellOf(p1), P, dep, CellOf(temp), CellsOf(path), whole);
      CellsOfCons(temp, path);
      path' := [temp] + path;
      var b := par[temp.x, temp.y].value;
      temp' := Index2D(b.x as int32, b.y as int32);
      assert CellOf(temp') == b;
    }

    /** `allDistance(start, obs)`: a new map of this one's size (the constructor
        throws for a zero width or height). For a null or outside `start` it
        holds `-1` everywhere and is not cyclic; otherwise it is a distance map
        for `start` avoiding `obs` (see `IsDistanceMap`) and copies the cyclic
        flag. This map is not changed. */
    method AllDistance(start: Option<Pixel2D>, obs: int) returns (r: Result<MyMap2D, MapError>)
      requires Valid()
      ensures r.Failure? <==> Width() == 0 || Height() == 0
      ensures r.Failure? ==> r.error == NonPositiveSize
      ensures r.Success? ==>
        fresh(r.value) && fresh(r.value.cells) && r.value.Valid() &&
        r.value.Width() == Width() && r.value.Height() == Height()
      ensures r.Success? && !IsInside(start) ==>
        !r.value.cyclic && forall x, y :: 0 <= x < Width() && 0 <= y < Height() ==> r.value.cells[x, y] == Unreached
      ensures r.Success? && IsInside(start) ==>
        r.value.cyclic == cyclic &&
        IsDistanceMap(Topo(), Board(), obs, Cell(start.value.x, start.value.y), r.value.Board())
    {
      var created := Create(Width() as int32, Height() as int32, Unreached);
      if created.Failure? {
        return Failure(created.error);
      }
      var dist := created.value;
      if !IsInside(start) {
        return Success(dist);
      }
      dist.DistancesFrom(this, Cell(start.value.x, start.value.y), obs);
      return Success(dist);
    }

    /** The rest of `allDistance` on its fresh all `-1` map `this`, for the map
        `src` and a `start` inside it: `start` gets 0, the breadth-first loop
        fills in the distances, and the cyclic flag is copied. */
    method DistancesFrom(src: MyMap2D, start: Cell, obs: int)
      requires src != this && src.cells != cells && Inside(src.Topo(), start)
      requires Width() == src.Width() && Height() == src.Height()
      requires forall x, y :: 0 <= x < Width() && 0 <= y < Height() ==> cells[x, y] == Unreached
      modifies this, cells
      ensures cells == old(cells) && cyclic == src.cyclic
      ensures IsDistanceMap(src.Topo(), src.Board(), obs, start, Board())
    {
      ghost var t, g, d0 := src.Topo(), src.Board(), Board();
      var _ := SetPixel(start.x, start.y, 0);
      ghost var d1 := Paint(t, d0, start, 0);
      assert Paint(Topo(), d0, start, 0) == d1;
      DistStart(t, g, obs, start, d0, d1);
      ghost var d := DistanceFrom(src.Topo(), src.cells, g, cells, d1, obs, start);
      SetCyclic(src.cyclic);
      assert Shows(cells, t, d) && Shows(src.cells, t, g);
      BoardsEqual(t, Board(), d);
      BoardsEqual(t, src.Board(), g);
    }

    /** The breadth-first loop of `allDistance` over cells `m` of shape `t`,
        which show `g`, writing into the distance cells `a`, which show `d0`; `d`
        is what they show at the end. */
    static method DistanceFrom(t: Topology, m: array2<int>, ghost g: Board, a: array2<int>, ghost d0: Board, obs: int, start: Cell)
      returns (ghost d: Board)
      requires m != a && Shows(m, t, g) && Shows(a, t, d0) && Inside(t, start)
      requires DistProgress(t, g, obs, start, d0, [start])
      modifies a
      ensures Shows(a, t, d) && IsDistanceMap(t, g, obs, start, d)
    {
      d := d0;
      var queue := [start];
      while |queue| > 0
        invariant Shows(a, t, d) && DistProgress(t, g, obs, start, d, queue)
        decreases Unvisited(d), |queue|
      {
        DistPoll(t, g, obs, start, d, queue, FillTable);
        var current := queue[0];
        queue, d := DistanceVisit(t, m, g, a, d, obs, start, queue[1..], current);
      }
      DistDone(t, g, obs, start, d);
    }

    /** One turn of `allDistance`'s loop on the polled cell `cur`: each neighbour,
        in direction-table order, that is no obstacle and still `-1` gets `cur`'s
        distance plus one and is queued. */
    static method DistanceVisit(t: Topology, m: array2<int>, ghost g: Board, a: array2<int>, ghost d0: Board, obs: int,
                                start: Cell, queue: seq<Cell>, cur: Cell)
      returns (q: seq<Cell>, ghost d: Board)
      requires m != a && Shows(m, t, g) && Shows(a, t, d0) && Inside(t, start)
      requires DistVisiting(t, g, obs, start, d0, queue, cur, FillTable, 0)
      modifies a
      ensures Shows(a, t, d) && DistProgress(t, g, obs, start, d, q)
      ensures Unvisited(d) < Unvisited(d0) || (d == d0 && q == queue)
    {
      var currentDist := a[cur.x, cur.y];
      q, d := queue, d0;
      for i := 0 to 4
        invariant Shows(a, t, d) && DistVisiting(t, g, obs, start, d, q, cur, FillTable, i)
        invariant At(t, d, cur) == currentDist
        invariant Unvisited(d) < Unvisited(d0) || (d == d0 && q == queue)
      {
        DistStepKeeps(t, g, obs, start, d, q, cur, FillTable, i);
        DistStepProgress(t, g, obs, d, q, cur, FillTable, i);
        q, d := DistanceStep(t, m, g, a, d, obs, q, cur, i, currentDist);
      }
      DistVisitDone(t, g, obs, start, d, q, cur, FillTable);
    }

    /** `a[x][y] = v` on cells that show `d`. */
    static method Record(ghost t: Topology, a: array2<int>, ghost d: Board, c: Cell, v: int) returns (ghost d': Board)
      requires Shows(a, t, d) && Inside(t, c)
      modifies a
      ensures d' == Paint(t, d, c, v) && Shows(a, t, d')
    {
      a[c.x, c.y] := v;
      d' := Paint(t, d, c, v);
    }

    /** Direction `i` of a turn on `cur`, whose distance is `currentDist`. */
    static method DistanceStep(t: Topology, m: array2<int>, ghost g: Board, a: array2<int>, ghost d0: Board, obs: int,
                               queue: seq<Cell>, cur: Cell, i: nat, currentDist: int)
      returns (q: seq<Cell>, ghost d: Board)
      requires m != a && Shows(m, t, g) && Shows(a, t, d0) && Inside(t, cur) && i < 4
      requires At(t, d0, cur) == currentDist
      modifies a
      ensures Shows(a, t, d) && (d, q) == DistStep(t, g, obs, d0, queue, cur, FillTable, i)
    {
      UnitDirections(i);
      var n := FillStep(t, cur.x, cur.y, FillDX[i], FillDY[i]);
      assert cur == Cell(cur.x, cur.y);
      if n.Some? && m[n.value.x, n.value.y] != obs && a[n.value.x, n.value.y] == Unreached {
        var next := n.value;
        d := Record(t, a, d0, next, currentDist + 1);
        q := queue + [next];
      } else {
        q, d := queue, d0;
      }
    }
  }
}

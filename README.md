# Ex_3 raster map and Pacman engine in Dafny

This project models the core of the Ex_3 Java repository:

- **`MyMap2D`**: a mutable `W`-by-`H` raster of `int` cells indexed `_map[x][y]`, with a wrap-around flag. It offers construction from a fill value or from a rectangular array, bounds-checked `getPixel`/`setPixel`, a queue-driven flood fill, a breadth-first shortest path with a parents table and path reconstruction, and an all-distances map in which `-1` marks an unreached cell.
- **The pixel classes `Index2D` and `PointInt2D`**: immutable `int` pairs with equality by coordinates across both classes, the hash `31*x + y`, and the text `"x,y"`. `Index2D` can also be built back from that text.
- **`PacmanGameImpl`**: a turn-based engine on a fixed 22-by-21 board.
  - Its status is INIT, PLAY or DONE (the literals 0, 1 and 3).
  - It keeps a score, the dots left, a step count and a kill count.
  - Pacman moves with wrap-around or clamping, eats food and power pellets, and collides with ghosts.
  - A ghost (`GhostCL`) is modelled as a record of position, status, type and edible time, the fields of src/exe/ex3/mygame/GhostCL.java:38-41 set by its constructor (lines 68-73) and by `setPos` (lines 115-121).

The files:

| file | module | what it holds |
|---|---|---|
| `wrappers.dfy` | `Wrappers` | `Option`, `Result`, `Outcome` |
| `java_int.dfy` | `JavaInt` | 32-bit `int` wrap-around, Java's `%`, `Integer.toString`, `Integer.parseInt`, `String.trim` |
| `pixel.dfy` | `Pixel` | the `Pixel2D` interface: `equals`, `hashCode`, `toString`, shared by both classes |
| `index2d.dfy` | `Index` | `Index2D`'s constructors: default, copy, and the `"x,y"` parser |
| `pointint2d.dfy` | `PointInt` | `PointInt2D`'s constructors and their properties |
| `raster_spec.dfy` | `RasterSpec` | the neighbour rule shared by the three algorithms, walks, reachability, what a flood fill must do, and the invariant of `fill`'s loop |
| `distance_spec.dfy` | `DistanceSpec` | what a distance map is, and the invariant of the breadth-first loop |
| `path_spec.dfy` | `PathSpec` | `shortestPath`'s parents table, its invariant, and the chain read back from it |
| `my_map2d.dfy` | `Raster` | `class MyMap2D` over an `array2<int>`; every method is proved against the value-level modules |
| `pacman_rules.dfy` | `PacmanRules` | the game on values: the initial board, one turn of `move` as a function, and the game invariant `Sound` with its preservation lemmas |
| `pacman_game.dfy` | `PacmanGame` | `class PacmanGameImpl` with the engine's fields; every method ensures that the new state is the rule function of the old state |

How the model is organised:

- **Imperative code stays imperative.** The loops of `init`, `getMap`, `fill`, `shortestPath`, `allDistance`, `initMap`, the dot count and `move` are `while` or `for` loops over arrays and over the ghost sequence.
  - Each loop carries an invariant stated over the value-level functions.
  - The breadth-first loops are bounded by the number of cells still unvisited or unpainted.
- **Randomness is an input.** Every ghost's direction `_rand.nextInt(4)` is passed to `Move` as `ghostDirs`, one value per ghost.
- **The clock is an input.** The time `log` reads is a parameter `now` of `Init`, `End` and `Log`.

## Model

| member | source | states |
|---|---|---|
| `Pixel.EqualsIsEquivalence` | src/assignments/Ex3/PointInt2D.java:69-75 | `equals` on pixels is reflexive, symmetric and transitive |
| `Pixel.Equals` | src/assignments/Ex3/Index2D.java:73-80 | defined by its body: the object is a pixel of either class with the same `x` and `y`; `EqualsIsEquivalence`, `EqualsIffSameText` and `EqualPixelsHashEqually` carry its properties |
| `Pixel.EqualsIffSameText` | src/assignments/Ex3/Index2D.java:68-80 | two pixels are equal exactly when their texts are equal |
| `Pixel.HashCode` | src/assignments/Ex3/Index2D.java:83-86 | defined by its body: `31 * x + y` wrapped to 32 bits; `EqualPixelsHashEqually`, `HashCollisions` and `PointInt.HashCodeWraps` carry its properties |
| `Pixel.HashCollisions` | src/assignments/Ex3/Index2D.java:83-86 | different pixels can share a hash, contrary to the comment on line 84: `(1, 0)` and `(0, 31)` both hash to 31, and `(0, 0)` and `(2^31 - 1, -(2^31 - 31))` both hash to 0 |
| `Pixel.ToString` | src/assignments/Ex3/Index2D.java:68-71 | defined by its body: decimal `x`, a comma, decimal `y`; `ToStringShape`, `ToStringInjective` and `Index.ParseToString` carry its properties |
| `Pixel.EqualPixelsHashEqually` | src/assignments/Ex3/Index2D.java:83-86 | equal pixels have equal hash codes |
| `Pixel.ToStringShape` | src/assignments/Ex3/Index2D.java:68-71 | the text is the decimal `x`, then the only comma, then the decimal `y` |
| `Pixel.ToStringInjective` | src/assignments/Ex3/PointInt2D.java:64-66 | two pixels with the same text have the same coordinates |
| `Index.Default` | src/assignments/Ex3/Index2D.java:11-13 | `new Index2D()` is an `Index2D` equal to the point `(0, 0)` |
| `Index.Copy` | src/assignments/Ex3/Index2D.java:23-29 | the copy constructor throws exactly for null; otherwise it gives an `Index2D` equal to its argument |
| `Index.SplitAll` | src/assignments/Ex3/Index2D.java:40 | the pieces between commas hold no comma, and there is at least one |
| `Index.JoinSplitAll` | src/assignments/Ex3/Index2D.java:40 | splitting loses only the commas: joining the pieces with commas gives the text back |
| `Index.DropTrailingEmpty` | src/assignments/Ex3/Index2D.java:40 | `split` keeps a prefix of the pieces that does not end in an empty piece, and every piece it drops is empty |
| `Index.Split` | src/assignments/Ex3/Index2D.java:40 | defined by its body: the comma pieces without the trailing empty ones; `SplitAll`, `JoinSplitAll` and `DropTrailingEmpty` carry its properties |
| `Index.Parse` | src/assignments/Ex3/Index2D.java:35-46 | null throws `NullArgument`; text without a comma throws `BadPositionString`; a success is an `Index2D` whose `x` and `y` are `parseInt` of the first two trimmed comma-separated pieces |
| `Index.ParsePieces` | src/assignments/Ex3/Index2D.java:39-42 | conversely, text with a comma whose first two pieces parse as `int`s is read as those two numbers |
| `Index.ParseToString` | src/assignments/Ex3/Index2D.java:35-46 | round trip: `new Index2D(p.toString())` is an `Index2D` with `p`'s coordinates and equals `p`, for every `int` pair and for both classes |
| `Index.ParsePlain` | src/assignments/Ex3/Index2D.java:35-46 | `"12,5"` reads as `(12, 5)` |
| `Index.ParseBlanks` | src/assignments/Ex3/Index2D.java:41-42 | the pieces are trimmed: `" -3 , 7 "` reads as `(-3, 7)` |
| `Index.ParseThreePieces` | src/assignments/Ex3/Index2D.java:40-42 | a third piece is ignored: `"1,2,3"` reads as `(1, 2)` |
| `Index.ParseNoComma` | src/assignments/Ex3/Index2D.java:36-38 | `"12"` throws |
| `Index.ParseMissingSecond` | src/assignments/Ex3/Index2D.java:39-45 | `"5,"` throws, because `split` drops the empty second piece |
| `Index.ParseNotNumbers` | src/assignments/Ex3/Index2D.java:43-45 | `"a,b"` throws |
| `PointInt.Default` | src/assignments/Ex3/PointInt2D.java:20-22 | `new PointInt2D()` is `(0, 0)` and equals `new Index2D(0, 0)` |
| `PointInt.Copy` | src/assignments/Ex3/PointInt2D.java:35-41 | the copy constructor throws exactly for null; otherwise the new point and the original are equal both ways |
| `PointInt.ToStringExamples` | src/assignments/Ex3/PointInt2D.java:64-66 | `"3,4"`, `"0,0"` and `"-5,-12"` for the matching points |
| `PointInt.HashCodeExamples` | src/assignments/Ex3/PointInt2D.java:78-80 | `(3, 4)` hashes to 97, `(0, 0)` to 0 and `(1, 0)` to 31; the hash matches `Index2D`'s at the same coordinates |
| `PointInt.HashCodeWraps` | src/assignments/Ex3/PointInt2D.java:78-80 | `31 * x` wraps like a Java `int`: `(2^31 - 1, 0)` hashes to `2^31 - 31` |
| `JavaInt.Wrap32` | src/assignments/Ex3/PointInt2D.java:79 | the wrapped result differs from the exact result by a multiple of `2^32`, and equals it when it fits an `int` |
| `JavaInt.WrapIdiomsAgree` | src/assignments/Ex3/MyMap2D.java:288-289 | on the coordinates a step can produce, `((n % d) + d) % d` and `(n + d) % d` with Java's `%` both give the remainder in `[0, d)` |
| `JavaInt.FloorModIsMod` | src/exe/ex3/mygame/PacmanGameImpl.java:266-267 | Java's `((n % d) + d) % d` is the mathematical remainder of `n` by `d`, in `[0, d)` whatever the sign of `n`, and `n` itself on `[0, d)` |
| `JavaInt.ParseDecimalString` | src/assignments/Ex3/Index2D.java:41-42 | `Integer.parseInt(Integer.toString(n))` is `n` for every `int` |
| `JavaInt.DecimalStringIsPlain` | src/assignments/Ex3/Index2D.java:69-71 | decimal text is nonempty and holds no comma and nothing `trim` removes |
| `JavaInt.ParseInt` | src/assignments/Ex3/Index2D.java:41-42 | `Integer.parseInt` succeeds only on nonempty text; otherwise defined by its body (an optional sign, ASCII digits, a value that fits an `int`); `ParseDecimalString` carries its round trip |
| `JavaInt.Trim` | src/assignments/Ex3/Index2D.java:41-42 | `String.trim` never lengthens the text; otherwise defined by its body; `DecimalStringIsPlain` says it leaves decimal text alone |
| `JavaInt.DecimalString` | src/assignments/Ex3/Index2D.java:69-70 | defined by its body: `Integer.toString`, a minus sign for a negative value and then the digits; `ParseDecimalString` and `DecimalStringIsPlain` carry its properties |
| `RasterSpec.UnitDirections` | src/assignments/Ex3/MyMap2D.java:312-313 | every entry of both direction tables is a step of at most one along each axis |
| `RasterSpec.WrapIsFloorMod` | src/assignments/Ex3/MyMap2D.java:226-227 | `shortestPath`'s `(nx + W) % W` and the floored modulus of `fill` and `allDistance` compute the same wrap-around one step off the grid |
| `RasterSpec.Step` | src/assignments/Ex3/MyMap2D.java:316-324 | a step from an inside cell is dropped or lands inside the grid |
| `RasterSpec.AdjacentMeans` | src/assignments/Ex3/MyMap2D.java:315-327 | two cells are neighbours exactly when they share a row or column and are one apart, wrapping across the edges on a cyclic grid |
| `RasterSpec.AdjacentSymmetric` | src/assignments/Ex3/MyMap2D.java:315-327 | neighbourhood is symmetric on bounded and on cyclic grids |
| `RasterSpec.DirectionTablesCoverNeighbours` | src/assignments/Ex3/MyMap2D.java:217-218 | both direction tables step only to neighbours, and each reaches every neighbour |
| `RasterSpec.FillRegionIsComponent` | src/assignments/Ex3/MyMap2D.java:170-191 | the fill region holds `p` and only cells with `p`'s value, no step through such cells leaves it, and it lies inside every set with those properties: it is the connected component |
| `RasterSpec.FillChangesRegionOnly` | src/assignments/Ex3/MyMap2D.java:170-191 | a fill changes exactly the region's cells, each from the old value to the new one, and counts them; the count is at least 1 |
| `RasterSpec.FillIdempotent` | src/assignments/Ex3/MyMap2D.java:160-168 | a second identical fill changes nothing and returns 0 |
| `RasterSpec.FillNeighborsExact` | src/assignments/Ex3/MyMap2D.java:311-328 | `addFillNeighbors` appends exactly the neighbours holding the old value |
| `RasterSpec.FillSetIsRegion` | src/assignments/Ex3/MyMap2D.java:174-188 | a set that holds the start, holds only cells reachable from it, and is closed under old-valued neighbours is the fill region |
| `RasterSpec.Paint` | src/assignments/Ex3/MyMap2D.java:126 | writing a cell changes that cell to `v` and no other |
| `RasterSpec.FillProgressStart` | src/assignments/Ex3/MyMap2D.java:170-172 | an empty filled set and the queue `[p]` satisfy the fill loop's invariant |
| `RasterSpec.FillTurn` | src/assignments/Ex3/MyMap2D.java:174-188 | one turn keeps the fill invariant; painting a cell adds it to the filled set, one cell closer to the whole grid |
| `RasterSpec.FillSkip` | src/assignments/Ex3/MyMap2D.java:179-181 | polling a cell that no longer holds the old value keeps the invariant |
| `RasterSpec.FrontierAfterFill` | src/assignments/Ex3/MyMap2D.java:183-187 | painting the polled cell and queueing its old-valued neighbours keeps every old-valued neighbour of a filled cell filled or queued |
| `RasterSpec.FillProgressDone` | src/assignments/Ex3/MyMap2D.java:174-190 | when the queue is empty, the board is the filled board and the count is what `fill` returns |
| `DistanceSpec.Discovered` | src/assignments/Ex3/MyMap2D.java:292-293 | a discovered cell is an inside neighbour that holds no obstacle and is still unreached |
| `DistanceSpec.ReachedByWalk` | src/assignments/Ex3/MyMap2D.java:276-299 | a reached cell's value is the length of some walk to it, avoiding the obstacle |
| `DistanceSpec.DistanceMapMeansReachable` | src/assignments/Ex3/MyMap2D.java:262-303 | in a distance map, a cell is reached exactly when a walk avoiding the obstacle leads to it, and its value is the length of such a walk |
| `DistanceSpec.DistStart` | src/assignments/Ex3/MyMap2D.java:269-271 | the all `-1` map with start set to 0 and the queue `[start]` satisfy the loop invariant |
| `DistanceSpec.DistPoll` | src/assignments/Ex3/MyMap2D.java:276-280 | the polled cell is inside and reached, and its turn begins with the invariant |
| `DistanceSpec.DistStepKeeps` | src/assignments/Ex3/MyMap2D.java:282-297 | each direction of a turn keeps the invariant |
| `DistanceSpec.DistFoundKeeps` | src/assignments/Ex3/MyMap2D.java:293-296 | so does a direction that discovers a neighbour, gives it the current distance plus one and queues it |
| `DistanceSpec.DistNotFoundKeeps` | src/assignments/Ex3/MyMap2D.java:292-293 | so does a direction that discovers nothing |
| `DistanceSpec.PaintKeepsSupport` | src/assignments/Ex3/MyMap2D.java:294 | giving a newly reached neighbour the current distance plus one keeps every reached cell backed by a neighbour one closer |
| `DistanceSpec.PaintReachesOneMore` | src/assignments/Ex3/MyMap2D.java:294 | that write leaves one unreached cell fewer |
| `DistanceSpec.DistStepProgress` | src/assignments/Ex3/MyMap2D.java:292-296 | a direction leaves the polled cell's distance alone, and either reaches one more cell or changes nothing |
| `DistanceSpec.DistVisitDone` | src/assignments/Ex3/MyMap2D.java:282-298 | after the four directions of a turn, the loop invariant holds again for the rest of the queue |
| `DistanceSpec.DistDone` | src/assignments/Ex3/MyMap2D.java:276-299 | an empty queue leaves a distance map |
| `PathSpec.SetParent` | src/assignments/Ex3/MyMap2D.java:231 | `parents[nx][ny] = curr` changes that entry and no other |
| `PathSpec.NoParents` | src/assignments/Ex3/MyMap2D.java:207 | a fresh parents table is null everywhere |
| `PathSpec.PathStart` | src/assignments/Ex3/MyMap2D.java:209-210 | after `parents[p1] = p1` and `queue.add(p1)`, the parents agree with the discovery depths |
| `PathSpec.ParentStepKeeps` | src/assignments/Ex3/MyMap2D.java:230-237 | each direction keeps the parents in agreement with the depths, and gives the goal a parent exactly when it discovers the goal |
| `PathSpec.NotFoundUnreachable` | src/assignments/Ex3/MyMap2D.java:243 | an empty queue with no parent for `p2` means no walk avoiding the obstacle reaches `p2` |
| `PathSpec.ChainIsWalk` | src/assignments/Ex3/MyMap2D.java:245-251 | the chain of parents back from a discovered cell is a walk from `p1` to that cell |
| `PathSpec.ChainStep` | src/assignments/Ex3/MyMap2D.java:247-249 | a discovered cell other than `p1` has a discovered parent one shallower, and unwinding one step keeps the chain followed by the unwound pixels unchanged |
| `PathSpec.ChainUnfold` | src/assignments/Ex3/MyMap2D.java:247-249 | a discovered cell other than `p1` has an inside, discovered parent one shallower, and its chain is the parent's chain followed by the cell |
| `Raster.MyMap2D.Empty` | src/assignments/Ex3/MyMap2D.java:24-27 | `new MyMap2D()` has no cells and is not cyclic |
| `Raster.MyMap2D.IsValidCoordinate` | src/assignments/Ex3/MyMap2D.java:307-309 | a coordinate is valid exactly when the cell is inside the grid |
| `Raster.MyMap2D.FillStep` | src/assignments/Ex3/MyMap2D.java:316-324 | the wrap-or-discard of `fill` and `allDistance` is the shared step rule |
| `Raster.MyMap2D.IsInside` | src/assignments/Ex3/MyMap2D.java:138-141 | false for null; otherwise the pixel's cell is inside the grid |
| `Raster.MyMap2D.SetCyclic` | src/assignments/Ex3/MyMap2D.java:149-151 | the flag becomes `cy`, and `isCyclic()` returns it |
| `Raster.MyMap2D.Init` | src/assignments/Ex3/MyMap2D.java:40-52 | throws, changing nothing, unless both sizes are positive; otherwise a fresh `w`-by-`h` grid with every cell `v`, not cyclic |
| `Raster.MyMap2D.InitFrom` | src/assignments/Ex3/MyMap2D.java:55-76 | throws, changing nothing, for a null or empty array, a null first row, or a ragged array; otherwise a fresh grid equal to the array cell by cell, not cyclic |
| `Raster.MyMap2D.Create` | src/assignments/Ex3/MyMap2D.java:29-31 | `new MyMap2D(w, h, v)` throws for a size below 1 and otherwise is the grid of `init` |
| `Raster.MyMap2D.CreateFrom` | src/assignments/Ex3/MyMap2D.java:33-35 | `new MyMap2D(arr)` throws when `init(arr)` throws and otherwise is an independent copy of `arr` |
| `Raster.MyMap2D.GetMap` | src/assignments/Ex3/MyMap2D.java:81-91 | null for a map never initialised; otherwise a fresh array of the same size equal to the cells |
| `Raster.MyMap2D.GetPixel` | src/assignments/Ex3/MyMap2D.java:106-111 | succeeds exactly inside the grid, with the cell's value, and throws `OutOfBounds` otherwise |
| `Raster.MyMap2D.GetPixelAt` | src/assignments/Ex3/MyMap2D.java:114-117 | throws for null; otherwise is `getPixel(p.x, p.y)`; succeeds exactly when the pixel is inside |
| `Raster.MyMap2D.SetPixel` | src/assignments/Ex3/MyMap2D.java:122-127 | succeeds exactly inside the grid and then changes exactly that cell to `v`; otherwise throws and changes nothing |
| `Raster.MyMap2D.SetPixelAt` | src/assignments/Ex3/MyMap2D.java:130-133 | throws, changing nothing, for null or an outside pixel; otherwise changes exactly that cell |
| `Raster.MyMap2D.AddFillNeighbors` | src/assignments/Ex3/MyMap2D.java:311-328 | appends to the queue the in-table-order steps that land on a cell holding the old value |
| `Raster.MyMap2D.FillVisit` | src/assignments/Ex3/MyMap2D.java:175-187 | painting a polled old-valued cell and queueing its neighbours keeps the fill invariant and fills one more cell |
| `Raster.MyMap2D.FillPoll` | src/assignments/Ex3/MyMap2D.java:175-188 | one turn of the queue loop keeps the fill invariant and the count as the size of the filled set, and either fills one more cell or shortens the queue |
| `Raster.MyMap2D.Fill` | src/assignments/Ex3/MyMap2D.java:160-191 | returns 0 and changes nothing for a null or outside pixel; otherwise the board becomes the filled board of the pixel's component, unchanged when the cell already holds the new value, and the result is the number of cells the fill changes |
| `Raster.MyMap2D.FillFrom` | src/assignments/Ex3/MyMap2D.java:170-190 | the queue loop leaves the filled board and returns the region's size |
| `Raster.MyMap2D.ShortestPath` | src/assignments/Ex3/MyMap2D.java:198-254 | null exactly when an endpoint is null or outside, an endpoint holds the obstacle, or no walk avoiding it reaches `p2`; otherwise a path from `p1` to `p2` through neighbours holding no obstacle; `[p1]` when the endpoints are equal |
| `Raster.MyMap2D.PathBetween` | src/assignments/Ex3/MyMap2D.java:204-253 | for two different endpoints, null exactly when `p2` is unreachable, and otherwise a path between them |
| `Raster.MyMap2D.PathNeighbour` | src/assignments/Ex3/MyMap2D.java:221-228 | `shortestPath`'s `(nx + W) % W` step is the shared step rule |
| `Raster.MyMap2D.PathSearch` | src/assignments/Ex3/MyMap2D.java:212-240 | the search loop keeps the parents in agreement with the depths; it stops with `found` exactly when `p2` has a parent, and otherwise with every reachable cell discovered |
| `Raster.MyMap2D.PathVisit` | src/assignments/Ex3/MyMap2D.java:214-239 | one turn keeps that agreement and either discovers a cell or changes nothing |
| `Raster.MyMap2D.RecordParent` | src/assignments/Ex3/MyMap2D.java:231 | the array write is `SetParent` on the table it shows |
| `Raster.MyMap2D.PathStep` | src/assignments/Ex3/MyMap2D.java:221-238 | one direction updates depths, queue and parents as the value-level step does, and sets `found` exactly when it discovers `p2` |
| `Raster.MyMap2D.Reconstruct` | src/assignments/Ex3/MyMap2D.java:245-253 | the reconstructed path's cells are the chain of parents from `p1` to `p2`; it starts with `p1`, ends with `p2`, and every pixel in between is an `Index2D` |
| `Raster.MyMap2D.UnwindAll` | src/assignments/Ex3/MyMap2D.java:246-250 | the `addFirst` loop stops at `p1`'s cell with the unwound pixels as the rest of the chain |
| `Raster.MyMap2D.UnwoundAll` | src/assignments/Ex3/MyMap2D.java:251 | once the loop is back at `p1`'s cell, `p1` followed by the unwound pixels is the whole chain, and the unwound pixels end with `p2` |
| `Raster.MyMap2D.Unwound` | src/assignments/Ex3/MyMap2D.java:246-251 | `p1` followed by the unwound pixels is the chain from `p1` to `p2`, at least two long, starts with `p1`, ends with `p2`, and holds only `Index2D`s in between |
| `Raster.MyMap2D.Unwind` | src/assignments/Ex3/MyMap2D.java:248-249 | one `addFirst` and one parent lookup keep the chain and move one step shallower |
| `Raster.MyMap2D.AllDistance` | src/assignments/Ex3/MyMap2D.java:262-303 | throws for a zero-size map; otherwise returns a fresh map of the same size, all `-1` and not cyclic for a null or outside start, else a distance map for the start that copies the cyclic flag |
| `Raster.MyMap2D.DistancesFrom` | src/assignments/Ex3/MyMap2D.java:269-302 | sets the start to 0, runs the loop, and copies the cyclic flag, leaving a distance map |
| `Raster.MyMap2D.DistanceFrom` | src/assignments/Ex3/MyMap2D.java:276-299 | the queue loop turns the invariant at `[start]` into a distance map |
| `Raster.MyMap2D.DistanceVisit` | src/assignments/Ex3/MyMap2D.java:277-298 | one turn keeps the invariant and either reaches a cell or leaves everything unchanged |
| `Raster.MyMap2D.Record` | src/assignments/Ex3/MyMap2D.java:294 | the array write is `Paint` on the board it shows |
| `Raster.MyMap2D.DistanceStep` | src/assignments/Ex3/MyMap2D.java:283-297 | one direction updates distances and queue as the value-level step does |
| `PacmanRules.SetCell` | src/exe/ex3/mygame/PacmanGameImpl.java:286 | writing a board cell changes that cell and no other |
| `PacmanRules.Layout` | src/exe/ex3/mygame/PacmanGameImpl.java:148-183 | the initial board has the engine's size and each cell is the one `initMap` writes |
| `PacmanRules.InitialColumnCount` | src/exe/ex3/mygame/PacmanGameImpl.java:152-182 | the FOOD cells per column of the initial board: none in the border columns, 17 in the pellet and start columns, 18 across the divider, 19 elsewhere |
| `PacmanRules.InitialFood` | src/exe/ex3/mygame/PacmanGameImpl.java:112-119 | the initial board holds 362 FOOD cells |
| `PacmanRules.InitialCellsKnown` | src/exe/ex3/mygame/PacmanGameImpl.java:148-183 | every initial cell is WALL, FOOD, EMPTY or a power pellet, and the start cell `(11, 14)` is EMPTY |
| `PacmanRules.EatOne` | src/exe/ex3/mygame/PacmanGameImpl.java:285-286 | emptying a FOOD cell leaves one FOOD cell fewer |
| `PacmanRules.EatNone` | src/exe/ex3/mygame/PacmanGameImpl.java:295 | emptying a cell without FOOD leaves the count alone |
| `PacmanRules.Bound` | src/exe/ex3/mygame/PacmanGameImpl.java:264-272 | the coordinate lies on the axis; one already on it is unchanged; on a cyclic board it is `v mod n`; otherwise below 0 becomes 0 and past the end becomes `n - 1` |
| `PacmanRules.PacmanTarget` | src/exe/ex3/mygame/PacmanGameImpl.java:237-272 | the cell Pacman tries to enter is on the board |
| `PacmanRules.Frightened` | src/exe/ex3/mygame/PacmanGameImpl.java:298-301 | every ghost becomes edible for 10, nothing else about it changes |
| `PacmanRules.MovePacman` | src/exe/ex3/mygame/PacmanGameImpl.java:237-303 | Pacman's step keeps every coordinate on the board and leaves steps, kills, topology and the number of ghosts alone |
| `PacmanRules.Enter` | src/exe/ex3/mygame/PacmanGameImpl.java:276-302 | entering a cell keeps every coordinate on the board and leaves steps, kills, direction and topology alone |
| `PacmanRules.GhostMove` | src/exe/ex3/mygame/PacmanGameImpl.java:352-385 | a ghost stays on the board and keeps its status, type and edible time |
| `PacmanRules.MoveGhosts` | src/exe/ex3/mygame/PacmanGameImpl.java:308-310 | every ghost is moved in its own direction |
| `PacmanRules.CollideUpTo` | src/exe/ex3/mygame/PacmanGameImpl.java:313-329 | the collision loop changes only kills, score, status and the ghosts |
| `PacmanRules.CollideOne` | src/exe/ex3/mygame/PacmanGameImpl.java:314-328 | defined by its body: one ghost's collision check; `CollideOutcome`, `CollideScore` and `CollideKeepsSound` carry its properties |
| `PacmanRules.Moved` | src/exe/ex3/mygame/PacmanGameImpl.java:237-310 | Pacman's step, the step count and the ghosts' steps keep every coordinate on the board |
| `PacmanRules.Turn` | src/exe/ex3/mygame/PacmanGameImpl.java:231-332 | defined by its body: nothing unless the game is being played, otherwise Pacman's step, the ghosts' steps and the collisions; `TurnKeepsSound`, `TurnSteps`, `TurnEnds` and `TurnScore` carry its properties |
| `PacmanRules.NewGame` | src/exe/ex3/mygame/PacmanGameImpl.java:89-131 | defined by its body: the state `init` leaves; `NewGameSound` and `PacmanGame.PacmanGameImpl.Init` carry its properties |
| `PacmanRules.Play` | src/exe/ex3/mygame/PacmanGameImpl.java:195-203 | defined by its body: status PLAY unless DONE; `PlayKeepsSound` carries its properties |
| `PacmanRules.End` | src/exe/ex3/mygame/PacmanGameImpl.java:451-454 | defined by its body: status DONE; `EndKeepsSound` carries its properties |
| `PacmanRules.NewGameSound` | src/exe/ex3/mygame/PacmanGameImpl.java:89-131 | the game `init` leaves satisfies the game invariant: the walls of the initial board, known cells, Pacman on an empty cell, `dots` the number of FOOD cells |
| `PacmanRules.PlayKeepsSound` | src/exe/ex3/mygame/PacmanGameImpl.java:195-203 | `play` keeps the invariant; the status becomes PLAY unless it was DONE |
| `PacmanRules.EndKeepsSound` | src/exe/ex3/mygame/PacmanGameImpl.java:451-454 | `end` keeps the invariant and the status becomes DONE |
| `PacmanRules.MovePacmanEffect` | src/exe/ex3/mygame/PacmanGameImpl.java:274-303 | Pacman enters the target exactly when it is no wall; the cell is emptied and its points scored; FOOD costs one dot; a pellet frightens every ghost; a blocked step changes only the facing angle; the invariant holds after |
| `PacmanRules.CollideOutcome` | src/exe/ex3/mygame/PacmanGameImpl.java:313-329 | exactly the edible ghosts on Pacman's cell are respawned at `(10, 10)` as dangerous, and the status becomes DONE when a ghost that is not edible shares Pacman's cell and is unchanged otherwise |
| `PacmanRules.CollideScore` | src/exe/ex3/mygame/PacmanGameImpl.java:320-324 | each ghost eaten adds one kill and 200 points |
| `PacmanRules.CollideKeepsSound` | src/exe/ex3/mygame/PacmanGameImpl.java:313-329 | the collision loop keeps the invariant |
| `PacmanRules.MovePacmanEnds` | src/exe/ex3/mygame/PacmanGameImpl.java:288-291 | Pacman's step ends a game being played exactly when it eats the last dot |
| `PacmanRules.MovedSound` | src/exe/ex3/mygame/PacmanGameImpl.java:274-310 | the moves of a turn keep the invariant, and beside Pacman's step change only the step count and the ghosts |
| `PacmanRules.TurnKeepsSound` | src/exe/ex3/mygame/PacmanGameImpl.java:231-332 | a whole turn keeps the invariant, so Pacman never stands on a wall |
| `PacmanRules.TurnSteps` | src/exe/ex3/mygame/PacmanGameImpl.java:233-305 | a turn changes nothing unless the game is being played, and otherwise counts exactly one step |
| `PacmanRules.GhostAvoidsWalls` | src/exe/ex3/mygame/PacmanGameImpl.java:381-384 | a ghost stays put or moves to its open target cell |
| `PacmanRules.TurnEnds` | src/exe/ex3/mygame/PacmanGameImpl.java:288-329 | a turn ends a game being played exactly when the last dot is eaten or, after the ghosts move, a dangerous ghost shares Pacman's cell |
| `PacmanRules.TurnScore` | src/exe/ex3/mygame/PacmanGameImpl.java:282-324 | a turn scores the points of the cell entered plus 200 per ghost eaten, and counts one kill per ghost eaten |
| `PacmanGame.PacmanGameImpl.constructor` | src/exe/ex3/mygame/PacmanGameImpl.java:57-67 | nothing counted, no ghosts, cyclic, status INIT, facing 0, and neither a position nor a map |
| `PacmanGame.PacmanGameImpl.IsValidMove` | src/exe/ex3/mygame/PacmanGameImpl.java:394-402 | true only on the map, and on a map of the engine's size exactly for the cells that are no wall |
| `PacmanGame.PacmanGameImpl.Log` | src/exe/ex3/mygame/PacmanGameImpl.java:477-485 | the empty string exactly when the game is not over |
| `PacmanGame.PacmanGameImpl.Init` | src/exe/ex3/mygame/PacmanGameImpl.java:89-131 | a valid game equal to the new game: level clamped to 2 outside 0..4, the user id stored as given (null included, which `log` prints as `null`), Pacman at `(11, 14)`, counters 0, status INIT, a fresh 22-by-21 initial map, 362 dots, the six ghosts; it returns `""` |
| `PacmanGame.PacmanGameImpl.Reset` | src/exe/ex3/mygame/PacmanGameImpl.java:93-106 | the level clamp, the user id as given, and the scalar fields `init` resets |
| `PacmanGame.PacmanGameImpl.LoadMap` | src/exe/ex3/mygame/PacmanGameImpl.java:109-119 | a fresh map equal to the initial board, and `dots` its number of FOOD cells |
| `PacmanGame.PacmanGameImpl.InitMap` | src/exe/ex3/mygame/PacmanGameImpl.java:148-183 | the array built is 22 by 21 and equal to the initial board |
| `PacmanGame.PacmanGameImpl.FillFood` | src/exe/ex3/mygame/PacmanGameImpl.java:152-156 | every cell becomes FOOD |
| `PacmanGame.PacmanGameImpl.DrawBorder` | src/exe/ex3/mygame/PacmanGameImpl.java:159-168 | the border cells become WALL and the rest stay FOOD |
| `PacmanGame.PacmanGameImpl.DrawDivider` | src/exe/ex3/mygame/PacmanGameImpl.java:171-173 | row 10 becomes WALL from column 5 to 17, the rest unchanged |
| `PacmanGame.PacmanGameImpl.CountFood` | src/exe/ex3/mygame/PacmanGameImpl.java:112-119 | the count is the number of FOOD cells of the map |
| `PacmanGame.PacmanGameImpl.Play` | src/exe/ex3/mygame/PacmanGameImpl.java:195-203 | status becomes PLAY unless it was DONE, which stays; a valid game stays valid |
| `PacmanGame.PacmanGameImpl.End` | src/exe/ex3/mygame/PacmanGameImpl.java:451-454 | status becomes DONE and the record of `log` is returned; a valid game stays valid |
| `PacmanGame.PacmanGameImpl.Move` | src/exe/ex3/mygame/PacmanGameImpl.java:231-332 | the new state is one turn of the rules applied to the old state, the game stays valid, and the result is Pacman's position as text |
| `PacmanGame.PacmanGameImpl.Advance` | src/exe/ex3/mygame/PacmanGameImpl.java:237-329 | the turn of a game being played, Pacman's step through the collisions |
| `PacmanGame.PacmanGameImpl.StepPacman` | src/exe/ex3/mygame/PacmanGameImpl.java:237-303 | the new state is Pacman's step of the rules |
| `PacmanGame.PacmanGameImpl.Face` | src/exe/ex3/mygame/PacmanGameImpl.java:248-260 | the facing angle for the direction code and the one-step target before bounding |
| `PacmanGame.PacmanGameImpl.EnterCell` | src/exe/ex3/mygame/PacmanGameImpl.java:275-303 | the new state is Pacman entering the cell under the rules |
| `PacmanGame.PacmanGameImpl.EatFood` | src/exe/ex3/mygame/PacmanGameImpl.java:282-291 | 10 points, one dot fewer, the cell emptied, and DONE on the last dot |
| `PacmanGame.PacmanGameImpl.EatPellet` | src/exe/ex3/mygame/PacmanGameImpl.java:292-301 | 100 points, the cell emptied, every ghost frightened |
| `PacmanGame.PacmanGameImpl.Frighten` | src/exe/ex3/mygame/PacmanGameImpl.java:298-301 | the loop makes every ghost edible for 10 |
| `PacmanGame.PacmanGameImpl.MoveGhost` | src/exe/ex3/mygame/PacmanGameImpl.java:352-385 | the ghost after its step in direction `d` is the rules' ghost step |
| `PacmanGame.PacmanGameImpl.MoveAllGhosts` | src/exe/ex3/mygame/PacmanGameImpl.java:308-310 | the loop moves every ghost in its own direction |
| `PacmanGame.PacmanGameImpl.CollideAll` | src/exe/ex3/mygame/PacmanGameImpl.java:313-329 | the loop's new state is the rules' collision loop over all ghosts |
| `PacmanGame.PacmanGameImpl.CollideWith` | src/exe/ex3/mygame/PacmanGameImpl.java:314-328 | one ghost's collision check: eaten when edible on Pacman's cell, game over when dangerous there |

## Left out

- `Raster.MyMap2D.ShortestPath`: the path is proved to be a walk from `p1` to `p2` through cells holding no obstacle. It is not proved to be the shortest such walk, although the breadth-first order makes it so.
- `Raster.MyMap2D.AllDistance`: each reached value is proved to be the length of a walk, with a neighbour one closer. It is not proved to be the least such length.
- `PacmanRules.MovePacmanEffect`: the score is stated only when it does not overflow. The state functions themselves wrap every counter like a Java `int`.
- `PacmanRules.CollideScore`: kills and score are stated only when they do not overflow.
- `PacmanRules.TurnScore`: kills and score are stated only when they do not overflow.
- `distance2D` of both pixel classes is not modelled, because it is floating-point `Math.sqrt`.
- `java.util.Random` and the `seed` parameter of `init` are replaced by the explicit ghost directions given to `Move`.
- `init`'s `dt`, `res` and `extra` parameters are unused by the engine and are not modelled.
- The clock is not modelled. `play` records `_startTime`, and `getTimeFromStart` and `getData` read the clock and format with `String.format`. `log` is modelled with the time as a parameter, `%d` being `Integer.toString`.
- `getGame` returns the engine's own array, so a caller can change the board behind the engine. This aliasing is not modelled.
- `getGhosts` and `getKeyChar` are not modelled. Nothing in the engine ever sets `_lastKeyChar`.
- `getStatus`, `getPos`, `isCyclic`, `getWidth` and `getHeight` are modelled without contracts of their own, because they only read a field. `Move` and `Init` state their results through them.
- `Move` requires a valid, initialised game. In Java, a `move` on a game never initialised fails on the null `_pos`; that path is not modelled.
- The ghosts' edible time is only ever set to 10, never counted down, and nothing turns an edible ghost dangerous again except being eaten. The model keeps it that way.
- The status PAUSE (2) is never written by the engine. `PacmanGame.DONE = 5` of the game interface is not used; the engine writes 3.
- The ghosts are values in a sequence, which the methods replace. Java mutates shared `GhostCL` objects, but no other code in the engine holds them.
- Two of the initial ghosts, and every eaten ghost on respawn, are put on `(10, 10)`, which is a WALL cell of the divider. This is modelled as written: only the cell a ghost steps into is checked for a wall.
- `GhostCL`'s own methods beyond its fields are not modelled: getters, setters and the documented timer.
- The cells of a `MyMap2D` and of the game board are unbounded integers. The source only stores the values it is given, except that `allDistance` writes `currentDist + 1` as a 32-bit `int`; the model does not wrap that sum (see `Raster.MyMap2D.AllDistance`).
- A `MyMap2D` never initialised (`_map == null`) is modelled as the 0-by-0 array; its `getMap` returns null as in Java.
- `shortestPath`'s parents table holds cells, not references to the polled pixels. The pixels handed back are `p1`, `p2` and fresh `Index2D`s, as in Java.
- `addPathNeighbors` and `reconstructPath` are not modelled, because no code calls them.
- `String.split(",")` is modelled for the literal comma it is given, not for general regular expressions.
- `Index.Parse`: `Integer.parseInt` is modelled with the ASCII digits `0`-`9` only. Java also accepts every other Unicode decimal digit, so `"３,４"` (full-width digits) parses in Java and throws in the model.
- `JavaInt.ParseInt`: as for `Index.Parse`, only ASCII digits are accepted; Java's `Character.digit` accepts any Unicode decimal digit.
- `Raster.MyMap2D.FillStep`: the coordinate sums `x + dx` and `((n % W) + W) % W` are unbounded. In Java they are 32-bit, and `(n % W) + W` overflows once a side exceeds 2^30, so the wrap is then wrong; the model computes the mathematical wrap for every size.
- `Raster.MyMap2D.PathNeighbour`: likewise `(nx + W) % W` is unbounded in the model. In Java `nx + W` overflows once a side exceeds 2^30.
- `Raster.MyMap2D.Fill`: the count and the wrap sums are unbounded. In Java `count++` wraps past 2^31 - 1 cells, and with a side above 2^30 the overflowing wrap can give a different region. For example, on a cyclic grid of width 1 and height 2^30 + 1 of one colour, Java's `fill` recolours 2^30 cells and the model's all 2^30 + 1.
- `Raster.MyMap2D.ShortestPath`: the step rule is the unbounded one. On a cyclic grid of width 1 and height 2^30 + 1 with no obstacle, the model promises a path from `(0, 0)` to `(0, 2^30 - 1)`, while in Java the overflowing wrap cuts the cycle and `shortestPath` returns null.
- `Raster.MyMap2D.AllDistance`: the step rule is the unbounded one, as for `ShortestPath`, and `currentDist + 1` is not wrapped. On grids with a side above 2^30 Java's distances can differ.

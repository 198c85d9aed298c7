# Martian drone plotting: a verified model of the movement core

The Martian drone plotting program reads a rectangular field, given by its
upper-right corner `(upperRightX, upperRightY)`, and a number of drones, each
with an initial position and a string of moves (`N` up, `S` down, `E` right,
`W` left). It then does four things:

- it moves every drone one unit per move, stopping a drone for good at the first move that would leave the field;
- it reports every pair of drones whose paths share a point;
- it prints a grid of the field;
- on that grid it marks intersections `I`, drones' final positions `D` and empty cells `.`.

This project models that core in Dafny. It has one module per part of
`Program.cs`:

- `Field`: points, the unit step of each move character, and the field test of the movement loop.
- `Movement`: the path of one drone (`Path`, with the unbounded `Walk` beside it) and the simulation loop `ProcessMovements`.
- `Intersections`: the intersection search.
  - `CheckForIntersections` runs the loop over drone pairs.
  - `ComparePaths` is the body for one pair: every point of one path against every point of the other.
  - `Records` is the reference definition both are proved against.
  - It is the list of records of all coincident index quadruples `(i, j, p, q)`, in loop order.
- `Grid`: the list of valid starting points (`GenerateGridCoordinates`) and the initial-position check against it.
- `Input`: the upper-casing and alphabet check of a movement string.
- `Display`: the marker chosen for one grid cell.
- `Plotting`: facts that connect the parts as the main routine chains them, and worked examples.

Positions are integer points. The program keeps them as doubles, but every
position is a grid point: initial positions must be members of the integer
grid, and each move adds or subtracts exactly 1. So the `< 0.01` tolerance of
the comparisons is plain equality here. The field's upper-right corner stays
a real number, as entered. `Field.InFieldFloor` shows that for integer points
the movement loop's test against it agrees with the integer parts
`floor(upperRightX)`, `floor(upperRightY)` that the grid uses.

Three behaviours of the code that the model keeps as they are:

- Intersections are found along the whole paths, not only at final positions. Two drones that end apart but crossed earlier are reported, once for every pair of coinciding path points.
- The records form a list, with repetitions, not a set.
- The movement switch has no default case. So a character other than N, S, E, W leaves the position unchanged, and that position is appended to the path again. The alphabet check never lets such a character through, but `ProcessMovements` on its own does exactly this for every character in the Basic Multilingual Plane.

## Model

| member | source | states |
|---|---|---|
| Field.Step | MartianDronePlottingSoftware/Program.cs:144-158 | a character other than N, S, E, W leaves the point unchanged; N and S keep x, E and W keep y |
| Field.InFieldFloor | MartianDronePlottingSoftware/Program.cs:7-8 | for an integer point, the movement loop's in-field test against the real corner equals the test against its integer parts, the grid bounds |
| Movement.Walk | MartianDronePlottingSoftware/Program.cs:142-158 | the unbounded walk has one point more than there are moves and starts at the initial position |
| Movement.Path | MartianDronePlottingSoftware/Program.cs:139-142 | a path starts at the initial position and has between 1 and 1 + the number of moves points; with no moves it is exactly the initial position |
| Movement.PathSteps | MartianDronePlottingSoftware/Program.cs:142-166 | consecutive path points differ by the move that produced them: N y+1, S y-1, E x+1, W x-1, and any other character no change |
| Movement.PathUnitSteps | MartianDronePlottingSoftware/Program.cs:144-166 | after a valid move the next path point is at Manhattan distance 1 |
| Movement.PathAfterStartInField | MartianDronePlottingSoftware/Program.cs:160-166 | every path point after the first lies in the field |
| Movement.PathInField | MartianDronePlottingSoftware/Program.cs:95 | a drone that starts in the field stays in the field: every point of its path is in it |
| Movement.PathIsWalkPrefix | MartianDronePlottingSoftware/Program.cs:142-167 | the path is a prefix of the walk, all of its points after the first in the field; if it is shorter than the walk, the next walk point is outside |
| Movement.Truncation | MartianDronePlottingSoftware/Program.cs:160-164 | if move k is the first to leave the field, the path has exactly k + 1 points and is the walk up to there; nothing later is recorded |
| Movement.NoTruncation | MartianDronePlottingSoftware/Program.cs:142-167 | if no move leaves the field, the path is the whole walk, 1 + the number of moves points |
| Movement.WalkEnd | MartianDronePlottingSoftware/Program.cs:144-158 | the walk ends at the start shifted by #E - #W horizontally and #N - #S vertically |
| Movement.ProcessMovements | MartianDronePlottingSoftware/Program.cs:129-173 | the loop returns one path per drone, and path i is Path of drone i's initial position, moves and field |
| Intersections.ComparePaths | MartianDronePlottingSoftware/Program.cs:184-196 | the double loop over the points of paths i and j returns the records of exactly their coincident index pairs, in (p, q) order |
| Intersections.CheckForIntersections | MartianDronePlottingSoftware/Program.cs:175-201 | the loop over drone pairs i < j < n returns Records(paths, n) |
| Intersections.MatchesExactly | MartianDronePlottingSoftware/Program.cs:180-197 | the quadruples behind the records are exactly the (i, j, p, q) with i < j < n and paths[i][p] == paths[j][q], in strictly increasing lexicographic order |
| Intersections.RowMatchesExactly | MartianDronePlottingSoftware/Program.cs:189-195 | the inner loop over path j finds exactly the q that match point p of path i, in increasing order |
| Intersections.PairMatchesExactly | MartianDronePlottingSoftware/Program.cs:187-196 | the search for one drone pair finds exactly its coincident (p, q) pairs, in order |
| Intersections.DroneMatchesExactly | MartianDronePlottingSoftware/Program.cs:182-197 | the search for drone i finds exactly the coincidences with the later drones, in order |
| Intersections.AllMatchesExactly | MartianDronePlottingSoftware/Program.cs:180-198 | the search over the first drones finds exactly their coincidences, in order |
| Intersections.RecordsSound | MartianDronePlottingSoftware/Program.cs:180-193 | every record has 1 <= drone1 < drone2 <= n, and its point lies on both drones' paths |
| Intersections.RecordsComplete | MartianDronePlottingSoftware/Program.cs:187-193 | every coincidence of point p of path i with point q of path j, for i < j < n, is reported with path i's coordinates |
| Intersections.RecordsInPairOrder | MartianDronePlottingSoftware/Program.cs:180-182 | records come grouped by drone pair, pairs in increasing (drone1, drone2) order |
| Intersections.Multiplicity | MartianDronePlottingSoftware/Program.cs:187-193 | the number of records for the pair (i + 1, j + 1) equals the number of index pairs (p, q) with equal points; nothing is merged |
| Grid.GenerateGridCoordinates | MartianDronePlottingSoftware/Program.cs:57-72 | the double loop builds GridPoints: column x = 0 .. gridPointsX, each from y = 0 up to gridPointsY |
| Grid.ColumnExactly | MartianDronePlottingSoftware/Program.cs:63-68 | one pass of the inner loop adds exactly the points (x, 0) .. (x, top), in increasing y |
| Grid.GridPointsExactly | MartianDronePlottingSoftware/Program.cs:57-72 | the grid list contains (x, y) exactly when 0 <= x <= gridPointsX and 0 <= y <= gridPointsY, each once, column by column: by x, then by y |
| Grid.GridPointsLength | MartianDronePlottingSoftware/Program.cs:57-72 | the grid list has (gridPointsX + 1) * (gridPointsY + 1) points, none if either bound is negative |
| Grid.CheckInitialPosition | MartianDronePlottingSoftware/Program.cs:95-101 | an initial position is accepted exactly when it equals some grid coordinate, and the accepted point is that grid point |
| Grid.InitialPositionAccepted | MartianDronePlottingSoftware/Program.cs:7-9 | against the grid of the field, a position is accepted exactly when it has integer coordinates inside the field |
| Input.CheckMovements | MartianDronePlottingSoftware/Program.cs:111-123 | the line is upper-cased, and it is valid exactly when every character is N, S, E or W |
| Input.AcceptedLines | MartianDronePlottingSoftware/Program.cs:113-117 | a line passes exactly when each of its characters is one of N, S, E, W in either case, or the long s (U+017F), which upper-cases to S |
| Display.CellMarker | MartianDronePlottingSoftware/Program.cs:232-262 | the cell shows I exactly when an intersection is there; D exactly when none is but some drone ended there; . otherwise |
| Plotting.IntersectionCell | MartianDronePlottingSoftware/Program.cs:29-34 | with the detector's records, a cell is an intersection cell exactly when two different drones' paths both pass through it |
| Plotting.IntersectionsOnGrid | MartianDronePlottingSoftware/Program.cs:27-34 | when all drones start in the field, every record lies on a cell of the drawn grid |
| Plotting.ExampleNorthThenEast | MartianDronePlottingSoftware/Program.cs:142-166 | field (3, 3), start (1, 1), moves NNEE: the path is (1,1), (1,2), (1,3), (2,3), (3,3) |
| Plotting.ExampleStoppedAtEdge | MartianDronePlottingSoftware/Program.cs:160-164 | field (2, 2), start (2, 2), move N: the drone stays at (2, 2) |
| Plotting.ExampleMeetingAtEnd | MartianDronePlottingSoftware/Program.cs:180-197 | drones at (0, 0) moving EE and at (2, 0) not moving give the single record (1, 2, 2, 0) |

## Left out

- Console input and output: `Main`'s prompts, `GetFieldCoordinates`, `GetNumberOfDrones`, `Console.ReadKey`, and the message printed when a drone is stopped. The values they read become parameters.
- The re-prompt loop of `GetValidMovements`: it is input plumbing. `Input.CheckMovements` models one pass of it, which decides whether the loop ends.
- `double.Parse` and `int.Parse`: they are library calls. Parsed values are inputs.
- `Environment.Exit(0)` on an invalid initial position: it ends the process. It becomes the `OutsideField` result of `Grid.CheckInitialPosition`.
- Floating-point arithmetic and the 0.01 tolerance: all positions are integers, so doubles hold them exactly, and the tolerance test is equality. IEEE rounding is not modelled.
- Grid.GenerateGridCoordinates: the grid bounds are unbounded integers. The program casts `Math.Floor` of each corner coordinate to a 32-bit `int`, and its loop counters are 32-bit. The model matches the program only when each grid bound is at most 2^31 - 2. With a bound of 2^31 - 1, the test `i <= gridPointsX` or `j <= gridPointsY` stays true because the counter wraps round, and the program's loop does not end; the model returns the full grid. For a corner of 2^31 or more, the cast does not give the floor.
- Grid.GridPointsLength: the grid list has no size limit in the model. The program's `List` holds at most `Array.MaxLength` (2,147,483,591) elements. A grid with more points, such as the one for corner (46340, 46340), makes `Add` throw `OutOfMemoryException`, and the program ends there.
- Grid.InitialPositionAccepted: it assumes finite corners whose floors are at most 2^31 - 2, for the same reasons. It does not cover corners that are NaN or infinite, which `double.Parse` can return and a `real` cannot hold.
- Movement.ProcessMovements: the field corner is a finite real. With a NaN corner, the comparison `currentX > upperRightX` (or the one for y) is never true. So the field test never stops a drone at the upper edge of that axis, though it still stops one that moves below 0. This is not modelled.
- Movement.ProcessMovements: a move string is a sequence of Unicode scalar values, while the program's `foreach` runs over UTF-16 code units. A character outside the Basic Multilingual Plane is one step of `Movement.Path` but two passes of the program's loop. Each pass appends the unchanged position, so the program's path has one point more for each such character. The alphabet check rejects these characters, so the main routine never passes them.
- Movement.ProcessMovements: the drone count is a `nat`. `int.Parse` can return a negative count, for which the program's loops run zero times; that input is not modelled. `Intersections.CheckForIntersections` has the same restriction.
- `DisplayInitialGrid`, `DisplayFinalLocations`, `DisplayIntersections`, and the `Console.Write` calls and row/column loops of `DrawGridWithDrones`: they are rendering. Only the choice of one cell's marker is modelled.
- Input.ToUpper: it upper-cases the ASCII letters a to z and maps the long s (U+017F) to S, its Unicode simple upper-case mapping. Every other character is left as it is. The culture-sensitive `string.ToUpper` of .NET maps many more letters, and whether it maps the long s depends on the runtime's casing tables.
- Input.AcceptedLines: it promises the accepted alphabet N, S, E, W, n, s, e, w and the long s. That holds only for a runtime whose upper-casing sends exactly these characters to N, S, E and W.
- Input.CheckMovements: the upper-cased line is the model's `ToUpper`, with the limits stated for it above.
- Intersections.CheckForIntersections: the comparison of two paths is a separate method, `ComparePaths`, and is not written inline in the pair loop. The records and their order are the same.
- Mutation of the result lists in place: the paths and the lists of records and grid coordinates are sequences that the loops extend, not shared, aliased lists.

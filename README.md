# Advent of Code 2021 toolkit and solvers, modelled in Dafny

This project models the computational core of a C# collection of Advent of Code 2021
solvers and the toolkit they share, and proves what that code promises.

- **Grid engine.** `QuickMatrix` is a dense `CellInfo[col, row]` array with derived `Rows`,
  `Cols` and `Cells` views. Its six geometric transforms, neighbour enumeration, same-value
  region search, sub-matrix extraction and splicing are proved against a value model of the
  grid (`GridModel`). `CellInfo` is a cell with a fixed position and four payloads.
  `QuickGrid` is the dictionary-backed grid with arbitrary bounds.
- **Utilities.** These are:
  - the linked `ChainedNode` ring;
  - the `SmallTools` helpers;
  - the Chinese remainder solver;
  - the travelling-salesperson search;
  - the Dijkstra shortest-path search;
  - the pattern matcher;
  - the hexagonal grid;
  - the logic `Circuit`;
  - the integer point algebra of `PointExtensions`.

  Alongside them are the C# integer and string operations the solvers rely on: truncating
  division, 32-bit wrap-around, `Split`, `Join`, `Trim`, `int.Parse` and `ToString`.
- **Solvers.** These are:
  - Day 3, the binary diagnostic: gamma and epsilon rates, and the oxygen and CO2 filters;
  - Day 14, polymer insertion by pair counting;
  - Day 13, transparent origami: folding a sheet of dots;
  - Day 16, the BITS packet decoder;
  - Day 18, snailfish number arithmetic;
  - Day 19, beacon scanner alignment and merging;
  - Day 21, the deterministic and the Dirac dice game;
  - Day 22, reactor cuboid reboot.

Classes whose fields the source updates in place stay classes. These include `QuickMatrix`,
`CellInfo`, `QuickGrid`, the Day 19 `Space3D` and the `Day13`, `Day14`, `Day19` and `Day21` solvers.
Their methods state the new state directly, or through a ghost value model. The properties
are proved as lemmas about the model's functions. The loops of the source are methods with
loop invariants, proved against those functions.

## Model

| member | source | states |
|---|---|---|
| Cells.WithPayloadIdempotent | AdventOfCode2021/Tools/QuickMatrix.cs:188-218 | setting a payload twice is setting it once; of two writes to the same payload the last wins |
| Cells.CellInfo.FromString | AdventOfCode2021/Tools/CellInfo.cs:25-29 | the text constructor sets the position and the text; the other payloads keep "", 0, false and null |
| Cells.CellInfo.FromLong | AdventOfCode2021/Tools/CellInfo.cs:34-38 | the integer constructor sets only the integer payload |
| Cells.CellInfo.FromBool | AdventOfCode2021/Tools/CellInfo.cs:43-47 | the flag constructor sets only the flag |
| Cells.CellInfo.Copy | AdventOfCode2021/Tools/CellInfo.cs:52-56 | the copy constructor takes the given position and all four payloads of the other cell |
| Cells.CellInfo.ToString | AdventOfCode2021/Tools/CellInfo.cs:58-68 | String gives the text; Long gives decimal text that parses back to the integer; Bool gives "1" exactly when the flag is set; Object gives the object's text or "" |
| Cells.CellInfo.Clone | AdventOfCode2021/Tools/CellInfo.cs:70-79 | a fresh cell with the same position and the same payloads |
| Cells.CellInfo.Set | AdventOfCode2021/Tools/CellInfo.cs:81-87 | copies the four payloads of the other cell; the position is a constant and stays |
| Cells.NewSentinel | AdventOfCode2021/Tools/CellInfo.cs:20 | the out-of-range cell sits at (int.MinValue, int.MinValue), is not valid, and holds empty payloads |
| CSharpInt.Wrap32 | AdventOfCode2021/Tools/QuickTravelSalesPerson.cs:75 | an unchecked 32-bit result lies in the int range and is congruent to the exact value modulo 2^32; it is the exact value when that fits |
| CSharpInt.QuotRem | AdventOfCode2021/Extensions/PointExtensions.cs:82-95 | C# division truncates: a = q·m + r with r carrying the sign of a and \|r\| < \|m\| |
| PointExtensions.ManhattanDistanceToOrigin | AdventOfCode2021/Extensions/PointExtensions.cs:60-69 | \|x\| + \|y\| is 0 exactly at the origin and bounds each coordinate's magnitude |
| PointExtensions.ManhattanDistance | AdventOfCode2021/Extensions/PointExtensions.cs:71-80 | the distance is 0 exactly for equal points and is the one-argument distance of the difference |
| PointExtensions.ManhattanMetric | AdventOfCode2021/Extensions/PointExtensions.cs:71-80 | the distance is symmetric and obeys the triangle inequality |
| PointExtensions.ManhattanTranslation | AdventOfCode2021/Extensions/PointExtensions.cs:71-80 | translating both points keeps their distance |
| PointExtensions.Modulo | AdventOfCode2021/Extensions/PointExtensions.cs:82-95 | a coordinate with a positive modulus m lands in [0, m) and is congruent to the input; a coordinate with a modulus ≤ 0 is unchanged |
| PointExtensions.ModuloIdempotent | AdventOfCode2021/Extensions/PointExtensions.cs:82-95 | wrapping twice is wrapping once, and a point already inside the box is unchanged |
| PointExtensions.RotationGroup | AdventOfCode2021/Extensions/PointExtensions.cs:102-164 | about any centre, clockwise and counter-clockwise undo each other, two quarter turns make the half turn, the half turn is an involution, four quarter turns are the identity, and the centre is fixed |
| PointExtensions.RotationIsometry | AdventOfCode2021/Extensions/PointExtensions.cs:113-164 | rotations keep Manhattan distances |
| PointExtensions.Arithmetic | AdventOfCode2021/Extensions/PointExtensions.cs:172-204 | Add and Subtract undo each other, `Add(x, y)` is `Add` of the point (x, y), and Add commutes |
| PointExtensions.MultiplyDistributes | AdventOfCode2021/Extensions/PointExtensions.cs:206-209 | scaling distributes over addition |
| PointExtensions.MultiplyScalesDistance | AdventOfCode2021/Extensions/PointExtensions.cs:206-209 | scaling by k multiplies the distance to the origin by \|k\| |
| Text.NatToString | AdventOfCode2021/Tools/CellInfo.cs:63 | decimal text of a natural number: digits only, no leading zero, denoting the number |
| Text.ParseIntToString | AdventOfCode2021/Tools/CellInfo.cs:63 | parsing the decimal text of any integer gives the integer back |
| Text.ParseIntRejects | AdventOfCode2021/Tools/QuickCircuit.cs:226-243 | text that is not an optional sign followed by digits does not parse |
| Text.Split | AdventOfCode2021/Tools/QuickMatrix.cs:150 | at least one piece, and no piece contains the separator |
| Text.JoinSplit | AdventOfCode2021/Tools/QuickMatrix.cs:150 | joining the pieces of a split with the separator gives the text back |
| Text.SplitJoin | AdventOfCode2021/Tools/QuickMatrix.cs:150 | splitting a join of separator-free pieces gives the pieces back |
| Text.RemoveEmpty | AdventOfCode2021/Tools/QuickMatrix.cs:134 | the non-empty pieces, each taken from the input, every non-empty piece of the input kept, and a single piece kept exactly when it is non-empty |
| Text.RemoveEmptyConcat | AdventOfCode2021/Tools/QuickMatrix.cs:134 | removing empty pieces distributes over concatenation, so the kept pieces keep their input order |
| GridModel.Put | AdventOfCode2021/Tools/CellInfo.cs:81-87 | replacing one value changes that position only, and an off-grid position changes nothing |
| GridModel.Filled | AdventOfCode2021/Tools/QuickMatrix.cs:49-83 | the filled grid has the requested dimensions and the value everywhere |
| GridModel.RotateClockwise | AdventOfCode2021/Tools/QuickMatrix.cs:247-266 | the value at (x, y) moves to (height-1-y, x) and the dimensions swap |
| GridModel.RotateCounterClockwise | AdventOfCode2021/Tools/QuickMatrix.cs:226-245 | the value at (x, y) moves to (y, width-1-x) and the dimensions swap |
| GridModel.Rotate180Degree | AdventOfCode2021/Tools/QuickMatrix.cs:268-285 | the value at (x, y) moves to (width-1-x, height-1-y) and the dimensions stay |
| GridModel.FlipHorizontal | AdventOfCode2021/Tools/QuickMatrix.cs:287-303 | the value at (x, y) moves to (width-1-x, y) |
| GridModel.FlipVertical | AdventOfCode2021/Tools/QuickMatrix.cs:305-321 | the value at (x, y) moves to (x, height-1-y) |
| GridModel.Transpose | AdventOfCode2021/Tools/QuickMatrix.cs:323-341 | the value at (x, y) moves to (y, x) and the dimensions swap |
| GridModel.RotationsInverse | AdventOfCode2021/Tools/QuickMatrix.cs:226-266 | the two quarter turns undo each other |
| GridModel.TwoQuarterTurns | AdventOfCode2021/Tools/QuickMatrix.cs:247-285 | two clockwise quarter turns are the half turn |
| GridModel.FourQuarterTurns | AdventOfCode2021/Tools/QuickMatrix.cs:247-266 | four clockwise quarter turns restore the grid |
| GridModel.Rotate180Involution | AdventOfCode2021/Tools/QuickMatrix.cs:268-285 | the half turn is its own inverse |
| GridModel.FlipsAreInvolutions | AdventOfCode2021/Tools/QuickMatrix.cs:287-341 | both flips and the transpose are involutions |
| GridModel.TransformCompositions | AdventOfCode2021/Tools/QuickMatrix.cs:226-341 | the half turn is both flips; a quarter turn is a transpose followed by a flip |
| GridModel.TargetBijection | AdventOfCode2021/Tools/QuickMatrix.cs:226-341 | each transform's position formula is a bijection from the old grid onto the new one, so every new cell is written exactly once |
| GridModel.Apply | AdventOfCode2021/Tools/QuickMatrix.cs:226-341 | every transform carries the value at each old position to its target position |
| GridModel.ApplyAtSource | AdventOfCode2021/Tools/QuickMatrix.cs:226-341 | read backwards, each cell of a transformed grid holds the value at its source position |
| GridModel.SubGrid | AdventOfCode2021/Tools/QuickMatrix.cs:460-469 | the sub-grid has dimensions (ex-sx+1, ey-sy+1) and holds at (x, y) the value at start + (x, y) |
| GridModel.Overlay | AdventOfCode2021/Tools/QuickMatrix.cs:471-479 | splicing overwrites exactly the cells covered at offset p and leaves all others unchanged |
| GridModel.OverlayThenSubGrid | AdventOfCode2021/Tools/QuickMatrix.cs:460-479 | cutting out the spliced rectangle gives back what was spliced |
| GridModel.SubGridThenOverlay | AdventOfCode2021/Tools/QuickMatrix.cs:460-479 | splicing back a rectangle cut from the same place changes nothing |
| GridModel.MapGrid | AdventOfCode2021/Tools/QuickMatrix.cs:188-218 | the function is applied at every position and the dimensions stay |
| GridModel.ColumnMajorLength | AdventOfCode2021/Tools/QuickMatrix.cs:450-458 | the rectangle's column-major list has width × height entries |
| GridModel.ColumnMajorHas | AdventOfCode2021/Tools/QuickMatrix.cs:450-458 | every value inside the rectangle is in the list |
| GridModel.ColumnMajorFrom | AdventOfCode2021/Tools/QuickMatrix.cs:450-458 | every entry of the list is the value at some position inside the rectangle |
| GridModel.ColsOf | AdventOfCode2021/Tools/QuickMatrix.cs:379-389 | ColCount columns of RowCount entries, entry y of column x being the value at (x, y) |
| GridModel.CellsOfMembers | AdventOfCode2021/Tools/QuickMatrix.cs:391-399 | the row-major list has ColCount × RowCount entries, exactly the grid's values |
| GridModel.Directions | AdventOfCode2021/Tools/QuickMatrix.cs:20-27 | every offset is a non-zero step of at most 1 on each axis |
| GridModel.DirectionsShape | AdventOfCode2021/Tools/QuickMatrix.cs:20-27 | the tables list 2/2/4/4/8 distinct offsets and are closed under negation |
| GridModel.FilterInBoundsMembers | AdventOfCode2021/Tools/QuickMatrix.cs:496-509 | exactly the on-grid translates of the offsets are kept |
| GridModel.NeighboursSymmetric | AdventOfCode2021/Tools/QuickMatrix.cs:496-509 | q is a neighbour of p exactly when p is a neighbour of q |
| GridModel.CornerHasThreeNeighbours | AdventOfCode2021/Tools/QuickMatrix.cs:496-509 | on a grid of at least 2 × 2, corner (0, 0) has exactly three neighbours in mode All, in table order |
| Matrices.QuickMatrix.ComputeOtherProperties | AdventOfCode2021/Tools/QuickMatrix.cs:365-400 | rebuilds Rows (RowCount lists of ColCount cells), Cols and Cells (the row-major concatenation) from the array, aliasing its cells, and changes no payload |
| Matrices.QuickMatrix.Empty | AdventOfCode2021/Tools/QuickMatrix.cs:41-47 | the default matrix is 0 × 0 |
| Matrices.QuickMatrix.FilledWithString | AdventOfCode2021/Tools/QuickMatrix.cs:49-65 | every cell (x, y) of a col × row matrix sits at its own position and holds the default text |
| Matrices.QuickMatrix.FilledWithLong | AdventOfCode2021/Tools/QuickMatrix.cs:67-83 | every cell (x, y) sits at its own position and holds the default integer |
| Matrices.QuickMatrix.FromBoolLines | AdventOfCode2021/Tools/QuickMatrix.cs:85-102 | cell (x, y) is set exactly when character x of line y equals the true value |
| Matrices.QuickMatrix.WithFilledCells | AdventOfCode2021/Tools/QuickMatrix.cs:104-124 | the listed points hold the filled value and every other cell the empty value |
| Matrices.QuickMatrix.FromLines | AdventOfCode2021/Tools/QuickMatrix.cs:126-161 | as wide as the widest line and one row per line; cell (x, y) holds character x of line y, or piece x of its split (non-empty pieces only when asked), and a position past a shorter line holds no text |
| Matrices.MaxItems | AdventOfCode2021/Tools/QuickMatrix.cs:134 | the width is the item count of some line and no line has more items; no lines give width 0 |
| Matrices.LinesGrid | AdventOfCode2021/Tools/QuickMatrix.cs:126-161 | the grid read from the lines: the widest line's width, each line's items in its row, nothing past a shorter line |
| Matrices.LinesGridPrintsBack | AdventOfCode2021/Tools/QuickMatrix.cs:126-161 | printing a matrix read one character per cell gives the lines back |
| Matrices.SplitLinesJoinBack | AdventOfCode2021/Tools/QuickMatrix.cs:126-161 | the cells of a row read with a separator, joined with it, give the line back |
| Matrices.QuickMatrix.FromCells | AdventOfCode2021/Tools/QuickMatrix.cs:163-171 | the dimensions are the largest coordinates plus one and each listed cell is stored at its position, the last one winning |
| Matrices.QuickMatrix.Clone | AdventOfCode2021/Tools/QuickMatrix.cs:173-186 | a fresh matrix of fresh cells, with the same dimensions and the same payloads |
| Matrices.QuickMatrix.SetAllCells | AdventOfCode2021/Tools/QuickMatrix.cs:188-218 | every cell gets the new payload; the other payloads and the shape stay |
| Matrices.QuickMatrix.SetCells | AdventOfCode2021/Tools/QuickMatrix.cs:220-224 | the payloads of the reference matrix are written at their positions plus the start, those falling off the grid are dropped, all other cells are unchanged |
| Matrices.QuickMatrix.RotateClockwise | AdventOfCode2021/Tools/QuickMatrix.cs:247-266 | the matrix becomes the clockwise quarter turn of its old payloads and the dimensions swap |
| Matrices.QuickMatrix.RotateCounterClockwise | AdventOfCode2021/Tools/QuickMatrix.cs:226-245 | the matrix becomes the counter-clockwise quarter turn and the dimensions swap |
| Matrices.QuickMatrix.Rotate180Degree | AdventOfCode2021/Tools/QuickMatrix.cs:268-285 | the matrix becomes the half turn of its old payloads |
| Matrices.QuickMatrix.FlipHorizontal | AdventOfCode2021/Tools/QuickMatrix.cs:287-303 | the matrix becomes its left-right mirror |
| Matrices.QuickMatrix.FlipVertical | AdventOfCode2021/Tools/QuickMatrix.cs:305-321 | the matrix becomes its top-bottom mirror |
| Matrices.QuickMatrix.Transpose | AdventOfCode2021/Tools/QuickMatrix.cs:323-341 | the matrix becomes its transpose and the dimensions swap |
| Matrices.QuickMatrix.Relocate | AdventOfCode2021/Tools/QuickMatrix.cs:226-341 | the shared transform loop: fresh cells, each copying all four payloads of its source cell, each at its own new position |
| Matrices.QuickMatrix.Cell | AdventOfCode2021/Tools/QuickMatrix.cs:343-352 | on the grid, the stored cell, which is valid; off the grid, a fresh invalid cell with empty payloads |
| Matrices.QuickMatrix.CellStr | AdventOfCode2021/Tools/QuickMatrix.cs:354-363 | on the grid, the cell's text; off the grid, the caller's default |
| Matrices.QuickMatrix.GetDebugPrintString | AdventOfCode2021/Tools/QuickMatrix.cs:407-415 | one line per row, the concatenated texts of its cells left to right |
| Matrices.QuickMatrix.ToString | AdventOfCode2021/Tools/QuickMatrix.cs:511-514 | the row lines joined with backslashes |
| Matrices.QuickMatrix.GetTouchingCellsWithValue | AdventOfCode2021/Tools/QuickMatrix.cs:417-442 | over a fresh visit array: the start cell first, each cell once, all with the start's text, and a cell is returned exactly when a same-text path of the mode's neighbours joins it to the start |
| Matrices.QuickMatrix.SearchTouchingCellsWithValue | AdventOfCode2021/Tools/QuickMatrix.cs:423-442 | the recursive search marks exactly the cells it returns, returns nothing from a marked cell, and leaves no same-text neighbour of a found cell unmarked |
| Matrices.RegionIsComponent | AdventOfCode2021/Tools/QuickMatrix.cs:417-442 | a region holding the start, closed under same-text neighbours and reached from the start, is exactly the set of cells a same-text path from the start reaches |
| Matrices.QuickMatrix.CellsAtManhattanDistance | AdventOfCode2021/Tools/QuickMatrix.cs:444-448 | exactly the cells of the list at the given distance, in list order |
| Matrices.QuickMatrix.CellsAtManhattanDistanceExact | AdventOfCode2021/Tools/QuickMatrix.cs:444-448 | on a valid matrix these are exactly the grid's cells on the diamond of that radius |
| Matrices.QuickMatrix.GetCellsInRange | AdventOfCode2021/Tools/QuickMatrix.cs:450-458 | the inclusive rectangle in column-major order: width × height cells, each inside it and each at its own position |
| Matrices.QuickMatrix.GetSubMatrix | AdventOfCode2021/Tools/QuickMatrix.cs:460-469 | a fresh matrix holding the rectangle, re-indexed so that the start becomes (0, 0) |
| Matrices.QuickMatrix.SetSubMatrix | AdventOfCode2021/Tools/QuickMatrix.cs:471-479 | fresh copies of the other matrix's cells replace the cells at their positions plus the offset; all other cells are unchanged |
| Matrices.QuickMatrix.GetNeighbours | AdventOfCode2021/Tools/QuickMatrix.cs:481-509 | exactly the on-grid cells at position + offset, in the table order of the mode |
| Matrices.QuickMatrix.GetNeighboursOfCell | AdventOfCode2021/Tools/QuickMatrix.cs:486-494 | the neighbours of the cell's position |
| QuickGrids.Offsets | AdventOfCode2021/Tools/QuickGrid.cs:24-30 | each offset is a non-zero unit step |
| QuickGrids.OffsetsSymmetric | AdventOfCode2021/Tools/QuickGrid.cs:24-30 | each offset table is closed under negation |
| QuickGrids.OffsetCounts | AdventOfCode2021/Tools/QuickGrid.cs:24-30 | the tables have 2, 2, 4 and 8 distinct offsets |
| QuickGrids.FillBox | AdventOfCode2021/Tools/QuickGrid.cs:54-60 | exactly one fresh cell per position of the box, positioned at its key and holding the initial payloads |
| QuickGrids.Lookup | AdventOfCode2021/Tools/QuickGrid.cs:98-113 | a listed point yields its entry's text; an unlisted point yields nothing |
| QuickGrids.LookupFinds | AdventOfCode2021/Tools/QuickGrid.cs:98-113 | with distinct keys, each key finds its own text |
| QuickGrids.EntriesKept | AdventOfCode2021/Tools/QuickGrid.cs:98-113 | every given entry ends up in the grid with its own text |
| QuickGrids.QuickGrid.Single | AdventOfCode2021/Tools/QuickGrid.cs:34-43 | one cell at (0, 0) holding 0, with one row and one column |
| QuickGrids.QuickGrid.FilledRange | AdventOfCode2021/Tools/QuickGrid.cs:45-79 | one cell per position of [MinX..MaxX] × [MinY..MaxY], at its key, holding the default; NbrCol = MaxX-MinX+1 and NbrRow = MaxY-MinY+1 |
| QuickGrids.QuickGrid.FromKnownPoints | AdventOfCode2021/Tools/QuickGrid.cs:81-96 | the bounding box of the points; a position holds the known value exactly when it was listed; NbrRow and NbrCol stay 0 |
| QuickGrids.QuickGrid.FromKnownTexts | AdventOfCode2021/Tools/QuickGrid.cs:98-113 | the bounding box of the keys; each position holds its entry's text, or the unknown value; NbrRow and NbrCol stay 0 |
| QuickGrids.QuickGrid.Cell | AdventOfCode2021/Tools/QuickGrid.cs:115-124 | inside the bounds, the stored cell; outside, a fresh invalid cell with empty text |
| QuickGrids.QuickGrid.TouchingCells | AdventOfCode2021/Tools/QuickGrid.cs:126-140 | one cell per offset of the mode, sentinels included, so never fewer than the table's size |
| QuickGrids.QuickGrid.GetDebugPrintLines | AdventOfCode2021/Tools/QuickGrid.cs:147-161 | one line per y from MinY to MaxY, each concatenating the rendered cells from MinX to MaxX |
| QuickGrids.QuickGrid.BoolRowLength | AdventOfCode2021/Tools/QuickGrid.cs:147-161 | a row rendered as flags has one character per column |
| QuickGrids.QuickGrid.CellList | AdventOfCode2021/Tools/QuickGrid.cs:163 | every stored cell, each once |
| SmallTools.GeneratePermutations | AdventOfCode2021/Tools/SmallTools.cs:14-19 | the backtracking search from the empty permutation returns exactly the list `Permutations(n)` |
| SmallTools.GeneratePermutationsRecursive | AdventOfCode2021/Tools/SmallTools.cs:21-40 | appends every completion of the current partial permutation, smallest next item first, and leaves the `used` marks as it found them |
| SmallTools.PermutationsProperties | AdventOfCode2021/Tools/SmallTools.cs:8-19 | the result holds n! lists, each a permutation of 0..n-1, in strictly increasing lexicographic order (so no list twice) |
| SmallTools.GenerateCombinations | AdventOfCode2021/Tools/SmallTools.cs:49-54 | the backtracking search from item 0 returns exactly `Combinations(n, k, 0, [])` |
| SmallTools.GenerateCombinationsRecursive | AdventOfCode2021/Tools/SmallTools.cs:56-70 | appends every completion of the current combination whose next item is at least `start` |
| SmallTools.CombinationsProperties | AdventOfCode2021/Tools/SmallTools.cs:42-54 | the result holds C(n, k) lists, each strictly increasing of length k over 0..n-1, in strictly increasing lexicographic order |
| SmallTools.GenerateCombinationsMatchingTotal | AdventOfCode2021/Tools/SmallTools.cs:79-84 | returns exactly the lists of `Matching(numbers, target, [], 0)` |
| SmallTools.GenerateMatching | AdventOfCode2021/Tools/SmallTools.cs:86-103 | appends the current list when the remaining target is 0, else the completions through each later position whose number does not exceed the target |
| SmallTools.TryNumber | AdventOfCode2021/Tools/SmallTools.cs:95-102 | one loop turn: the completions through position i are appended exactly when its number does not exceed the target |
| SmallTools.MatchingTotalSound | AdventOfCode2021/Tools/SmallTools.cs:72-103 | every returned list adds up to the target and is read off the input in order, each position used at most once |
| SmallTools.MatchingTotalExample | AdventOfCode2021/Tools/SmallTools.cs:72-84 | for [2, 3, 6, 7] and 7 the result is [[7]] alone: a position is never reused |
| SmallTools.GcdIsGreatest | AdventOfCode2021/Tools/SmallTools.cs:121-125 | for non-negative inputs the result is non-negative, zero only for (0, 0), divides both, and every positive common divisor divides it |
| SmallTools.GcdPositive | AdventOfCode2021/Tools/SmallTools.cs:121-125 | the GCD of two positive numbers is positive and at most each of them |
| SmallTools.Lcm | AdventOfCode2021/Tools/SmallTools.cs:110-113 | an empty array has no LCM (the aggregate throws); for positive numbers the fold is the least common multiple: positive, a multiple of every element, and a divisor of every other positive common multiple |
| SmallTools.LcmStep | AdventOfCode2021/Tools/SmallTools.cs:112 | x * y / GCD(x, y) of positive numbers is a positive multiple of both |
| SmallTools.LcmStepLeast | AdventOfCode2021/Tools/SmallTools.cs:112 | every positive common multiple of x and y is a multiple of x * y / GCD(x, y) |
| SmallTools.GcdScale | AdventOfCode2021/Tools/SmallTools.cs:121-125 | Euclid's algorithm commutes with scaling: GCD(k a, k b) = k GCD(a, b) |
| SmallTools.PrimeDecomposition | AdventOfCode2021/Tools/SmallTools.cs:142-159 | below 2 the list is empty; otherwise the factors are primes in non-decreasing order whose product is the number |
| SmallTools.CofactorIsPrime | AdventOfCode2021/Tools/SmallTools.cs:154-157 | a cofactor above 1 left when trial division stops (i·i > n), with no divisor below i, is a prime at least i |
| SmallTools.IsPrime | AdventOfCode2021/Tools/SmallTools.cs:132-135 | a decomposition of exactly one factor happens exactly for primes |
| ChineseRemainderTheorem.ComputeModularInverse | AdventOfCode2021/Tools/ChineseRemainderTheorem.cs:39-60 | 0 for modulus 1; for number ≥ 1 and modulus ≥ 2 an answer exists exactly when the two are coprime, and it is the inverse, in [0, modulus); otherwise the loop divides by zero |
| ChineseRemainderTheorem.EuclidStep | AdventOfCode2021/Tools/ChineseRemainderTheorem.cs:48-57 | one turn of the extended Euclidean loop keeps the GCD of the pair, the two congruences n ≡ cur·number and m ≡ prev·number modulo the original modulus, and the bounds on the coefficients |
| ChineseRemainderTheorem.Bezout | AdventOfCode2021/Tools/ChineseRemainderTheorem.cs:48-57 | the GCD of two non-negative numbers is an integer combination of them, which the loop's coefficients track |
| ChineseRemainderTheorem.PartialQuotient | AdventOfCode2021/Tools/ChineseRemainderTheorem.cs:25 | product / moduli[i] is the product of the other moduli, at least 1 and coprime to moduli[i] |
| ChineseRemainderTheorem.SummandStep | AdventOfCode2021/Tools/ChineseRemainderTheorem.cs:27 | adding remainders[i]·inverse·partial keeps the congruences already solved and solves the i-th |
| ChineseRemainderTheorem.FinalReduction | AdventOfCode2021/Tools/ChineseRemainderTheorem.cs:30 | reducing the sum modulo the product keeps every congruence, and a non-negative sum lands in [0, product) |
| ChineseRemainderTheorem.GetSmallestNumber | AdventOfCode2021/Tools/ChineseRemainderTheorem.cs:11-31 | for pairwise-coprime positive moduli the result satisfies every congruence, and for non-negative remainders it lies in [0, product of the moduli); a zero modulus, too few remainders or a missing inverse is an exception |
| ChineseRemainderTheorem.SolutionUnique | AdventOfCode2021/Tools/ChineseRemainderTheorem.cs:5-11 | two numbers with the same remainders modulo pairwise-coprime positive moduli differ by a multiple of the product, so the solution in [0, product) is the smallest non-negative one |
| Bits.SetBit | AdventOfCode2021/Tools/QuickTravelSalesPerson.cs:74 | `mask \| (1 << v)` for a v not in mask sets bit v and keeps every other bit |
| Bits.ClearBit | AdventOfCode2021/Tools/QuickTravelSalesPerson.cs:68 | removing a present bit k clears it and keeps every other bit |
| Bits.FullMask | AdventOfCode2021/Tools/QuickTravelSalesPerson.cs:87 | `(1 << n) - 1` holds every city below n |
| Names.SortedNames | AdventOfCode2021/Tools/QuickTravelSalesPerson.cs:18 | the city list is strictly ascending (so each name appears once) and holds exactly the names of the pairs |
| Names.IndexOf | AdventOfCode2021/Tools/QuickTravelSalesPerson.cs:35-36 | `IndexOf` finds the position of a listed name and -1 exactly for a name not in the list |
| Names.BeforeTotal | AdventOfCode2021/Tools/QuickTravelSalesPerson.cs:18 | the ordinal order on names is total and asymmetric, so the sorted list is unique |
| TravelingSalespersonProblem.EntryUntouched | AdventOfCode2021/Tools/QuickTravelSalesPerson.cs:24-30 | a pair of cities no pair joins keeps 0 on the diagonal and `int.MaxValue` elsewhere |
| TravelingSalespersonProblem.LastPairWins | AdventOfCode2021/Tools/QuickTravelSalesPerson.cs:33-39 | the distance between two cities is the one given by the last pair joining them |
| TravelingSalespersonProblem.EntrySymmetric | AdventOfCode2021/Tools/QuickTravelSalesPerson.cs:37-38 | the table is symmetric |
| TravelingSalespersonProblem.TableNonNegative | AdventOfCode2021/Tools/QuickTravelSalesPerson.cs:21-39 | non-negative pair distances give a non-negative table |
| TravelingSalespersonProblem.GetDistanceTable | AdventOfCode2021/Tools/QuickTravelSalesPerson.cs:15-42 | the array built is the table of the sorted cities, entry by entry |
| TravelingSalespersonProblem.FillTable | AdventOfCode2021/Tools/QuickTravelSalesPerson.cs:46-78 | after the subset loop every `dp[mask, v]` equals the recurrence `Value`: 0 for the single city v, otherwise the best reached `dp[mask - v, u] + graph[u, v]` over the u of the mask joined to v |
| TravelingSalespersonProblem.ValueOptimal | AdventOfCode2021/Tools/QuickTravelSalesPerson.cs:63-78 | with non-negative distances `dp[mask, v]` is at least as good as the cost of every route that visits exactly the cities of mask, each once, and ends at v |
| TravelingSalespersonProblem.ValueWitness | AdventOfCode2021/Tools/QuickTravelSalesPerson.cs:63-78 | a `dp[mask, v]` other than the initial sentinel is the cost of such a route |
| TravelingSalespersonProblem.TourIsFullRoute | AdventOfCode2021/Tools/QuickTravelSalesPerson.cs:87 | a route through every city once is exactly a route whose mask is `(1 << n) - 1` |
| TravelingSalespersonProblem.OpenAnswerOptimal | AdventOfCode2021/Tools/QuickTravelSalesPerson.cs:99-111 | without the closing edge the answer, when not -1, is the cost of a tour through every city and at least as good as every such tour; -1 means no tour is cheaper than `int.MaxValue` (for the maximum: no tour) |
| TravelingSalespersonProblem.ClosedAnswerOptimal | AdventOfCode2021/Tools/QuickTravelSalesPerson.cs:82-98 | with the closing edge the answer, when not -1, is the cost of a tour plus one more edge from its last city to another city, and at least as good as every such closed tour |
| TravelingSalespersonProblem.MinDistanceOfTable | AdventOfCode2021/Tools/QuickTravelSalesPerson.cs:44-112 | the shortest-route search returns the minimising `Answer` of the table |
| TravelingSalespersonProblem.MaxDistanceOfTable | AdventOfCode2021/Tools/QuickTravelSalesPerson.cs:114-182 | the longest-route search returns the maximising `Answer` of the table |
| TravelingSalespersonProblem.FindMinDistance | AdventOfCode2021/Tools/QuickTravelSalesPerson.cs:5-8 | the shortest route over the cities of the pairs, as the minimising `Answer` of their table |
| TravelingSalespersonProblem.FindMaxDistance | AdventOfCode2021/Tools/QuickTravelSalesPerson.cs:10-13 | the longest route over the cities of the pairs, as the maximising `Answer` of their table |
| TravelingSalespersonProblem.CycleAnswerOptimal | AdventOfCode2021/Tools/QuickTravelSalesPerson.cs:82-98 | the corrected closed answer, when not -1, is the cost of a tour from the first city back to it and at least as good as every such cycle; -1 means no cycle beats the sentinel |
| TravelingSalespersonProblem.ClosingEdgeNotToStart | AdventOfCode2021/Tools/QuickTravelSalesPerson.cs:85-97 | for the three cities with a-b 1, b-c 1, a-c 100 the closed search as written answers 3 (a-b-c plus the edge c-b back), while every cycle back to the start costs at least 102 and the corrected answer is 102 |
| TravelingSalespersonProblem.MissingPairTakenAsEdge | AdventOfCode2021/Tools/QuickTravelSalesPerson.cs:142 | for the pairs (a, b, 0) and (b, c, 0) the maximum search as written answers `int.MaxValue`, a route through the missing pair a-c, while every route through the pairs has length at most 0 and the corrected answer is 0 |
| TravelingSalespersonProblem.UnreachedEntryWraps | AdventOfCode2021/Tools/QuickTravelSalesPerson.cs:75 | with pairs (a, b, 1) and (b, c, 1) the route a-b-c costs 2 and the corrected search answers 2, while the push as written answers `int.MinValue` |
| Dijkstra.Create | AdventOfCode2021/Tools/QuickDijkstra.cs:18-47 | `None` (the source's `InvalidDataException`) exactly when two pairs join the same two nodes with different distances; otherwise the nodes are the distinct names in ascending order and every node's links say, for each other node, the distance of the first pair joining them |
| Dijkstra.AddPair | AdventOfCode2021/Tools/QuickDijkstra.cs:26-46 | one pair adds both directions; it fails exactly when it contradicts an earlier pair, and otherwise the links become those of one more pair |
| Dijkstra.BuiltSymmetric | AdventOfCode2021/Tools/QuickDijkstra.cs:30-45 | x links to y at the same distance as y links to x |
| Dijkstra.BuiltMeaning | AdventOfCode2021/Tools/QuickDijkstra.cs:30-45 | x links to y exactly when some pair joins them, and then at the distance of every such pair |
| Dijkstra.NextNode | AdventOfCode2021/Tools/QuickDijkstra.cs:72 | the chosen node is unvisited, no unvisited node is closer, every earlier unvisited node is strictly farther (the stable `OrderBy` keeps the first); none only when all are visited |
| Dijkstra.Relax | AdventOfCode2021/Tools/QuickDijkstra.cs:60-71 | a visited node's distance no longer changes, no distance grows, every link from the current node to an unvisited one is relaxed, and every finite distance stays the weight of a walk from the start |
| Dijkstra.VisitOptimal | AdventOfCode2021/Tools/QuickDijkstra.cs:57-73 | with non-negative distances, the closest unvisited node is at most as far as every walk to it |
| Dijkstra.QuickDijkstra.GetShortestWay | AdventOfCode2021/Tools/QuickDijkstra.cs:49-75 | 0 from a node to itself; below `long.MaxValue` only as the weight of a walk from `from` to `to` (so `long.MaxValue` when `to` is unreachable); with non-negative distances no walk is shorter |
| Dijkstra.UnreachedNodeWraps | AdventOfCode2021/Tools/QuickDijkstra.cs:66 | with pairs (a, b, 1) and (c, d, 1), no walk joins a and d, yet the search as written answers `long.MinValue` |
| Dijkstra.QuickDijkstra.FindShortestPath | AdventOfCode2021/Tools/QuickDijkstra.cs:87-110 | the depth-first search computes Explore of the visited set it was given: the best completion of the visited nodes, or the error; on a normal return the shared visited set is as it was on entry |
| Dijkstra.ExploreMeaning | AdventOfCode2021/Tools/QuickDijkstra.cs:87-110 | Explore is `None` exactly when the link back is wanted and some route visiting every remaining node has none; otherwise no such route is shorter, and a value below `long.MaxValue` is the length of one |
| Dijkstra.QuickDijkstra.GetShortestPathVisitingAllNodes | AdventOfCode2021/Tools/QuickDijkstra.cs:77-85 | the same for the routes from `start` through every other node once (and back when asked): error exactly when one of them has no link back, else no such route is shorter and a value below `long.MaxValue` is the length of one |
| Dijkstra.QuickDijkstra.GetNodesInNetwork | AdventOfCode2021/Tools/QuickDijkstra.cs:112-139 | an unknown name gives itself alone; otherwise the list starts with the name, repeats no name, and names exactly the nodes some walk from it reaches |
| Dijkstra.NetworkListed | AdventOfCode2021/Tools/QuickDijkstra.cs:112-139 | once the queue is empty the names listed start with the start's name, repeat none, and are exactly the names of the nodes connected to the start |
| Dijkstra.ClosedReachesAll | AdventOfCode2021/Tools/QuickDijkstra.cs:127-136 | a set of nodes that holds the start and every node linked from its members holds every node reached from the start |
| Patterns.RunMeaning | AdventOfCode2021/Tools/QuickPattern.cs:82-94 | walking back block by block from the final block ends at the longest run of equal blocks that starts after startOffset, and reports how many blocks it holds |
| Patterns.StartPositionMeaning | AdventOfCode2021/Tools/QuickPattern.cs:76-96 | the start position is -1 exactly when fewer than minimumRepetitions blocks of that length end the list after startOffset; otherwise it is where the longest such run begins |
| Patterns.FindPatternStartPosition | AdventOfCode2021/Tools/QuickPattern.cs:76-96 | the loop returns the start position of the run of blocks equal to the final block |
| Patterns.SameBlock | AdventOfCode2021/Tools/QuickPattern.cs:85-91 | the element-wise loop answers true exactly when the two blocks are equal |
| Patterns.FoundAt | AdventOfCode2021/Tools/QuickPattern.cs:59-68 | a non-negative start position yields a pattern whose count is the number of repeated blocks, at least minimumRepetitions |
| Patterns.FindPattern | AdventOfCode2021/Tools/QuickPattern.cs:43-74 | too little data gives null; otherwise the answer is the longest length in range with minimumRepetitions blocks ending the list, with its start and block count, and null means no length in range has them |
| Patterns.StartPositionFromMeaning | AdventOfCode2021/Tools/QuickPattern.cs:82 | with the bound read as "at or after startOffset", the start is -1 exactly when fewer than minimumRepetitions blocks end the list from startOffset on, and otherwise begins the longest such run |
| Patterns.BlockAtOffsetMissed | AdventOfCode2021/Tools/QuickPattern.cs:82 | for [1, 1] from offset 0 with length 1 and two repetitions, the strict test of line 82 never reads the block at index 0 and answers -1, while two equal blocks start at the offset and the inclusive reading answers 0 |
| Patterns.OffsetUndercounts | AdventOfCode2021/Tools/QuickPattern.cs:66 | for [9, 1, 1, 1, 1] from offset 1 the run starts at 2 and holds three blocks, while the count as written is 2 |
| HexGrids.Moves | AdventOfCode2021/Tools/QuickHexGrid.cs:28-50 | each layout has six moves, every key non-empty and every vector keeping the parity of x + y |
| HexGrids.MovesDecodable | AdventOfCode2021/Tools/QuickHexGrid.cs:28-50 | both move tables are read unambiguously when the longest matching key is taken first |
| HexGrids.NorthEastStalls | AdventOfCode2021/Tools/QuickHexGrid.cs:79-92 | in the double-height table "n" is tried before "ne", so the one-move path "ne" leaves "e", which no key starts, and the reading never ends |
| HexGrids.ParseSound | AdventOfCode2021/Tools/QuickHexGrid.cs:79-92 | the moves read from a path are table keys and spell out the path |
| HexGrids.ParseConcat | AdventOfCode2021/Tools/QuickHexGrid.cs:79-92 | reading the longest key first gives back exactly the list of moves a path was written from |
| HexGrids.QuickHexGrid.MatchKey | AdventOfCode2021/Tools/QuickHexGrid.cs:84 | the table search returns the entry with the longest key that starts the path, or none when no key does |
| HexGrids.QuickHexGrid.GetMoves | AdventOfCode2021/Tools/QuickHexGrid.cs:79-92 | the loop returns the moves the path spells out, or none where no key fits the rest of the path |
| HexGrids.QuickHexGrid.Follow | AdventOfCode2021/Tools/QuickHexGrid.cs:71-76 | adding the moves' vectors one by one reaches the end of the walk |
| HexGrids.QuickHexGrid.GetTileCoordinate | AdventOfCode2021/Tools/QuickHexGrid.cs:68-77 | the tile reached from the start by the moves of the path; a path written from a list of moves leads where that list leads |
| HexGrids.WalkAppend | AdventOfCode2021/Tools/QuickHexGrid.cs:68-77 | walking one list of moves then another ends where walking both together does |
| HexGrids.WalkParity | AdventOfCode2021/Tools/QuickHexGrid.cs:68-77 | every walk keeps the parity of x + y of its start tile |
| HexGrids.CreateTiles | AdventOfCode2021/Tools/QuickHexGrid.cs:52-60 | exactly the (2d + 1)^2 tiles with both coordinates in [-d, d], all off, and none for a negative d |
| HexGrids.QuickHexGrid.Default | AdventOfCode2021/Tools/QuickHexGrid.cs:22-24 | a double-height grid with the single tile (0, 0), off |
| HexGrids.QuickHexGrid.constructor | AdventOfCode2021/Tools/QuickHexGrid.cs:26-61 | the move table of the layout and the square of tiles within the distance, all off |
| HexGrids.QuickHexGrid.SetAllTiles | AdventOfCode2021/Tools/QuickHexGrid.cs:63-66 | the tiles become the given state |
| HexGrids.QuickHexGrid.GetNeighbours | AdventOfCode2021/Tools/QuickHexGrid.cs:94-102 | one answer per move, in table order: whether the tile that move leads to exists and is on |
| HexGrids.ComputeDistanceMetric | AdventOfCode2021/Tools/QuickHexGrid.cs:104-109 | the distance is symmetric and, between tiles of the same parity, zero only from a tile to itself |
| HexGrids.ComputeDistanceLayouts | AdventOfCode2021/Tools/QuickHexGrid.cs:104-109 | the formula agrees with the double-height distance when the column difference is the smaller, with the double-width distance when the row difference is, and is never above either |
| HexGrids.DistanceUnderestimates | AdventOfCode2021/Tools/QuickHexGrid.cs:104-109 | the formula puts (1, 3) and (3, 1) two away from the origin, yet no double-width walk reaches (1, 3), and no double-height walk reaches (3, 1), in fewer than three moves |
| HexGrids.HexDistance | AdventOfCode2021/Tools/QuickHexGrid.cs:104-109 | the per-layout distance is zero between tiles of the same parity only from a tile to itself |
| HexGrids.MinimalMoves | AdventOfCode2021/Tools/QuickHexGrid.cs:104-109 | no walk reaches a tile in fewer moves than the per-layout distance |
| HexGrids.RouteReaches | AdventOfCode2021/Tools/QuickHexGrid.cs:104-109 | every tile of the same parity is reached by a walk of exactly the per-layout distance |
| Circuits.Evaluate | AdventOfCode2021/Tools/QuickCircuit.cs:82-115 | nothing changes while the first input, or the second input of AND, OR or XOR, is empty; an assigned value is of the first input's kind |
| Circuits.BooleanGates | AdventOfCode2021/Tools/QuickCircuit.cs:89-100 | on boolean wires NOT, SAME, AND, OR and XOR have their boolean meaning and the shifts throw |
| Circuits.ComputeThrows | AdventOfCode2021/Tools/QuickCircuit.cs:82-115 | a gate throws exactly on a boolean shift, or when it must read a second input of the other kind; AND with false and OR with true never read it |
| Circuits.AnalogNot | AdventOfCode2021/Tools/QuickCircuit.cs:103 | on a 16-bit wire NOT flips every bit, giving 65535 - x |
| Circuits.AnalogNotTwice | AdventOfCode2021/Tools/QuickCircuit.cs:103 | two NOT gates give a 16-bit value back |
| Circuits.AnalogAnd | AdventOfCode2021/Tools/QuickCircuit.cs:105 | on 16-bit wires each bit of AND is the AND of the two input bits |
| Circuits.AnalogOr | AdventOfCode2021/Tools/QuickCircuit.cs:106 | on 16-bit wires each bit of OR is the OR of the two input bits |
| Circuits.AnalogXor | AdventOfCode2021/Tools/QuickCircuit.cs:107 | on 16-bit wires each bit of XOR is the XOR of the two input bits |
| Circuits.ShiftLeftBits | AdventOfCode2021/Tools/QuickCircuit.cs:108 | LSHIFT by a count taken modulo 32 moves bit j - k to bit j, clears the low k bits, and clears every bit from 16 on |
| Circuits.ShiftRightBits | AdventOfCode2021/Tools/QuickCircuit.cs:109 | RSHIFT by a count taken modulo 32 moves bit j + k to bit j and clears the bits with nothing above them |
| Circuits.Wire.constructor | AdventOfCode2021/Tools/QuickCircuit.cs:22-27 | a wire holds the given name, kind and value |
| Circuits.Gate.Binary | AdventOfCode2021/Tools/QuickCircuit.cs:44-55 | the two-input constructor succeeds exactly for AND, OR and XOR and stores both inputs and the output |
| Circuits.Gate.Unary | AdventOfCode2021/Tools/QuickCircuit.cs:57-67 | the one-input constructor succeeds exactly for NOT and SAME, with no second input |
| Circuits.Gate.Shift | AdventOfCode2021/Tools/QuickCircuit.cs:69-80 | the shift constructor succeeds exactly for LSHIFT and RSHIFT and stores the shift size |
| Circuits.Gate.Compute | AdventOfCode2021/Tools/QuickCircuit.cs:82-115 | the output takes the gate's value of its inputs; an empty input or an exception leaves it as it was |
| Circuits.ValueFromString | AdventOfCode2021/Tools/QuickCircuit.cs:226-243 | empty text is no value; a boolean diagram gives a boolean or nothing, an analog diagram a 16-bit value or nothing |
| Circuits.ValueRoundTrip | AdventOfCode2021/Tools/QuickCircuit.cs:226-243 | "0" and "1" read back as false and true, and the decimal text of any 16-bit value reads back as that value |
| Circuits.ValueRejects | AdventOfCode2021/Tools/QuickCircuit.cs:239 | numbers outside 0..65535 give no value |
| Circuits.ParseShift | AdventOfCode2021/Tools/QuickCircuit.cs:217 | the shift size is an `int` read from the operand text, and every `int` text is accepted |
| Circuits.AddGate | AdventOfCode2021/Tools/QuickCircuit.cs:172-208 | recording a gate appends it to the gate list and leaves exactly its wires, old and new, in the wire table |
| Circuits.ParseArrow | AdventOfCode2021/Tools/QuickCircuit.cs:144-208 | for a boolean gate other than AND, OR or XOR there is no second value text; read as intended, it is the second operand |
| Circuits.ArrowKnown | AdventOfCode2021/Tools/QuickCircuit.cs:140-207 | after a "->" part every recorded gate's wires exist and earlier gates and wires stay |
| Circuits.ScanKnown | AdventOfCode2021/Tools/QuickCircuit.cs:132-208 | after the first pass every gate's input and output wires exist, so the second pass finds each of them |
| Circuits.ConstantOverwrites | AdventOfCode2021/Tools/QuickCircuit.cs:149-156 | a lone number before "->" sets the wire to that constant whether or not it existed, and records no gate |
| Circuits.IntendedSelfValued | AdventOfCode2021/Tools/QuickCircuit.cs:188-195 | read as intended, a diagram without constants starts every wire at the value of its own name |
| Circuits.SecondOperandUnset | AdventOfCode2021/Tools/QuickCircuit.cs:193 | as written, "x AND 1 -> y" leaves the wire "1" empty, where reading the operand gives it the value 1 |
| Circuits.SetWire | AdventOfCode2021/Tools/QuickCircuit.cs:151-155 | the wire is added, or else the existing wire object gets the new value; every other wire is unchanged |
| Circuits.AddGateWires | AdventOfCode2021/Tools/QuickCircuit.cs:172-208 | the wire objects of a recorded gate stand for the values of the gathered table |
| Circuits.ApplyArrow | AdventOfCode2021/Tools/QuickCircuit.cs:140-207 | one "->" part over wire objects follows the value-level step, failing with the same exception |
| Circuits.ApplyLine | AdventOfCode2021/Tools/QuickCircuit.cs:133-207 | one line over wire objects follows the value-level step, failing with the same exception |
| Circuits.ReadLines | AdventOfCode2021/Tools/QuickCircuit.cs:131-208 | the first pass gives one wire object per name holding its gathered value, and the gates in line order |
| Circuits.BuildGate | AdventOfCode2021/Tools/QuickCircuit.cs:212-219 | each gate kind goes to its constructor with the wires named by its description |
| Circuits.BuildGates | AdventOfCode2021/Tools/QuickCircuit.cs:210-220 | gate t is numbered t and built from description t; the pass fails exactly when a shift size is not an `int` |
| Circuits.CreateDiagram | AdventOfCode2021/Tools/QuickCircuit.cs:128-224 | the diagram fails with the first exception of the line pass, otherwise succeeds exactly when every shift size parses, with one distinct fresh wire per name and gate t built from the t-th description |
| ChainedNodes.ChainedNode.constructor | AdventOfCode2021/Tools/ChainedNode.cs:12-17 | a new node holds its value and is a ring of one |
| ChainedNodes.ChainedNode.InsertBefore | AdventOfCode2021/Tools/ChainedNode.cs:19-29 | the ring starting at the new node is spliced in just before this node, giving one ring: this ring followed by the inserted one |
| ChainedNodes.ChainedNode.InsertAfter | AdventOfCode2021/Tools/ChainedNode.cs:31-41 | the ring starting at the new node is spliced in just after this node, ahead of the rest of this ring |
| ChainedNodes.ChainedNode.RemovePreviousNode | AdventOfCode2021/Tools/ChainedNode.cs:43-58 | the k nodes before this one leave as a ring of their own, returned by its first node (k steps back); the rest stays a ring |
| ChainedNodes.ChainedNode.Remove | AdventOfCode2021/Tools/ChainedNode.cs:60-65 | this node becomes a ring of one and the rest of its ring closes up without it |
| ChainedNodes.ChainedNode.RemoveNextNode | AdventOfCode2021/Tools/ChainedNode.cs:67-82 | the k nodes after this one leave as a ring of their own, returned by its first node; this node stays ringed with the rest |
| ChainedNodes.ChainedNode.ChainContain | AdventOfCode2021/Tools/ChainedNode.cs:84-93 | true exactly when some node of the ring holds the value |
| ChainedNodes.ChainedNode.MoveForward | AdventOfCode2021/Tools/ChainedNode.cs:95-98 | the node reached stays in the ring |
| ChainedNodes.ChainedNode.MoveBackward | AdventOfCode2021/Tools/ChainedNode.cs:100-103 | the node reached stays in the ring |
| ChainedNodes.ForwardInRing | AdventOfCode2021/Tools/ChainedNode.cs:95-98 | k steps forward from position i reach position (i + k) mod the ring size |
| ChainedNodes.BackwardInRing | AdventOfCode2021/Tools/ChainedNode.cs:100-103 | k steps back from position i reach position (i - k) mod the ring size |
| ChainedNodes.ForwardBackward | AdventOfCode2021/Tools/ChainedNode.cs:95-103 | k steps back undo k steps forward and the other way round |
| ChainedNodes.RingInvariant | AdventOfCode2021/Tools/ChainedNode.cs:19-82 | in a ring, `Next.Previous` and `Previous.Next` of every node lead back to it |
| Reactor.Units | AdventOfCode2021/Solver/Day22.cs:183-192 | a valid box holds at least one cube |
| Reactor.CubesCount | AdventOfCode2021/Solver/Day22.cs:183-192 | the size product is exactly the number of cubes in the box |
| Reactor.OverlapMeansCommonCube | AdventOfCode2021/Solver/Day22.cs:246-251 | two valid boxes overlap exactly when some cube lies in both |
| Reactor.InsideMeansEveryCube | AdventOfCode2021/Solver/Day22.cs:280-285 | a valid box is fully inside another exactly when every one of its cubes is |
| Reactor.SameExtentSameCubes | AdventOfCode2021/Solver/Day22.cs:253-259 | boxes equal by extent hold the same cubes and the same count, whatever their states |
| Reactor.SplitBox | AdventOfCode2021/Solver/Day22.cs:194-244 | cutting a box along one axis gives one to three pieces |
| Reactor.SplitBoxValid | AdventOfCode2021/Solver/Day22.cs:194-244 | every piece of a valid box is a valid box |
| Reactor.SplitBoxUnits | AdventOfCode2021/Solver/Day22.cs:194-244 | the pieces hold as many cubes as the box |
| Reactor.SplitBoxCovers | AdventOfCode2021/Solver/Day22.cs:194-244 | a cube lies in some piece exactly when it lies in the box |
| Reactor.SplitBoxDisjoint | AdventOfCode2021/Solver/Day22.cs:194-244 | no two pieces overlap |
| Reactor.SplitBoxShape | AdventOfCode2021/Solver/Day22.cs:194-244 | every piece keeps the state of the box and lies within it |
| Reactor.SplitBoxSeparated | AdventOfCode2021/Solver/Day22.cs:194-244 | along the cut axis each piece lies either wholly inside or wholly outside the cutting range |
| Reactor.SplitAcross | AdventOfCode2021/Solver/Day22.cs:83-92 | after the three passes the list lights the same cubes with the same count, stays valid and disjoint, and each piece misses the new box or lies fully inside it |
| Reactor.RemoveInside | AdventOfCode2021/Solver/Day22.cs:95 | no box fully inside the new box remains |
| Reactor.RemoveInsideKeeps | AdventOfCode2021/Solver/Day22.cs:95 | the boxes left stay valid, disjoint and on, are boxes of the list, and none overlaps the new box |
| Reactor.RemoveInsideLit | AdventOfCode2021/Solver/Day22.cs:95 | a cube stays lit exactly when it was lit and lies outside the new box |
| Reactor.CombineCubes | AdventOfCode2021/Solver/Day22.cs:124-131 | two mergeable boxes combine into a valid box holding exactly the cubes of the two |
| Reactor.CombineUnits | AdventOfCode2021/Solver/Day22.cs:141-174 | two mergeable boxes neither overlap nor share an extent, and the combined box counts the cubes of both |
| Reactor.FindMergeable | AdventOfCode2021/Solver/Day22.cs:120 | the first box of a different extent that can be merged with the given one, or none when there is no such box |
| Reactor.RemoveFirstAt | AdventOfCode2021/Solver/Day22.cs:132-133 | `Remove` drops the first box equal by extent and nothing else |
| Reactor.MergeStep | AdventOfCode2021/Solver/Day22.cs:124-133 | one merge replaces the two boxes by their combination, shortening the list, keeping it valid and disjoint, and lighting the same cubes with the same count |
| Reactor.Merge | AdventOfCode2021/Solver/Day22.cs:107-139 | the merged list is valid, disjoint, on, lights the same cubes with the same count, and no two of its boxes of different extents can still be merged |
| Reactor.ClipCubes | AdventOfCode2021/Solver/Day22.cs:55-74 | a clipped box holds exactly the cubes of the box within -50..50; a box ignored for lying outside holds none there |
| Reactor.StoreFirst | AdventOfCode2021/Solver/Day22.cs:76-81 | the first step of an empty space lights exactly the cubes of the box when it is on, and none when it is off |
| Reactor.StoreFirstAsWritten | AdventOfCode2021/Solver/Day22.cs:76-81 | the first box is stored as it comes, whatever its state |
| Reactor.FirstOffBoxCounted | AdventOfCode2021/Solver/Day22.cs:76-81 | a first "off" instruction is counted as one lit cube as written, and as none once corrected |
| Reactor.InfiniteSpace.NbrOfUnit | AdventOfCode2021/Solver/Day22.cs:51 | the count over a valid space is never negative |
| Reactor.InfiniteSpace.AddInstruction | AdventOfCode2021/Solver/Day22.cs:53-105 | afterwards a cube is lit exactly when the clipped box switches it on, or it was lit and the box misses it; the boxes stay on, valid and disjoint |
| Reactor.LitCubesCount | AdventOfCode2021/Solver/Day22.cs:51 | over valid, pairwise disjoint boxes the summed sizes equal the number of lit cubes |
| Reactor.ExecuteAllRebootInstructionAndCountOnBox | AdventOfCode2021/Solver/Day22.cs:23-31 | the answer is the number of cubes whose last instruction reaching them (clipped for part 1) is "on" |
| Snailfish.MagnitudeIsWeightedSum | AdventOfCode2021/Solver/Day18.cs:47-49 | the magnitude is the sum of the regular numbers, each weighted by 3 for every left step and 2 for every right step on its path |
| Snailfish.MagnitudeAtLeastSum | AdventOfCode2021/Solver/Day18.cs:47-49 | with no negative number, the magnitude is at least the sum of the regular numbers |
| Snailfish.PairToExplode | AdventOfCode2021/Solver/Day18.cs:262-292 | a found pair is nested inside four pairs and holds two regular numbers |
| Snailfish.PairToExplodeFirst | AdventOfCode2021/Solver/Day18.cs:262-292 | no pair is found only when no pair can explode; otherwise every pair that can explode is the found one or comes after it, left to right |
| Snailfish.AddLeftmost | AdventOfCode2021/Solver/Day18.cs:229-260 | adding to the closest regular number on the right changes the first leaf of that subtree by the value and nothing else |
| Snailfish.AddRightmost | AdventOfCode2021/Solver/Day18.cs:196-227 | adding to the closest regular number on the left changes the last leaf of that subtree by the value and nothing else |
| Snailfish.ExplodeAtLeaves | AdventOfCode2021/Solver/Day18.cs:147-194 | an explosion adds its left number to the previous leaf and its right number to the next leaf, if any, and puts 0 in place of the pair; the other leaves stay |
| Snailfish.ExplodeAtShape | AdventOfCode2021/Solver/Day18.cs:180-190 | an explosion replaces the pair by a regular number and removes exactly one pair |
| Snailfish.LeavesReplace | AdventOfCode2021/Solver/Day18.cs:180-190 | replacing the item at a position replaces exactly its run of leaves and no other leaf |
| Snailfish.PairToSplit | AdventOfCode2021/Solver/Day18.cs:113-145 | a found position leads to a pair of the tree |
| Snailfish.PairToSplitFirst | AdventOfCode2021/Solver/Day18.cs:113-145 | no pair is found exactly when every leaf is below 10; otherwise splitting replaces the first leaf of 10 or more by its two halves and leaves the others |
| Snailfish.Halves | AdventOfCode2021/Solver/Day18.cs:95-111 | the two halves are regular numbers that add up to the value, the right one rounded up |
| Snailfish.ExplodeAll | AdventOfCode2021/Solver/Day18.cs:72-83 | the inner loop ends with no pair left to explode, and a pair stays a pair |
| Snailfish.ReduceSpecReduced | AdventOfCode2021/Solver/Day18.cs:70-93 | a reduced number has no pair that can explode and no regular number of 10 or more |
| Snailfish.ReducedIsFixpoint | AdventOfCode2021/Solver/Day18.cs:70-93 | reducing a number that is already reduced leaves it unchanged |
| Snailfish.Reduce | AdventOfCode2021/Solver/Day18.cs:70-93 | the nested loops compute the reduction, or give none when the split allowance runs out |
| Snailfish.TryParseInt32 | AdventOfCode2021/Solver/Day18.cs:312-313 | a number read as an item lies in the 32-bit range |
| Snailfish.ParseSnail | AdventOfCode2021/Solver/Day18.cs:294-318 | a line read as a snailfish number is a pair |
| Snailfish.SplitString | AdventOfCode2021/Solver/Day18.cs:294-318 | the scan for the first comma outside brackets reads the line as ParseSnail does, with an error for a line without one |
| Snailfish.ParsePrint | AdventOfCode2021/Solver/Day18.cs:320-330 | reading the text of an item of 32-bit numbers gives the item back |
| Snailfish.PrintedPairParses | AdventOfCode2021/Solver/Day18.cs:294-318 | the text of a pair reads back as that pair |
| Snailfish.SkipItem | AdventOfCode2021/Solver/Day18.cs:298-316 | the scan for the comma passes over a whole printed item without stopping inside it |
| Snailfish.SumFromReduced | AdventOfCode2021/Solver/Day18.cs:7-17 | every partial sum of the lines is reduced |
| Snailfish.Solution1 | AdventOfCode2021/Solver/Day18.cs:7-17 | the loop adds the lines left to right, reducing each sum, and answers the magnitude of the total |
| Snailfish.Solution2 | AdventOfCode2021/Solver/Day18.cs:19-39 | the answer is the largest magnitude of a sum of two different lines; none when any such sum fails; `long.MinValue` with fewer than two lines |
| PacketDecoder.MirrorBits | AdventOfCode2021/Solver/Day16.cs:133-142 | the loop gives the lowest bitCount bits of the value in the opposite order |
| PacketDecoder.MirrorInvolution | AdventOfCode2021/Solver/Day16.cs:133-142 | mirroring twice over the same width gives back the low bits of the value |
| PacketDecoder.MirrorBound | AdventOfCode2021/Solver/Day16.cs:133-142 | a mirrored value fits in the bits it was given |
| PacketDecoder.HexDigitValue | AdventOfCode2021/Solver/Day16.cs:53-55 | a hexadecimal character gives a value below 16, a lower-case letter the same as its upper-case form |
| PacketDecoder.MirroredHex | AdventOfCode2021/Solver/Day16.cs:46-63 | the text read as one number fits in four bits per character, and mirrored over them it is the transmission with its first bit lowest |
| PacketDecoder.ExtractData | AdventOfCode2021/Solver/Day16.cs:46-67 | the loop over the characters, the mirror and the reader give the packet Decode gives |
| PacketDecoder.Parse | AdventOfCode2021/Solver/Day16.cs:69-131 | version and type are 3-bit values; a literal packet has no sub-packets and takes at least 11 bits; an operator packet takes at least 18 |
| PacketDecoder.ReadGroupsAt | AdventOfCode2021/Solver/Day16.cs:81-90 | groups written at the start of the data read back as the literal their digits spell, most significant first, and their number |
| PacketDecoder.ByLength | AdventOfCode2021/Solver/Day16.cs:104-111 | an announced length of 0 reads no sub-packet; otherwise at least one, using up at least the announced length |
| PacketDecoder.ByCount | AdventOfCode2021/Solver/Day16.cs:120-126 | exactly the announced number of sub-packets is read |
| PacketDecoder.ParseEncoded | AdventOfCode2021/Solver/Day16.cs:69-131 | the bits the encoder writes for a well-formed packet, followed by anything, read back as that packet and consume exactly those bits |
| PacketDecoder.DecodeEncoded | AdventOfCode2021/Solver/Day16.cs:46-67 | a text whose transmission starts with an encoded packet decodes to that packet |
| PacketDecoder.GetPacketsFromMirroredData | AdventOfCode2021/Solver/Day16.cs:69-131 | the recursive reader returns the one packet Parse reads and the bits it consumes |
| PacketDecoder.ReadLiteral | AdventOfCode2021/Solver/Day16.cs:81-92 | the do-while reads the literal of the groups and five bits per group |
| PacketDecoder.ReadByLength | AdventOfCode2021/Solver/Day16.cs:98-112 | the while loop reads the sub-packets ByLength reads, in order, and their bits |
| PacketDecoder.ReadByCount | AdventOfCode2021/Solver/Day16.cs:114-127 | the for loop reads the sub-packets ByCount reads, in order, and their bits |
| PacketDecoder.VersionSumOfAll | AdventOfCode2021/Solver/Day16.cs:29 | the version sum is the sum of the versions of every packet of the tree |
| PacketDecoder.MinOf | AdventOfCode2021/Solver/Day16.cs:20 | the minimum of a non-empty list is one of its values and no larger than any |
| PacketDecoder.MaxOf | AdventOfCode2021/Solver/Day16.cs:21 | the maximum of a non-empty list is one of its values and no smaller than any |
| PacketDecoder.Value | AdventOfCode2021/Solver/Day16.cs:16-27 | an unknown type fails, an empty minimum or maximum fails; a comparison has a value exactly when it has two operands with values, and the value is 1 when the comparison holds and 0 otherwise |
| PacketDecoder.ValuesOk | AdventOfCode2021/Solver/Day16.cs:18-21 | the sub-packet values are listed exactly when every sub-packet has a value, in order |
| PacketDecoder.ValueMaximum | AdventOfCode2021/Solver/Day16.cs:21 | a maximum packet with a value has sub-packets, its value is one of theirs and no smaller than any |
| PacketDecoder.ValueMinimum | AdventOfCode2021/Solver/Day16.cs:20 | a minimum packet with a value has sub-packets, its value is one of theirs and no larger than any |
| PacketDecoder.ValueDefined | AdventOfCode2021/Solver/Day16.cs:16-27 | a packet with a known type and enough operands everywhere in its tree has a value |
| PacketDecoder.Solution1 | AdventOfCode2021/Solver/Day16.cs:34-38 | the answer is the sum of the versions of every packet of the decoded tree |
| PacketDecoder.Solution2 | AdventOfCode2021/Solver/Day16.cs:40-44 | the answer is a value, not an exception, whenever the decoded tree is evaluable |
| Text.TrimKeepsMiddle | AdventOfCode2021/Solver/Day21.cs:121 | `Trim` keeps one contiguous middle part that neither starts nor ends with white space, and what it drops on either side is white space |
| Text.TrimIdempotent | AdventOfCode2021/Solver/Day21.cs:121 | trimming twice is trimming once |
| BinaryDiagnostic.Flip | AdventOfCode2021/Solver/Day03.cs:17-18 | the flipped string has the same length, with '1' exactly where the input has '0' |
| BinaryDiagnostic.FlipSum | AdventOfCode2021/Solver/Day03.cs:17-20 | a binary string and its flip add up to 2^n - 1 |
| BinaryDiagnostic.BinValueBound | AdventOfCode2021/Solver/Day03.cs:20 | an n-digit binary string denotes a value below 2^n |
| BinaryDiagnostic.ParseShort | AdventOfCode2021/Solver/Day03.cs:20 | `Convert.ToInt32(s, 2)` of a binary string of 1 to 31 digits gives its value |
| BinaryDiagnostic.Keep | AdventOfCode2021/Solver/Day03.cs:33 | the kept numbers are exactly the input numbers with the given bit at position i, and there are as many as the bit count says |
| BinaryDiagnostic.ZerosAndOnes | AdventOfCode2021/Solver/Day03.cs:15-16 | on binary numbers the counts of '0' and '1' at a position add up to the list length |
| BinaryDiagnostic.GammaMostCommon | AdventOfCode2021/Solver/Day03.cs:15-17 | gamma has '1' at position i exactly when ones strictly outnumber zeros there |
| BinaryDiagnostic.EpsilonFlipsGamma | AdventOfCode2021/Solver/Day03.cs:17-18 | epsilon is gamma with every bit flipped |
| BinaryDiagnostic.RatesAddUp | AdventOfCode2021/Solver/Day03.cs:17-20 | gamma and epsilon add up to 2^k - 1 |
| BinaryDiagnostic.ParsedRates | AdventOfCode2021/Solver/Day03.cs:20 | for 1 to 31 columns both rates parse to their values, and epsilon is 2^n - 1 - gamma |
| BinaryDiagnostic.PowerOfShortReport | AdventOfCode2021/Solver/Day03.cs:9-21 | for a report of 1 to 31 columns the power consumption is gamma × (2^n - 1 - gamma), wrapped to 32 bits as the `int` product is |
| BinaryDiagnostic.GetSolution1 | AdventOfCode2021/Solver/Day03.cs:9-21 | the column loop builds the two rates and returns their product, or the exception `Convert.ToInt32` throws |
| BinaryDiagnostic.OxygenStepKeepsMajority | AdventOfCode2021/Solver/Day03.cs:29-34 | an oxygen step keeps at least half of the numbers and at least one, strictly fewer when the column is mixed, each with the most common bit ('1' on a tie) |
| BinaryDiagnostic.Co2StepKeepsMinority | AdventOfCode2021/Solver/Day03.cs:35-40 | the corrected CO2 step keeps at least one number, at most half of them when the column is mixed, each from the input |
| BinaryDiagnostic.Co2StepAgrees | AdventOfCode2021/Solver/Day03.cs:35-40 | on a mixed column the corrected CO2 step is the step as written |
| BinaryDiagnostic.Co2StepAsWrittenEmpties | AdventOfCode2021/Solver/Day03.cs:39 | on a column of ones only, the step as written keeps nothing while the corrected step keeps the list |
| BinaryDiagnostic.Co2ListEmptiesAsWritten | AdventOfCode2021/Solver/Day03.cs:39 | ["11", "10"]: the step as written empties the list at column 0; the corrected filter ends with ["10"] |
| BinaryDiagnostic.RoundKeepsNumbers | AdventOfCode2021/Solver/Day03.cs:27-41 | one column of both filters keeps two non-empty lists of input numbers |
| BinaryDiagnostic.RoundsKeepNumbers | AdventOfCode2021/Solver/Day03.cs:27-41 | after any number of columns both lists are non-empty and hold input numbers |
| BinaryDiagnostic.RoundsFailStays | AdventOfCode2021/Solver/Day03.cs:27-42 | once a column fails, the later columns keep that failure |
| BinaryDiagnostic.LifeSupportOfReport | AdventOfCode2021/Solver/Day03.cs:23-43 | on a report of equal-width numbers of 1 to 31 bits the rating is the wrapped product of two numbers of the report |
| BinaryDiagnostic.GetSolution2 | AdventOfCode2021/Solver/Day03.cs:23-43 | the filter loop returns the life support rating of the corrected filters, or the exception the source throws |
| Polymerization.Insert | AdventOfCode2021/Solver/Day14.cs:29-47 | one insertion step makes the polymer no shorter and keeps its first and last element |
| Polymerization.Grow | AdventOfCode2021/Solver/Day14.cs:27-48 | any number of steps keeps the first and last element and never shortens the polymer |
| Polymerization.PairsOfInsert | AdventOfCode2021/Solver/Day14.cs:29-47 | the pairs of the grown polymer are the two children of each ruled pair, and each unruled pair itself, in order |
| Polymerization.PairEnds | AdventOfCode2021/Solver/Day14.cs:50-58 | the pair elements plus the first and last element count every element of the polymer twice |
| Polymerization.EndsCount | AdventOfCode2021/Solver/Day14.cs:50-68 | an element's pair-end count plus one for being first and one for being last is twice its number of occurrences |
| Polymerization.RecoveryExact | AdventOfCode2021/Solver/Day14.cs:60-68 | the corrected recovery gives each element's exact number of occurrences |
| Polymerization.AsWrittenRecoveryCount | AdventOfCode2021/Solver/Day14.cs:60-68 | the recovery as written is exact except for the element that is both first and last, which it counts once too often |
| Polymerization.FirstEqualsLastOvercounted | AdventOfCode2021/Solver/Day14.cs:60-68 | "ABA": the recovery as written gives 3 for 'A', which occurs twice |
| Polymerization.RuleMapKeys | AdventOfCode2021/Solver/Day14.cs:89-93 | the rule dictionary's keys are exactly the left sides of the rules |
| Polymerization.CountPairs | AdventOfCode2021/Solver/Day14.cs:82-86 | the pair dictionary counts each adjacent pair of the template as often as it occurs |
| Polymerization.AddRules | AdventOfCode2021/Solver/Day14.cs:88-93 | the rules are added in order; a repeated left side throws `ArgumentException` with the rules before it added |
| Polymerization.NextPairCounts | AdventOfCode2021/Solver/Day14.cs:29-47 | the new pair dictionary counts the pairs of the polymer after one insertion step |
| Polymerization.StepRepresents | AdventOfCode2021/Solver/Day14.cs:27-48 | counts that stand for a polymer stand, after one step, for the grown polymer |
| Polymerization.CountElements | AdventOfCode2021/Solver/Day14.cs:51-58 | each element's tally is the number of pair ends it takes, and only elements that occur are keys |
| Polymerization.HalveCounts | AdventOfCode2021/Solver/Day14.cs:61-64 | every count is halved as C# `long` division truncates, the keys unchanged |
| Polymerization.RecoverCounts | AdventOfCode2021/Solver/Day14.cs:60-68 | the corrected recovery gives exactly the elements of the polymer, each with its number of occurrences |
| Polymerization.MaxAndMin | AdventOfCode2021/Solver/Day14.cs:71 | the largest and the smallest count, each attained by some element |
| Polymerization.SpreadOf | AdventOfCode2021/Solver/Day14.cs:71 | the largest count minus the smallest is the spread of the polymer, and not negative |
| Polymerization.PolymerSpread | AdventOfCode2021/Solver/Day14.cs:50-71 | from the pair counts of a polymer, the answer is its spread; a one-letter template throws `KeyNotFoundException` |
| Polymerization.Day14.ExtractData | AdventOfCode2021/Solver/Day14.cs:74-94 | the template is stored, its pairs counted and the rules added; a repeated rule throws `ArgumentException` |
| Polymerization.Day14.PerformCycle | AdventOfCode2021/Solver/Day14.cs:29-47 | the pair counts come to stand for the polymer after one more insertion step |
| Polymerization.Day14.ResultAfterPolymerizationCycles | AdventOfCode2021/Solver/Day14.cs:21-72 | the answer is the spread of the template grown n times; a repeated rule, an empty template and a one-letter template give the exceptions the source throws |
| DiracDice.RollsGoRound | AdventOfCode2021/Solver/Day21.cs:99-115 | the die face after n rolls stays in 1..100 and is the n-th face of the cycle, and the move is the sum of the faces rolled |
| DiracDice.ThreeRollsInARow | AdventOfCode2021/Solver/Day21.cs:99-115 | three rolls from face d ≤ 98 move 3d + 3 and leave the die at d + 3, or at 1 after 98 |
| DiracDice.RollSumBounds | AdventOfCode2021/Solver/Day21.cs:99-115 | n rolls move at least n and at most 100·n |
| DiracDice.Get100FacesDiceSum | AdventOfCode2021/Solver/Day21.cs:99-115 | the rolling loop returns the sum of the faces rolled and the face that comes next |
| DiracDice.Advance | AdventOfCode2021/Solver/Day21.cs:26 | a move from a position on the ring lands in 0..9 |
| DiracDice.ParsePositionsLineByLine | AdventOfCode2021/Solver/Day21.cs:121 | the positions are read line by line; the first line that fails gives the exception |
| DiracDice.ParseStartingPosition | AdventOfCode2021/Solver/Day21.cs:121 | "Player n starting position: p" is read as the zero-based position p - 1 |
| DiracDice.OutcomesInRange | AdventOfCode2021/Solver/Day21.cs:124-134 | each of the 27 Dirac outcomes is a sum of three rolls between 3 and 9 |
| DiracDice.DiceOutcomes | AdventOfCode2021/Solver/Day21.cs:124-134 | the triple loop lists the 27 sums of three rolls of 1..3 in loop order |
| DiracDice.Turn | AdventOfCode2021/Solver/Day21.cs:22-33 | a turn moves only the player at play, adds its new position plus one to its score, takes three rolls and brings the game closer to its end |
| DiracDice.PlayEnds | AdventOfCode2021/Solver/Day21.cs:20-34 | the game ends with a winner that reached 1000 while the loser is below, within the bound of rolls the scores allow |
| DiracDice.AnswerFits | AdventOfCode2021/Solver/Day21.cs:36-37 | from a valid start the game takes at most 6000 rolls and the answer is the rolls times the loser's score |
| DiracDice.PlayGame | AdventOfCode2021/Solver/Day21.cs:15-37 | the game loop ends on the positions of the game played and returns rolls × loser's score |
| DiracDice.Day21.ExtractData | AdventOfCode2021/Solver/Day21.cs:117-135 | the positions are the parsed lines and the outcomes are the 27 Dirac sums; a line that fails gives its exception |
| DiracDice.Day21.GetSolution1 | AdventOfCode2021/Solver/Day21.cs:11-38 | part one answers rolls × loser's score of the game played from the input |
| DiracDice.WinsCounted | AdventOfCode2021/Solver/Day21.cs:52-97 | from every state the win counts are non-negative and at least one game is won |
| DiracDice.WinsSymmetric | AdventOfCode2021/Solver/Day21.cs:52-97 | swapping the two players swaps their win counts |
| DiracDice.Day21.PerformSimulation | AdventOfCode2021/Solver/Day21.cs:52-97 | the memoised recursion returns the number of universes each player wins from the state; the memo only grows, and only with states no further from the end than the start |
| DiracDice.BestPlayerWins | AdventOfCode2021/Solver/Day21.cs:45-49 | with two or more positions read, the largest entry of the win array is the larger of the two players' wins: the entries of further lines stay 0 and no count is negative |
| DiracDice.Day21.GetSolution2 | AdventOfCode2021/Solver/Day21.cs:40-50 | part two simulates from the first two positions and answers the largest entry of the win array, with one entry per line read; fewer than two lines throw `ArgumentOutOfRangeException`, and a line that fails to parse throws its exception |
| BeaconScanner.Plus | AdventOfCode2021/Solver/Day19.cs:299 | subtracting the added point again gives the first point back |
| BeaconScanner.Minus | AdventOfCode2021/Solver/Day19.cs:300 | the difference is the origin exactly for equal points |
| BeaconScanner.ManhattanDistance | AdventOfCode2021/Solver/Day19.cs:302-303 | the distance is never negative and is 0 exactly between equal points |
| BeaconScanner.ManhattanTriangle | AdventOfCode2021/Solver/Day19.cs:302-303 | the distance obeys the triangle inequality |
| BeaconScanner.ManhattanTranslated | AdventOfCode2021/Solver/Day19.cs:299-303 | moving both points by the same vector keeps their distance |
| BeaconScanner.OrientationsAreRotations | AdventOfCode2021/Solver/Day19.cs:186-217 | the table has 24 entries, each a signed axis permutation with determinant 1, and the first is the identity |
| BeaconScanner.OrientationsDistinct | AdventOfCode2021/Solver/Day19.cs:186-217 | no entry of the table is listed twice |
| BeaconScanner.OrientationsComplete | AdventOfCode2021/Solver/Day19.cs:186-217 | every rotation of the axes is in the table |
| BeaconScanner.Rotate | AdventOfCode2021/Solver/Day19.cs:271-276 | each turned coordinate is an original coordinate, kept or negated |
| BeaconScanner.RotateMinus | AdventOfCode2021/Solver/Day19.cs:271-276 | turning commutes with taking differences |
| BeaconScanner.RotateKeepsDistance | AdventOfCode2021/Solver/Day19.cs:271-276 | turning keeps distances between points and never maps two points to one |
| BeaconScanner.OrientedByIdentity | AdventOfCode2021/Solver/Day19.cs:188 | orientation 0 leaves the beacons as they are |
| BeaconScanner.MatchCountShifted | AdventOfCode2021/Solver/Day19.cs:103-112 | counting after moving the beacons by t is counting the moved beacons with no further move |
| BeaconScanner.CountReaches | AdventOfCode2021/Solver/Day19.cs:105-127 | the counting loop with its early exit at 12 answers true exactly when the translation is accepted |
| BeaconScanner.SearchTranslation | AdventOfCode2021/Solver/Day19.cs:98-128 | the search returns an accepted translation when it finds one, and finds one whenever any translation is accepted |
| BeaconScanner.NoCandidateNoMatch | AdventOfCode2021/Solver/Day19.cs:98-104 | if no reference-minus-beacon candidate is accepted, no translation at all is |
| BeaconScanner.AppendNewSpec | AdventOfCode2021/Solver/Day19.cs:241-245 | the old beacons stay in front, the result holds exactly the old and the new beacons, and no beacon is added twice |
| BeaconScanner.Space3D.constructor | AdventOfCode2021/Solver/Day19.cs:223-226 | a new space has no beacon and its own scanner at the origin |
| BeaconScanner.Space3D.AddBeacon | AdventOfCode2021/Solver/Day19.cs:228-231 | the beacon is appended; scanners and cache are untouched |
| BeaconScanner.Space3D.GetAllBeacons | AdventOfCode2021/Solver/Day19.cs:264-281 | a filled slot is returned as it is; an empty slot is filled with the turned beacons; on a consistent cache the answer is the turned beacons |
| BeaconScanner.Space3D.ShiftScanners | AdventOfCode2021/Solver/Day19.cs:253-256 | every scanner moves by the translation, the ids unchanged |
| BeaconScanner.Space3D.Transform | AdventOfCode2021/Solver/Day19.cs:248-260 | corrected: the beacons become their turned images moved by t, every scanner moves by t, and the cache is emptied |
| BeaconScanner.Space3D.TransformAsWritten | AdventOfCode2021/Solver/Day19.cs:248-260 | as written: the turned beacons survive only when that orientation was cached; otherwise the space loses all its beacons |
| BeaconScanner.TransformAsWrittenLosesBeacons | AdventOfCode2021/Solver/Day19.cs:250-251 | a space with one beacon and nothing cached has no beacon after the transform as written |
| BeaconScanner.TransformKeepsBeacons | AdventOfCode2021/Solver/Day19.cs:248-260 | the same space keeps its beacon through the corrected transform |
| BeaconScanner.Space3D.AddSpace | AdventOfCode2021/Solver/Day19.cs:233-246 | scanners with new ids are added and known ids keep their position; the other space's beacons not yet present are appended in order |
| BeaconScanner.MatchFound | AdventOfCode2021/Solver/Day19.cs:75-140 | on a match the other space is turned and moved by an accepted orientation and translation, through the transform as written, whose orientation `GetAllBeacons` has just cached, after which 12 of its beacons are reference beacons; without a match no orientation and translation is accepted and the space is unchanged |
| BeaconScanner.MergedBeaconsSpec | AdventOfCode2021/Solver/Day19.cs:63-69 | the merged beacons are exactly the beacons of all spaces, the first space's in front, once each when the first had no duplicate |
| BeaconScanner.MergedScannersKeys | AdventOfCode2021/Solver/Day19.cs:63-69 | the merged scanners are exactly the scanners of all spaces, and the first space's keep their positions |
| BeaconScanner.MergeSpaces | AdventOfCode2021/Solver/Day19.cs:63-72 | adding the other spaces to the first, in order, gives the merged beacons and scanners |
| BeaconScanner.MaxScannerDistance | AdventOfCode2021/Solver/Day19.cs:28-36 | the answer bounds the distance of every pair of scanners and is the distance of one pair, or 0 |
| Text.ParseInt32ToString | AdventOfCode2021/Solver/Day19.cs:167-174 | `int.Parse` of the decimal text of an `int` gives it back |
| BeaconScanner.HeaderParses | AdventOfCode2021/Solver/Day19.cs:157-168 | "--- scanner n ---" starts with "---" and its third word parses to n |
| BeaconScanner.BeaconLineParses | AdventOfCode2021/Solver/Day19.cs:172-176 | "x,y,z" is not blank, is not a header, and parses to the point |
| BeaconScanner.ReadScannersKeeps | AdventOfCode2021/Solver/Day19.cs:144-182 | the stored scanners stay stored in order, and every stored scanner has a beacon |
| BeaconScanner.BlankLineSkipped | AdventOfCode2021/Solver/Day19.cs:151-154 | a blank line anywhere in the input changes nothing |
| BeaconScanner.ReadBeaconLines | AdventOfCode2021/Solver/Day19.cs:172-176 | beacon lines add their beacons to the current scanner, in order |
| BeaconScanner.ReadRendered | AdventOfCode2021/Solver/Day19.cs:144-182 | reading printed reports stores the pending scanner if it has a beacon, then exactly those reports, with no exception |
| BeaconScanner.ExtractRendered | AdventOfCode2021/Solver/Day19.cs:144-182 | printing reports and reading them back gives the same reports and no exception |
| BeaconScanner.Day19.ExtractData | AdventOfCode2021/Solver/Day19.cs:144-182 | one new, distinct space per report read, in order, each with its beacons and its scanner at the origin; an exception stops the reading with the spaces stored so far |
| Origami.ConvertAll | AdventOfCode2021/Solver/Day13.cs:77-89 | the conversion succeeds exactly when every line converts, and then holds one value per line, in order; the first line that throws ends it |
| Origami.ParseDot | AdventOfCode2021/Solver/Day13.cs:77-81 | a dot line that parses has two 32-bit coordinates |
| Origami.ParsedDotsAreInt32 | AdventOfCode2021/Solver/Day13.cs:74-82 | every dot read from the lines before the first blank one has 32-bit coordinates |
| Origami.MaxCoordinate | AdventOfCode2021/Tools/QuickMatrix.cs:165-166 | the largest coordinate bounds the coordinate of every point and is the coordinate of one of them |
| Origami.SheetOf | AdventOfCode2021/Tools/QuickMatrix.cs:163-171 | the sheet is as large as given, with a dot at every listed position and the empty value everywhere else |
| Origami.SheetShowsDots | AdventOfCode2021/Tools/QuickMatrix.cs:163-171 | with a cell at every position, the sheet built from points with 32-bit coordinates has a cell everywhere and a dot exactly at the points |
| Origami.SheetAsWrittenHasGaps | AdventOfCode2021/Tools/QuickMatrix.cs:163-171 | as written, the list constructor leaves a null entry at every position of the sheet that no point sets |
| Origami.RowBand | AdventOfCode2021/Tools/QuickMatrix.cs:450-469 | cutting `count` full-width rows from `from` succeeds exactly when the sheet has a column, the range is non-empty and inside the sheet, and no cell in it is null; the band then has a cell everywhere and holds the cells of those rows |
| Origami.FoldUpSheet | AdventOfCode2021/Solver/Day13.cs:51-69 | a fold up that succeeds has its line strictly inside the sheet and leaves a sheet of the same width, `line` rows high, with a cell everywhere |
| Origami.FoldUpSucceeds | AdventOfCode2021/Solver/Day13.cs:54-60 | on a sheet with a cell everywhere, a fold up succeeds exactly when the sheet has a column and there is a row above and a row below the line |
| Origami.FoldUpThrowsOnGap | AdventOfCode2021/Solver/Day13.cs:57 | a null entry above the line makes the fold up throw `NullReferenceException` once the cut is in range |
| Origami.FoldDotsUpAt | AdventOfCode2021/Solver/Day13.cs:65 | a position above the line holds a folded dot exactly when it or its mirror below the line held one |
| Origami.FoldUpShows | AdventOfCode2021/Solver/Day13.cs:51-69 | a fold up of a sheet that shows a set of dots shows the dots folded up: those below the line mirrored, those on the line dropped |
| Origami.MergedStep | AdventOfCode2021/Solver/Day13.cs:65 | ORing one cell of the flipped lower band into the upper band moves the merged boundary one cell on; a cell that lands off the upper band is dropped |
| Origami.MergedIsFolded | AdventOfCode2021/Solver/Day13.cs:60-65 | once every cell of the flipped lower band is merged, the upper band is the fold: each cell is the OR of itself and its mirror |
| Origami.DotTranspose | AdventOfCode2021/Tools/QuickMatrix.cs:323-341 | transposing keeps a cell at every position and moves the dot at (x, y) to (y, x) |
| Origami.FoldLeftAt | AdventOfCode2021/Solver/Day13.cs:43-49 | the corrected fold left gives, at (x, y), the OR of (x, y) and its mirror (2·line - x, y) |
| Origami.FoldLeftShows | AdventOfCode2021/Solver/Day13.cs:43-49 | the corrected fold left of a sheet that shows a set of dots shows the dots folded left |
| Origami.RotateFull | AdventOfCode2021/Tools/QuickMatrix.cs:226-245 | a quarter turn counter-clockwise keeps a cell at every position |
| Origami.RotatedDot | AdventOfCode2021/Tools/QuickMatrix.cs:226-245 | after a quarter turn counter-clockwise, (a, b) holds the cell of (cols - 1 - b, a) |
| Origami.FoldLeftAsWrittenAt | AdventOfCode2021/Solver/Day13.cs:43-49 | the fold left as written gives a sheet `line` columns wide whose column x is the OR of columns `cols - line + x` and `cols - 2 - line - x`: a fold along column `cols - 1 - line`, mirrored |
| Origami.CentredFoldLeft | AdventOfCode2021/Solver/Day13.cs:19-25 | when the line is the middle column, the fold left as written shows the folded dots mirrored, which the flip of part two undoes |
| Origami.FoldUpNeverAddsDots | AdventOfCode2021/Solver/Day13.cs:51-69 | a fold up never leaves more dots than there were |
| Origami.FoldLeftNeverAddsDots | AdventOfCode2021/Solver/Day13.cs:43-49 | a fold left never leaves more dots than there were |
| Origami.DotsInRowsCounts | AdventOfCode2021/Solver/Day13.cs:16 | counting the cells with a dot row by row over a sheet that shows a set of dots counts the dots in those rows |
| Origami.CountShows | AdventOfCode2021/Solver/Day13.cs:16 | the count of cells with a dot on a sheet that shows a set of dots is the number of dots |
| Origami.FoldStepShows | AdventOfCode2021/Solver/Day13.cs:31-39 | an instruction that does not throw shows the dots it folds: up for 'y', left for any other letter |
| Origami.FoldStepsNext | AdventOfCode2021/Solver/Day13.cs:29-40 | the instructions up to i + 1 are those up to i and then instruction i, unless an earlier one threw |
| Origami.FoldStepsShow | AdventOfCode2021/Solver/Day13.cs:27-41 | instructions that do not throw show the dots folded by each instruction in turn |
| Origami.FoldStepsStop | AdventOfCode2021/Solver/Day13.cs:27-41 | once an instruction has thrown, the later ones change nothing |
| Origami.FirstFoldDots | AdventOfCode2021/Solver/Day13.cs:15 | carrying out at most one instruction folds by the first instruction, or leaves the dots when there is none |
| Origami.PartOneCountsFirstFold | AdventOfCode2021/Solver/Day13.cs:12-17 | part one answers the number of distinct dots after the first instruction, or all of them when there is no instruction |
| Origami.SparseSheetAsWritten | AdventOfCode2021/Solver/Day13.cs:82 | as written, the sheet of dots (0, 0) and (1, 2) has a null entry, and the fold up along y = 1 throws `NullReferenceException` |
| Origami.SparseSheetCorrected | AdventOfCode2021/Solver/Day13.cs:82 | with a cell everywhere, the same fold leaves two dots |
| Origami.SparseSheetThrows | AdventOfCode2021/Solver/Day13.cs:82 | the two halves together: the code as written throws where the corrected sheet counts two dots |
| Origami.OffCentreFoldedAtLine | AdventOfCode2021/Solver/Day13.cs:43-49 | dots (2, 0) and (3, 0) on a sheet four columns wide, folded left along x = 2, leave one dot |
| Origami.OffCentreFoldedAsWritten | AdventOfCode2021/Solver/Day13.cs:43-49 | the fold left as written leaves two dots on that sheet |
| Origami.OffCentreFoldLeft | AdventOfCode2021/Solver/Day13.cs:43-49 | the two halves together: the fold as written is along column 1 where the instruction names column 2 |
| Origami.Day13.constructor | AdventOfCode2021/Solver/Day13.cs:9-10 | a new solver holds an empty sheet and no instruction |
| Origami.Day13.ExtractData | AdventOfCode2021/Solver/Day13.cs:71-90 | reads the dots before the first blank line into a sheet with a cell everywhere, then the instructions after it; a dot error leaves both fields, an instruction error leaves the new sheet and the old instructions |
| Origami.Day13.ExtractDataAsWritten | AdventOfCode2021/Solver/Day13.cs:71-90 | the same reading with the list constructor as written, whose sheet has a null entry wherever no dot is |
| Origami.Day13.FoldUp | AdventOfCode2021/Solver/Day13.cs:51-69 | the new sheet is the fold up of the old one, merged cell by cell in the loop; a failing cut throws and leaves the sheet |
| Origami.Day13.FoldLeft | AdventOfCode2021/Solver/Day13.cs:43-49 | the new sheet and the exception are those of the corrected fold left: transpose, fold up, transpose back |
| Origami.Day13.FoldLeftAsWritten | AdventOfCode2021/Solver/Day13.cs:43-49 | the new sheet and the exception are those of the fold left as written: quarter turn counter-clockwise, fold up, quarter turn clockwise |
| Origami.Day13.ExecuteFolds | AdventOfCode2021/Solver/Day13.cs:27-41 | carries out the first `Math.Min(n, count)` instructions in order; the first that throws ends the run with the sheet it left |
| Origami.Day13.GetSolution1 | AdventOfCode2021/Solver/Day13.cs:12-17 | reads, folds once and counts the cells with a dot, giving the part-one answer or the first exception |

## Left out

- TravelingSalespersonProblem.FillTable: requires at most 30 cities; with 31 or more `1 << n` overflows and the allocation of `dp` fails.
- TravelingSalespersonProblem.FillTable: route costs are unbounded integers; a real route dearer than `int.MaxValue` would wrap in the source and is not modelled.
- Names.SortedNames: sorts names in ordinal (character code) order; `Order()` on strings uses the culture-sensitive comparer.
- Debug output (`DebugPrint` of QuickMatrix, QuickGrid, SmallTools and ChainedNode) writes to a debug sink; it is I/O.
- The floating-point members of `PointExtensions` (`UnitVectorTo`, `EuclideanDistance`) are not modelled.
- Matrices.QuickMatrix.FromCells: requires the list to cover every position of its bounding box; the source leaves the uncovered array entries null, and a later access to them would throw.
- Text.Split: models a single-character separator, the only kind the solvers pass.
- QuickGrids.QuickGrid.CellList: the order of a .NET dictionary's values is not modelled; the list holds every cell once in an unspecified order.
- The object payload of a cell is modelled by the text its `ToString()` gives, not by the object.
- `SmallTools.SumOfFactors` goes through floating-point `Math.Pow`; it is not modelled.
- SmallTools.LcmFold: does not model 64-bit overflow of `x * y`; the properties are stated for mathematical integers.
- SmallTools.PrimeDecomposition: does not model 64-bit overflow of `i * i`, which only matters for numbers near 2^63.
- ChineseRemainderTheorem.GetSmallestNumber: does not model 64-bit overflow of the product of the moduli or of the summands; the properties are stated for mathematical integers.
- ChineseRemainderTheorem.GetSmallestNumber: states the range [0, product) only for non-negative remainders; with a negative remainder the truncating `%` can give a negative result, unlike the promised smallest non-negative solution.
- SmallTools.MatchingTotalSound: states that every returned list is right, not that every sub-list reaching the total is returned.
- Dijkstra.QuickDijkstra.GetShortestWay: distances are unbounded integers; on a reached node a sum beyond `long.MaxValue` would wrap in the source and is not modelled.
- Dijkstra.QuickDijkstra.FindShortestPath: route lengths are unbounded integers; a sum beyond `long.MaxValue` would wrap in the source.
- Dijkstra.QuickDijkstra.GetShortestWay: requires both names to be nodes; the source throws `KeyNotFoundException` otherwise (likewise GetShortestPathVisitingAllNodes for its start).
- Dijkstra.QuickDijkstra.GetShortestPathVisitingAllNodes: the lowest length of a route is stated only when it is below `long.MaxValue`, the value the search starts from.
- The `Node` objects and the `Nodes` property of `QuickDijkstra` are represented by node indices into the sorted name list; the links of a node keep the dictionary's insertion order.
- Patterns.FindPattern: requires startOffset >= 0, minimumPatternLength >= 1 and minimumRepetitions >= 1; the source divides by zero when minimumRepetitions is 0, loops forever on length 0, and indexes before the list with a negative offset.
- Patterns.FindPattern: `IncreasePerPattern`, summed through `dynamic` with exceptions caught, is not modelled; nor is overflow of `minimumPatternLength * minimumRepetitions`.
- HexGrids.QuickHexGrid.GetMoves: where no key starts the rest of the path the source loops forever; the model returns `None`. It reads the longest key first, as the corrected reading (see Findings).
- The move dictionaries are modelled as their insertion order, which is the order a .NET dictionary with no removals enumerates.
- HexGrids.QuickHexGrid.GetNeighbours: requires the grid's move table to be decodable, which both constructors establish.
- Circuits.DiagramLine: the lines come already cut at ':' and "->" and into words; `Split`, `Trim` and `Contains` on the raw text are not modelled.
- Circuits.IsNumeric: an integer text; `Information.IsNumeric` also accepts decimals, exponents, currency signs and surrounding blanks.
- Circuits.ParseGateType: `Enum.Parse` also accepts numeric text and comma-separated names; those are not modelled and count as an `ArgumentException` here.
- Circuits.ValueFromString: `ushort.TryParse` and `int.Parse` also accept surrounding blanks; not modelled.
- The `Connections` list of a wire is never filled by this code and is left out, as are the `ToString` texts of wires and gates.
- A ':' line names the wire by the text after the colon and gives it the value of the text before it; this is modelled as the code reads it.
- ChainedNodes.ChainedNode.RemoveNextNode: requires 1 <= k < ring size; a count of 0 or a multiple of the ring size leaves the ring as it is and returns the next node, and a larger count wraps round; neither is modelled.
- ChainedNodes.ChainedNode.RemovePreviousNode: requires 1 <= k < ring size; a count of 0 leaves the ring as it is and returns this node, and a larger count wraps round; neither is modelled.
- ChainedNodes.ChainedNode.MoveForward: the step count is a `nat`; a negative `long` recurses without end in the source.
- ChainedNodes.ChainedNode.MoveBackward: the step count is a `nat`, as for MoveForward.
- ChainedNodes: `ToString` and `DebugPrint` only format text and write to the debug output; `Next` and `Previous` are nullable fields only because a constructor cannot name the node before it exists.
- Reactor: the instructions come as parsed boxes; reading the "on x=a..b,y=c..d,z=e..f" lines through a regular expression is not modelled.
- Reactor.ExecuteAllRebootInstructionAndCountOnBox: requires every instruction box to have min <= max on each axis, as puzzle input does; the source does not check it.
- Reactor.InfiniteSpace.AddInstruction: requires a valid box, as above.
- Reactor.Units: sizes are unbounded integers; the source subtracts in 32 bits before widening, which would wrap for ranges wider than `int.MaxValue`.
- Reactor.InfiniteSpace.AddInstruction: models the corrected first step, in which an "off" box is not stored (see Findings); the as-written step is `StoreFirstAsWritten`.
- Reactor: `GetHashCode` and `ToString` of a box are not modelled; equality of boxes is by extent, as `Equals` reads.
- Snailfish: a number is a value and every rewrite gives a new tree; the parent pointers and the in-place updates of the source are not modelled, and positions are paths from the root.
- Snailfish.Reduce: takes an allowance of splits (`fuel`) and gives none when it runs out; the source loops until nothing applies, and its termination is not proved here.
- Snailfish.Solution1: takes the same split allowance for each addition, as do Solution2 and ReduceSpec.
- Snailfish.TryParseInt32: `int.TryParse` also accepts surrounding blanks and culture-specific signs; only an optional sign and digits are modelled.
- Snailfish.Magnitude: is an unbounded integer; the source sums in `long` and adds regular numbers in `int`, whose overflow is not modelled.
- Snailfish.ParsePrint: requires every regular number to be a 32-bit value, as `int.TryParse` reads only those.
- Snailfish.Print: the "not fully initialized" text of `ToString` is left out, as a pair built by the code always has both items.
- PacketDecoder.Value: sums, products and literals are unbounded integers; the source computes them in `long`, whose overflow is not modelled.
- PacketDecoder.VersionSum: is an unbounded integer, as above for `long`.
- PacketDecoder.ExtractData: requires every character to be a hexadecimal digit; `char.IsDigit` also accepts other Unicode digits, and any other character gives a value outside 0..15 that `|=` would merge into the data.
- PacketDecoder.ExtractData: takes the first input line as its argument; `_fullData <<= 4; _fullData |= v` is written as `16 * d + v`, equal because the shifted data has its four low bits clear.
- PacketDecoder.GetPacketsFromMirroredData: `consumedBits` and the 15- and 11-bit fields are unbounded here; in the source they are `int` and `long` and cannot overflow for a transmission that fits in memory.
- PacketDecoder.ParseEncoded: the round trip is stated for trees whose operators all use the same length type; a tree mixing the two is read the same way but not covered by the lemma.
- PacketDecoder.Value: the exceptions are named by text (`InvalidOperationException`, `ArgumentOutOfRangeException`) and carry no message.
- TravelingSalespersonProblem.FillTable: models the corrected relaxation, which pushes only from a reached `dp` entry; QuickTravelSalesPerson.cs:72-75 and :149-150 push from unreached entries too (see Findings).
- TravelingSalespersonProblem.MinDistanceOfTable: returns the corrected `Answer`, built on FillTable's corrected relaxation (see Findings).
- TravelingSalespersonProblem.FindMinDistance: returns the corrected `Answer` of MinDistanceOfTable (see Findings).
- TravelingSalespersonProblem.MaxDistanceOfTable: returns the corrected `Answer`, in which a pair no input joins is no road at all (see Findings).
- TravelingSalespersonProblem.FindMaxDistance: returns the corrected `Answer` of MaxDistanceOfTable (see Findings).
- TravelingSalespersonProblem.ClosedAnswerOptimal: states the closing edge as written, from the last city to any other city (see Findings); the corrected cycle is `CycleAnswerOptimal`.
- Dijkstra.QuickDijkstra.GetShortestWay: models the corrected relaxation from reached nodes only; QuickDijkstra.cs:66 relaxes from an unreached node too (see Findings).
- Patterns.FindPattern: models the corrected count `(n - s) / len`; QuickPattern.cs:66 also subtracts startOffset (see Findings).
- Circuits.ApplyArrow: follows the corrected reading `Intended`, which starts the second operand's wire at its own text; QuickCircuit.cs:193 reads `leftPartData[1]` (see Findings).
- Circuits.ApplyLine: follows the corrected reading `Intended`, as ApplyArrow.
- Circuits.ReadLines: is proved against `ScanLines(…, Intended)`, the corrected reading, as ApplyArrow.
- Matrices.QuickMatrix.FromLines: a position past a shorter line holds a cell with empty text; in the source it stays null and reading it throws `NullReferenceException`.
- Patterns.FindPattern: keeps the strict test `startIndex - length > startOffset` of QuickPattern.cs:82, so a block beginning exactly at startOffset is never counted (see Findings; the inclusive reading is `StartPositionFrom`).
- Circuits.CreateDiagram: states its result for the corrected reading `Intended`, as ApplyArrow.
- Modulo: `PointExtensions.Modulo` computes `(v % m) + m` on unbounded integers; in the source it is a 32-bit sum that wraps when `m` is above `int.MaxValue - |v % m|`, which is not modelled.
- PointExtensions.ManhattanDistance: takes unbounded absolute values; `Math.Abs(int.MinValue)` throws `OverflowException` in the source (the sentinel cell's coordinate), which is not modelled.
- PointExtensions.Add: coordinates are unbounded integers; the 32-bit wrap-around of `+` is not modelled, nor that of Subtract and Multiply.
- Matrices.QuickMatrix.FromBoolLines: requires a non-empty list whose lines are at least as long as the first; the source throws on an empty list and on a shorter line.
- Matrices.QuickMatrix.WithFilledCells: requires every point to lie on the grid; the source throws `IndexOutOfRangeException` otherwise.
- Matrices.QuickMatrix.SetCells: requires the two matrices to be different objects; called with the same matrix the source copies each cell onto itself or an offset one in array order, which is not modelled.
- BeaconScanner: `Point3D` coordinates are unbounded integers; the 32-bit wrap-around of `+` and `-` and the `OverflowException` of `Math.Abs(int.MinValue)` in `ManhattanDistance` are not modelled.
- BeaconScanner.MatchFound: the `Parallel.ForEach` over the 24 orientations, with its lock and early break, is modelled as a sequential search that takes the first accepted orientation in table order. When several orientations are accepted, the source may take another one.
- BeaconScanner.MatchFound: the `HashSet` of reference beacons is enumerated in an order .NET does not fix; the model tries the candidate translations in list order. It states only which translations are accepted, not which one is tried first.
- BeaconScanner: the search loop of `PerformMatch` (Day19.cs:42-61) is not modelled. It retries the unmatched spaces until every space is matched, and never ends when a scanner shares no 12 beacons with the others. Only the final merge, `MergeSpaces`, is modelled.
- BeaconScanner: `GetSolution1`, which counts the merged beacons, is not modelled. `GetSolution2` is modelled only through its distance loop, `MaxScannerDistance`.
- BeaconScanner.Space3D.GetAllBeacons: the per-orientation cache is a sequence of 24 optional lists rather than an array of lists; a cached list is a value, so aliasing between the cache and a caller's list is not modelled.
- BeaconScanner.ExtractScanners: `StartsWith("---")` is culture-sensitive in .NET; the model compares characters, which agrees for the ASCII input the puzzle uses.
- BeaconScanner.ParseInt32: accepts ASCII white space around an optional sign and decimal digits within the 32-bit range; the thousands separators, Unicode digits and culture-specific signs that `int.Parse` may accept are not modelled.
- DiracDice.Day21.GetSolution1: requires exactly two parsed positions, each in 0..9 (`ValidStart`), which every pair of lines "Player n starting position: p" with p in 1..10 gives. Other starts are not modelled. With a third line, a win by the third player sets the loser index `1 - playerId` to -1, so the do-while at Day21.cs:20-34 plays on. A position of 10 or more is brought back to the ring by the first move, but the model's table keeps positions on the ring. A negative position gives a negative C# remainder and a score that can fall, so the game's termination measure (points still missing) does not cover it.
- DiracDice.Day21.GetSolution2: requires the first two parsed positions to lie in 0..int.MaxValue - 9 (`PlayableStart`), which lines with p in 1..int.MaxValue - 8 give. Any number of lines is modelled, and fewer than two throw. A negative position (p ≤ 0) gives a negative C# remainder and scores that can fall, which the count's termination measure does not cover. A position within 9 of int.MaxValue wraps when a roll is added.
- DiracDice.CountWins: the win counts are unbounded integers; the source sums them in `long`, whose overflow is not modelled. The part-one answer is wrapped to 32 bits as the source's `int` product is.
- Text.Trim: removes only the ASCII white space characters; `string.Trim` also removes the other Unicode white space characters.
- BinaryDiagnostic: the report is given as its lines; reading the input file is I/O.
- Polymerization: the counts are unbounded integers; the source counts in `long`, whose overflow is not modelled.
- Polymerization.Day14.ExtractData: takes the template and the rules already cut at " -> "; `Split` on the raw lines is not modelled.
- The small solvers are not part of this model: Day01, Day02, Day04 to Day12, Day15, Day17 and Day20. Each is a short fold or grid simulation over the toolkit modelled here, and none of them was examined for defects. The model covers the toolkit, the solvers that build their own data structures (Day16, Day18, Day19, Day21, Day22) and the solvers with suspected defects (Day03, Day13, Day14).
- Day 13 part two (`GetSolution2`) is not modelled: it calls `GetDebugPrintString(DataType.Bool)`, an overload that QuickMatrix does not declare, and its `FlipHorizontal` only mirrors the sheet for display. `CentredFoldLeft` states what that flip undoes.
- Origami.Sheet: a sheet is a value holding each cell's flag, or no cell for a null entry; the cells' positions and their text, integer and object payloads are not modelled, since Day 13 reads only the flag.
- Origami.BuildSheet: an array too large to allocate (`OutOfMemoryException`) is not modelled.
- Origami.Day13.FoldLeft: folds along the named column, as corrected; the quarter turns of Day13.cs:46-48 are `FoldLeftAsWritten` (see Findings). `ExecuteFolds` calls the corrected fold.
- Origami.Day13.ExtractData: gives every position a cell, as corrected; the list constructor of QuickMatrix.cs:163-171 leaves null entries, which is `ExtractDataAsWritten` (see Findings). `GetSolution1` calls the corrected reading.
- `BaseSolver` and the console program read the input files and time the solvers; that is I/O.
- BinaryDiagnostic.GetSolution2: returns the rating of the corrected CO2 filter, which keeps the list on a column with one bit value; Day03.cs:39 empties it and then throws (see Findings).
- Polymerization.Day14.ResultAfterPolymerizationCycles: returns the spread of the exact element counts, from the corrected recovery; Day14.cs:67-68 counts an element that is both first and last once too often (see Findings).
- BeaconScanner.Space3D.Transform: turns the beacons before clearing the list, as corrected; the order of Day19.cs:250-251 is `TransformAsWritten` (see Findings), which `MatchFound` calls as the source does.

## Findings

| source | as written | input that shows it | evidently intended | confidence | as-written member | corrected member |
|---|---|---|---|---|---|---|
| AdventOfCode2021/Tools/QuickTravelSalesPerson.cs:75 | `dp[mask, u] + graph[u, v]` is pushed even while `dp[mask, u]` is still `int.MaxValue`, and the 32-bit sum wraps to a negative number | pairs (a, b, 1) and (b, c, 1), shortest route without return: a-b-c costs 2, the search answers `int.MinValue` | push only from a reached entry, as the final scan already tests `dp[full, u] < int.MaxValue` | high; not executed | TravelingSalespersonProblem.UnreachedEntryWraps | TravelingSalespersonProblem.OpenAnswerOptimal |
| AdventOfCode2021/Tools/QuickDijkstra.cs:66 | `distances[currentNode] + link.Value` is taken even while the current node is still at `long.MaxValue` (unreached), and the 64-bit sum wraps to a negative number | pairs (a, b, 1) and (c, d, 1), `GetShortestWay("a", "d")`: c is visited at `long.MaxValue` and offers d `long.MinValue`, which is returned | relax only from a reached node, so that an unreachable target keeps `long.MaxValue` | high; not executed | Dijkstra.UnreachedNodeWraps | Dijkstra.QuickDijkstra.GetShortestWay |
| AdventOfCode2021/Tools/QuickPattern.cs:66 | `PatternRepeatCount` divides `data.Count - startOffset - StartIndex` by the length, so a non-zero startOffset is subtracted from a span that already starts after it | `[9, 1, 1, 1, 1]`, startOffset 1, minimumPatternLength 1, minimumRepetitions 2: the run of 1s starts at 2 and holds three blocks, the count given is 2 | count the blocks from the start of the run to the end, `(data.Count - StartIndex) / PatternLength` | medium; not executed | Patterns.OffsetUndercounts | Patterns.FindPattern |
| AdventOfCode2021/Tools/QuickHexGrid.cs:79-92 | the first key in table order that starts the path is taken; in the double-height table "n" precedes "ne" and "nw", and "s" precedes "sw" | a double-height grid, `GetTileCoordinate(start, "ne")`: "n" is taken, "e" remains, no key starts it, and the loop never ends | read the longest key that starts the path, so that every path written from moves is read back | high; not executed | HexGrids.NorthEastStalls | HexGrids.QuickHexGrid.GetMoves |
| AdventOfCode2021/Tools/QuickHexGrid.cs:104-109 | min(dx, dy) + (max(dx, dy) - min(dx, dy)) / 2 for both layouts | double-width tiles (0, 0) and (1, 3): the formula gives 2, but every walk between them takes at least three moves | the number of moves of the grid's layout: the narrow-axis difference plus half the excess of the other | medium; not executed | HexGrids.DistanceUnderestimates | HexGrids.HexDistance |
| AdventOfCode2021/Tools/QuickCircuit.cs:193 | the new wire for the second operand of AND, OR and XOR starts at the value of `leftPartData[1]`, the gate's name, which never reads as a value | a boolean diagram with the single line "x AND 1 -> y": the wire "1" is created empty, where "1 AND x -> y" gives it true | start the wire at the value of its own text, `leftPartData[2]`, as for the first operand | medium; not executed | Circuits.SecondOperandUnset | Circuits.IntendedSelfValued |
| AdventOfCode2021/Tools/QuickTravelSalesPerson.cs:85-97 | the closed answer adds an edge from the last city u to any other city v, not to the first city of the tour | cities a, b, c with a-b 1, b-c 1 and a-c 100, shortest closed route: the search answers 3 (a-b-c, then c-b), every cycle back to a costs 102 | close the tour with the edge from its last city back to its first | medium; not executed | TravelingSalespersonProblem.ClosingEdgeNotToStart | TravelingSalespersonProblem.CycleAnswerOptimal |
| AdventOfCode2021/Tools/QuickTravelSalesPerson.cs:142 | the maximum search skips a missing edge by testing `graph[u, v] == int.MinValue`, but the table marks a missing pair with `int.MaxValue`, so a missing pair is taken as a road of length `int.MaxValue` | pairs (a, b, 0) and (b, c, 0), longest route without return: the search answers `int.MaxValue` (through a-c), the longest route through the pairs is 0 | skip the pairs the table marks as missing, `graph[u, v] == int.MaxValue` | high; not executed | TravelingSalespersonProblem.MissingPairTakenAsEdge | TravelingSalespersonProblem.OpenAnswerOptimal |
| AdventOfCode2021/Tools/QuickPattern.cs:82 | the walk back stops while `startIndex - length > startOffset`, so a block that begins exactly at startOffset is never compared | `[1, 1]`, startOffset 0, length 1, minimumRepetitions 2: the answer is -1 though two equal blocks begin at 0 | walk back while the earlier block begins at or after startOffset, `startIndex - length >= startOffset` | low; not executed | Patterns.BlockAtOffsetMissed | Patterns.StartPositionFromMeaning |
| AdventOfCode2021/Solver/Day22.cs:76-81 | the first box given to an empty space is stored whatever its state, so an "off" box is counted as lit | a first instruction "off x=0..0,y=0..0,z=0..0": the count is 1 where no cube is on | store the first box only when it is on, as every later "off" box is only cut out | high; not executed | Reactor.StoreFirstAsWritten | Reactor.StoreFirst |
| AdventOfCode2021/Solver/Day03.cs:39 | the CO2 filter keeps the numbers with '0' when zeros are not more than ones and the numbers with '1' when zeros are more; on a column where every number has the same bit it keeps nothing | the report ["11", "10"]: at column 0 both numbers have '1', the list becomes empty, and `co2ScrubberNumbers[0]` throws `ArgumentOutOfRangeException` | keep the least common bit among the bits present, so that a column with one bit value keeps the whole list and the filter ends on one number ("10" here) | high; not executed | BinaryDiagnostic.Co2ListEmptiesAsWritten | BinaryDiagnostic.Co2StepKeepsMinority |
| AdventOfCode2021/Solver/Day14.cs:61-68 | the pair-end counts are halved and then 1 is added for the first and for the last element, so an element that is both first and last gets 2 added to `occurrences - 1` | the template "ABA" with no rule: 'A' is counted 3 times and occurs twice (the answer is 2 instead of 1) | add the first and the last element to the pair-end counts before halving, which gives every element its exact count | high; not executed | Polymerization.FirstEqualsLastOvercounted | Polymerization.RecoveryExact |
| AdventOfCode2021/Solver/Day19.cs:250-251 | `Transform` clears the beacon list before it asks `GetAllBeacons(orientationId)` for the turned beacons, so when that orientation is not cached the turned list is computed from the empty list | a space with one beacon and nothing cached, `Transform(0, (0, 0, 0))`: the space has no beacon afterwards. `MatchFound` fills the cache slot for the orientation it passes, so the solver itself does not reach this: `MatchFound` calls `TransformAsWritten` and its contract still gives the turned beacons | compute the turned beacons before clearing the list | low (latent in the solver); not executed | BeaconScanner.TransformAsWrittenLosesBeacons | BeaconScanner.TransformKeepsBeacons |
| AdventOfCode2021/Tools/QuickMatrix.cs:163-171 | the list constructor sets only the positions of the listed cells and leaves every other array entry null; `FoldUp` cuts its bands with `GetSubMatrix`, which copies every cell with `new CellInfo(targetPos, cell)` and throws on a null | dots (0, 0) and (1, 2), "fold along y=1": position (1, 0) is null, and the first fold throws `NullReferenceException` | give every position a cell without a dot before placing the dots; the same fold then leaves two dots | high; not executed | Origami.SparseSheetAsWritten | Origami.SheetShowsDots |
| AdventOfCode2021/Solver/Day13.cs:43-49 | `FoldLeft` turns the sheet a quarter counter-clockwise, folds up and turns back, which folds along column `cols - 1 - line` and mirrors the result; that is the named column only when the sheet is `2·line + 1` wide | dots (2, 0) and (3, 0) on a sheet four columns wide, "fold along x=2": the fold as written is along column 1 and leaves two dots, the fold along column 2 leaves one | fold along the named column, as transposing, folding up and transposing back does | high; not executed | Origami.OffCentreFoldedAsWritten | Origami.FoldLeftShows |

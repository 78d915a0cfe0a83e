/**
 * Day 13, Transparent Origami. The dots marked on a sheet of transparent paper are read
 * into a QuickMatrix whose cells carry the dot in `BoolVal`; the sheet is then folded
 * along horizontal and vertical lines, a dot on the folded part landing on its mirror
 * image and overlapping dots merging. Part one counts the dots after the first fold.
 *
 * A matrix entry that holds no cell object (a null reference) is `None` here. Every
 * copy of a cell reads the fields of the cell it copies, so copying such an entry
 * throws NullReferenceException.
 */
module Origami {
  import opened Wrappers
  import opened PointExtensions
  import opened GridModel
  import Text
  import Names
  import CSharpInt

  /** The sheet: `Some(b)` for a cell whose `BoolVal` is b, `None` for a null entry. */
  type Sheet = Grid<Option<bool>>

  /** A fold instruction: the letter of the axis and the line folded along. */
  datatype Fold = Fold(axis: char, line: int)

  // ---------------------------------------------------------------------------
  // The dots a sheet shows
  // ---------------------------------------------------------------------------

  /** Position (x, y) is on the sheet and holds a cell with a dot. */
  predicate Dot(g: Sheet, x: int, y: int)
    requires g.Valid()
  {
    g.InBounds(x, y) && g.Get(x, y) == Some(true)
  }

  /** Every position in rows `from` .. `to` - 1 holds a cell object. */
  predicate RowsFull(g: Sheet, from: int, to: int)
    requires g.Valid()
  {
    forall x, y :: 0 <= x < g.cols && 0 <= y < g.rows && from <= y < to ==> g.Get(x, y).Some?
  }

  /** Every position of the sheet holds a cell object. */
  predicate Full(g: Sheet)
  {
    g.Valid() && RowsFull(g, 0, g.rows)
  }

  /** The sheet has a cell everywhere, and the cells with a dot are exactly at `dots`. */
  ghost predicate Shows(g: Sheet, dots: set<Point>)
  {
    Full(g)
    && (forall p :: p in dots ==> g.InBounds(p.x, p.y))
    && (forall x, y :: g.InBounds(x, y) ==> (g.Get(x, y) == Some(true) <==> Point(x, y) in dots))
  }

  /** The dots of a list of points. */
  function DotsOf(points: seq<Point>): set<Point>
  {
    set p | p in points
  }

  /** Where a dot at p lands when the sheet is folded up along y = line. */
  function FoldPointUp(p: Point, line: int): Point
  {
    if p.y < line then p else Point(p.x, 2 * line - p.y)
  }

  /** Where a dot at p lands when the sheet is folded left along x = line. */
  function FoldPointLeft(p: Point, line: int): Point
  {
    if p.x < line then p else Point(2 * line - p.x, p.y)
  }

  /**
   * The dots after a fold up along y = line: the dots above stay, the dots below land on
   * their mirror image; a dot on the line, or one mirrored above row 0, is gone.
   */
  function FoldDotsUp(dots: set<Point>, line: int): set<Point>
  {
    set p | p in dots && p.y != line && p.y <= 2 * line :: FoldPointUp(p, line)
  }

  /** The dots after a fold left along x = line, in the same way. */
  function FoldDotsLeft(dots: set<Point>, line: int): set<Point>
  {
    set p | p in dots && p.x != line && p.x <= 2 * line :: FoldPointLeft(p, line)
  }

  /** The dots mirrored left-right inside the columns 0 .. line - 1. */
  function MirrorDots(dots: set<Point>, line: int): set<Point>
  {
    set p | p in dots :: Point(line - 1 - p.x, p.y)
  }

  // ---------------------------------------------------------------------------
  // Reading the input
  // ---------------------------------------------------------------------------

  /** `List.ConvertAll` with a converter that may throw: the first line that throws ends it. */
  function ConvertAll<T>(lines: seq<string>, convert: string -> Result<T>): (r: Result<seq<T>>)
    ensures r.Ok? <==> forall i :: 0 <= i < |lines| ==> convert(lines[i]).Ok?
    ensures r.Ok? ==> |r.value| == |lines| && forall i :: 0 <= i < |lines| ==> convert(lines[i]) == Ok(r.value[i])
  {
    if |lines| == 0 then Ok([])
    else
      match convert(lines[0])
      case Fail(e) => Fail(e)
      case Ok(v) =>
        match ConvertAll(lines[1..], convert)
        case Fail(e) =>
          assert forall i :: 1 <= i < |lines| ==> lines[i] == lines[1..][i - 1];
          Fail(e)
        case Ok(vs) => Ok([v] + vs)
  }

  /** A dot line "x,y": x is parsed before the second part is looked up. */
  function ParseDot(line: string): (r: Result<Point>)
    ensures r.Ok? ==> CSharpInt.IsInt32(r.value.x) && CSharpInt.IsInt32(r.value.y)
  {
    var parts := Text.Split(line, ',');
    match Text.ParseInt32(parts[0])
    case Fail(e) => Fail(e)
    case Ok(x) =>
      if |parts| < 2 then Fail("IndexOutOfRangeException")
      else
        match Text.ParseInt32(parts[1])
        case Fail(e) => Fail(e)
        case Ok(y) => Ok(Point(x, y))
  }

  /** A fold line "fold along y=7": the last word split at '=', its first letter and its number. */
  function ParseFold(line: string): Result<Fold>
  {
    var words := Text.Split(line, ' ');
    var parts := Text.Split(words[|words| - 1], '=');
    if |parts[0]| == 0 then Fail("IndexOutOfRangeException")
    else if |parts| < 2 then Fail("IndexOutOfRangeException")
    else
      match Text.ParseInt32(parts[1])
      case Fail(e) => Fail(e)
      case Ok(n) => Ok(Fold(parts[0][0], n))
  }

  /** The dots: the lines before the first empty one; with no empty line the slice throws. */
  function ParseDots(input: seq<string>): Result<seq<Point>>
  {
    var blank := Names.IndexOf(input, "");
    if blank < 0 then Fail("ArgumentOutOfRangeException")
    else ConvertAll(input[..blank], ParseDot)
  }

  /** The fold instructions: the lines after the first empty one. */
  function ParseFolds(input: seq<string>): Result<seq<Fold>>
  {
    var blank := Names.IndexOf(input, "");
    if blank < 0 then Fail("ArgumentOutOfRangeException")
    else ConvertAll(input[blank + 1..], ParseFold)
  }

  /** The largest coordinate along one axis: `data.Max(c => c.Position.X)` or `.Y`. */
  function MaxCoordinate(points: seq<Point>, alongX: bool): (m: int)
    requires |points| > 0
    ensures forall p :: p in points ==> (if alongX then p.x else p.y) <= m
    ensures exists p :: p in points && (if alongX then p.x else p.y) == m
  {
    var c := if alongX then points[0].x else points[0].y;
    if |points| == 1 then c
    else
      var m := MaxCoordinate(points[1..], alongX);
      assert forall p :: p in points ==> p == points[0] || p in points[1..];
      if c < m then m else c
  }

  /** The grid the list constructor fills: a dot where a point is, `empty` everywhere else. */
  function SheetOf(points: seq<Point>, cols: nat, rows: nat, empty: Option<bool>): (g: Sheet)
    ensures g.Valid() && g.cols == cols && g.rows == rows
    ensures forall x, y :: g.InBounds(x, y) ==> g.Get(x, y) == if Point(x, y) in points then Some(true) else empty
  {
    Grid(cols, rows, seq(rows, y => seq(cols, x => if Point(x, y) in points then Some(true) else empty)))
  }

  /**
   * `new QuickMatrix(points)`. An empty list has no maximum; a dimension that wraps
   * past `int.MaxValue` is a negative array size; a negative coordinate is an index off
   * the array. Otherwise the sheet is as large as the largest coordinates, with `empty`
   * at every position no point sets.
   */
  function BuildSheet(points: seq<Point>, empty: Option<bool>): (r: Result<Sheet>)
    ensures r.Ok? ==> r.value.Valid()
  {
    if |points| == 0 then Fail("InvalidOperationException")
    else
      var cols := CSharpInt.Wrap32(MaxCoordinate(points, true) + 1);
      var rows := CSharpInt.Wrap32(MaxCoordinate(points, false) + 1);
      if cols < 0 || rows < 0 then Fail("OverflowException")
      else if exists p :: p in points && (p.x < 0 || p.y < 0) then Fail("IndexOutOfRangeException")
      else Ok(SheetOf(points, cols, rows, empty))
  }

  /** The sheet `ExtractData` reads, with the corrected constructor: no dot is `false`. */
  function ReadSheet(input: seq<string>): (r: Result<Sheet>)
    ensures r.Ok? ==> r.value.Valid()
  {
    match ParseDots(input)
    case Fail(e) => Fail(e)
    case Ok(points) => BuildSheet(points, Some(false))
  }

  /** The sheet `ExtractData` reads as written: a position without a dot is a null entry. */
  function ReadSheetAsWritten(input: seq<string>): (r: Result<Sheet>)
    ensures r.Ok? ==> r.value.Valid()
  {
    match ParseDots(input)
    case Fail(e) => Fail(e)
    case Ok(points) => BuildSheet(points, None)
  }

  /** With a cell at every position, the corrected sheet shows exactly the points read. */
  lemma SheetShowsDots(points: seq<Point>)
    requires forall p :: p in points ==> CSharpInt.IsInt32(p.x) && CSharpInt.IsInt32(p.y)
    requires BuildSheet(points, Some(false)).Ok?
    ensures Shows(BuildSheet(points, Some(false)).value, DotsOf(points))
  {
    var g := BuildSheet(points, Some(false)).value;
    var mx, my := MaxCoordinate(points, true), MaxCoordinate(points, false);
    var px :| px in points && px.x == mx;
    var py :| py in points && py.y == my;
    assert CSharpInt.IsInt32(mx + 1) && CSharpInt.IsInt32(my + 1);
    forall p | p in DotsOf(points)
      ensures g.InBounds(p.x, p.y)
    {
      assert p.x <= mx && p.y <= my;
    }
  }

  /** The sheet as written has a null entry wherever no point is. */
  lemma SheetAsWrittenHasGaps(points: seq<Point>, x: int, y: int)
    requires BuildSheet(points, None).Ok?
    requires BuildSheet(points, None).value.InBounds(x, y) && Point(x, y) !in points
    ensures BuildSheet(points, None).value.Get(x, y) == None
  {
  }

  // ---------------------------------------------------------------------------
  // Folding
  // ---------------------------------------------------------------------------

  /**
   * `GetSubMatrix((0, from), (ColCount - 1, from + count - 1))`: each column's rows
   * `from` .. `from + count - 1` are gathered with `List.GetRange`, then every cell is
   * copied, then the list constructor builds the result. With no column nothing is
   * gathered; `GetRange` refuses a negative start or count and a range past the end; a
   * null entry throws when copied; an empty list has no maximum.
   */
  function RowBand(g: Sheet, from: int, count: int): (r: Result<Sheet>)
    requires g.Valid()
    ensures r.Ok? <==> 0 < g.cols && 0 <= from && 0 < count && from + count <= g.rows && RowsFull(g, from, from + count)
    ensures r.Ok? ==> Full(r.value) && r.value.cols == g.cols && r.value.rows == count
    ensures r.Ok? ==> forall x, y :: r.value.InBounds(x, y) ==> r.value.Get(x, y) == g.Get(x, from + y)
  {
    if g.cols == 0 then Fail("InvalidOperationException")
    else if from < 0 || count < 0 then Fail("ArgumentOutOfRangeException")
    else if g.rows - from < count then Fail("ArgumentException")
    else if !RowsFull(g, from, from + count) then Fail("NullReferenceException")
    else if count == 0 then Fail("InvalidOperationException")
    else
      var band := Grid(g.cols, count, g.at[from..from + count]);
      assert forall x, y :: band.InBounds(x, y) ==> band.Get(x, y) == g.Get(x, from + y);
      Ok(band)
  }

  /** The top `line` rows with the rows below the line mirrored onto them and ORed in. */
  function Folded(g: Sheet, line: nat): (r: Sheet)
    requires g.Valid() && line <= g.rows
    ensures Full(r) && r.cols == g.cols && r.rows == line
    ensures forall x, y :: r.InBounds(x, y) ==> r.Get(x, y) == Some(Dot(g, x, y) || Dot(g, x, 2 * line - y))
  {
    var cell := (x: int, y: int) => Some(Dot(g, x, y) || Dot(g, x, 2 * line - y));
    var r := Grid(g.cols, line, seq(line, y => seq(g.cols, x => cell(x, y))));
    assert forall x, y :: r.InBounds(x, y) ==> r.at[y][x] == cell(x, y);
    r
  }

  /**
   * `FoldUp(line)`: the band above the line and the band below it are cut out (either
   * cut may throw), and the lower band, flipped, is ORed into the upper one.
   */
  function FoldUpSheet(g: Sheet, line: int): (r: Result<Sheet>)
    requires g.Valid()
    ensures r.Ok? ==> 0 < line < g.rows && Full(r.value) && r.value.cols == g.cols && r.value.rows == line
  {
    match RowBand(g, 0, line)
    case Fail(e) => Fail(e)
    case Ok(_) =>
      match RowBand(g, line + 1, g.rows - line - 1)
      case Fail(e) => Fail(e)
      case Ok(_) => Ok(Folded(g, line))
  }

  /** The sheet after an instruction, and the exception that stopped it if one did. */
  datatype Outcome = Outcome(sheet: Sheet, error: Option<string>)

  /**
   * `FoldLeft(line)` corrected: transpose, fold up, transpose back. A null entry throws in
   * the first transpose; a failing fold leaves the sheet transposed.
   */
  function FoldLeftSheet(g: Sheet, line: int): (r: Outcome)
    requires g.Valid()
    ensures r.sheet.Valid()
  {
    if !Full(g) then Outcome(g, Some("NullReferenceException"))
    else
      var t := Transpose(g);
      match FoldUpSheet(t, line)
      case Fail(e) => Outcome(t, Some(e))
      case Ok(f) => Outcome(Transpose(f), None)
  }

  /**
   * `FoldLeft(line)` as written: a quarter turn counter-clockwise, a fold up, a quarter
   * turn clockwise. A failing fold leaves the sheet turned.
   */
  function FoldLeftAsWrittenSheet(g: Sheet, line: int): (r: Outcome)
    requires g.Valid()
    ensures r.sheet.Valid()
  {
    if !Full(g) then Outcome(g, Some("NullReferenceException"))
    else
      var t := GridModel.RotateCounterClockwise(g);
      match FoldUpSheet(t, line)
      case Fail(e) => Outcome(t, Some(e))
      case Ok(f) => Outcome(GridModel.RotateClockwise(f), None)
  }

  /** One instruction of `ExecuteFolds`: 'y' folds up, any other letter folds left. */
  function FoldStep(g: Sheet, f: Fold): (r: Outcome)
    requires g.Valid()
    ensures r.sheet.Valid()
  {
    if f.axis == 'y' then
      match FoldUpSheet(g, f.line)
      case Fail(e) => Outcome(g, Some(e))
      case Ok(h) => Outcome(h, None)
    else FoldLeftSheet(g, f.line)
  }

  /** The instructions in order; the first one that throws ends the run. */
  function FoldSteps(g: Sheet, folds: seq<Fold>): (r: Outcome)
    requires g.Valid()
    ensures r.sheet.Valid()
  {
    if |folds| == 0 then Outcome(g, None)
    else
      var o := FoldSteps(g, folds[..|folds| - 1]);
      if o.error.Some? then o else FoldStep(o.sheet, folds[|folds| - 1])
  }

  /** One more instruction, unless an earlier one has thrown. */
  lemma FoldStepsNext(g: Sheet, folds: seq<Fold>, i: nat)
    requires g.Valid() && i < |folds|
    ensures var o := FoldSteps(g, folds[..i]);
      FoldSteps(g, folds[..i + 1]) == if o.error.Some? then o else FoldStep(o.sheet, folds[i])
  {
    assert folds[..i + 1][..i] == folds[..i];
  }

  /** How many instructions `ExecuteFolds(n)` carries out: `Math.Min(n, count)`, none when that is negative. */
  function FoldsToDo(n: int, count: nat): (k: nat)
    ensures k <= count
  {
    if n < 0 then 0 else if n < count then n else count
  }

  // ---------------------------------------------------------------------------
  // Counting
  // ---------------------------------------------------------------------------

  /** The dots among the first n cells of row y. */
  function DotsInRow(g: Sheet, y: int, n: nat): nat
    requires g.Valid() && n <= g.cols
  {
    if n == 0 then 0 else DotsInRow(g, y, n - 1) + (if Dot(g, n - 1, y) then 1 else 0)
  }

  /** The dots in the first m rows. */
  function DotsInRows(g: Sheet, m: nat): nat
    requires g.Valid() && m <= g.rows
  {
    if m == 0 then 0 else DotsInRows(g, m - 1) + DotsInRow(g, m - 1, g.cols)
  }

  /** `Cells.Count(cell => cell.BoolVal)`: the list of cells row by row; a null entry throws. */
  function CountDots(g: Sheet): Result<nat>
    requires g.Valid()
  {
    if !Full(g) then Fail("NullReferenceException") else Ok(DotsInRows(g, g.rows))
  }

  /** Part one: read the sheet, carry out the first instruction, count the dots. */
  function Solution1(input: seq<string>): Result<int>
  {
    match ReadSheet(input)
    case Fail(e) => Fail(e)
    case Ok(g) =>
      match ParseFolds(input)
      case Fail(e) => Fail(e)
      case Ok(folds) =>
        var o := FoldSteps(g, folds[..FoldsToDo(1, |folds|)]);
        if o.error.Some? then Fail(o.error.value)
        else
          match CountDots(o.sheet)
          case Fail(e) => Fail(e)
          case Ok(n) => Ok(n)
  }

  // ---------------------------------------------------------------------------
  // What a fold does to the dots
  // ---------------------------------------------------------------------------

  /** On a sheet with a cell everywhere, a fold up succeeds exactly when both bands are non-empty. */
  lemma FoldUpSucceeds(g: Sheet, line: int)
    requires Full(g)
    ensures FoldUpSheet(g, line).Ok? <==> 0 < g.cols && 0 < line && line + 1 < g.rows
  {
    if 0 < g.cols && 0 < line && line + 1 < g.rows {
      assert RowBand(g, 0, line).Ok?;
      assert RowBand(g, line + 1, g.rows - line - 1).Ok?;
    }
  }

  /** A null entry above the line makes a fold up throw once both cuts are in range. */
  lemma FoldUpThrowsOnGap(g: Sheet, line: int, x: int, y: int)
    requires g.Valid() && 0 < g.cols && 0 <= line <= g.rows
    requires 0 <= x < g.cols && 0 <= y < line && g.Get(x, y) == None
    ensures FoldUpSheet(g, line) == Fail("NullReferenceException")
  {
    assert !RowsFull(g, 0, line);
  }

  /** Which dots land on (x, y) above the line of a fold up. */
  lemma FoldDotsUpAt(g: Sheet, dots: set<Point>, line: int, x: int, y: int)
    requires Shows(g, dots) && 0 <= y < line
    ensures Point(x, y) in FoldDotsUp(dots, line) <==> Dot(g, x, y) || Dot(g, x, 2 * line - y)
  {
    if Dot(g, x, y) {
      assert Point(x, y) == FoldPointUp(Point(x, y), line);
    } else if Dot(g, x, 2 * line - y) {
      assert Point(x, y) == FoldPointUp(Point(x, 2 * line - y), line);
    }
    if Point(x, y) in FoldDotsUp(dots, line) {
      var p :| p in dots && p.y != line && p.y <= 2 * line && Point(x, y) == FoldPointUp(p, line);
      assert g.Get(p.x, p.y) == Some(true);
    }
  }

  /** Which dots land on (x, y) left of the line of a fold left. */
  lemma FoldDotsLeftAt(g: Sheet, dots: set<Point>, line: int, x: int, y: int)
    requires Shows(g, dots) && 0 <= x < line
    ensures Point(x, y) in FoldDotsLeft(dots, line) <==> Dot(g, x, y) || Dot(g, 2 * line - x, y)
  {
    if Dot(g, x, y) {
      assert Point(x, y) == FoldPointLeft(Point(x, y), line);
    } else if Dot(g, 2 * line - x, y) {
      assert Point(x, y) == FoldPointLeft(Point(2 * line - x, y), line);
    }
    if Point(x, y) in FoldDotsLeft(dots, line) {
      var p :| p in dots && p.x != line && p.x <= 2 * line && Point(x, y) == FoldPointLeft(p, line);
      assert g.Get(p.x, p.y) == Some(true);
    }
  }

  /** A fold up of a sheet that shows `dots` shows the dots folded up. */
  lemma FoldUpShows(g: Sheet, dots: set<Point>, line: int)
    requires Shows(g, dots) && FoldUpSheet(g, line).Ok?
    ensures Shows(FoldUpSheet(g, line).value, FoldDotsUp(dots, line))
  {
    var r := FoldUpSheet(g, line).value;
    assert r == Folded(g, line);
    forall q | q in FoldDotsUp(dots, line)
      ensures r.InBounds(q.x, q.y)
    {
      var p :| p in dots && p.y != line && p.y <= 2 * line && q == FoldPointUp(p, line);
    }
    forall x, y | r.InBounds(x, y)
      ensures r.Get(x, y) == Some(true) <==> Point(x, y) in FoldDotsUp(dots, line)
    {
      FoldDotsUpAt(g, dots, line, x, y);
    }
  }

  /** The positions of a transposed sheet hold the cells of the mirrored positions. */
  lemma DotTranspose(g: Sheet)
    requires g.Valid()
    ensures Full(g) ==> Full(Transpose(g))
    ensures forall x, y :: Dot(Transpose(g), y, x) == Dot(g, x, y)
  {
    var t := Transpose(g);
    forall a, b | t.InBounds(a, b)
      ensures t.Get(a, b) == g.Get(b, a)
    {
      assert g.InBounds(b, a);
    }
  }

  /** The corrected fold left, position by position. */
  lemma FoldLeftAt(g: Sheet, line: int)
    requires g.Valid() && FoldLeftSheet(g, line).error == None
    ensures var r := FoldLeftSheet(g, line).sheet;
      Full(r) && r.cols == line && r.rows == g.rows
      && forall x, y :: r.InBounds(x, y) ==> r.Get(x, y) == Some(Dot(g, x, y) || Dot(g, 2 * line - x, y))
  {
    DotTranspose(g);
    var t := Transpose(g);
    var f := FoldUpSheet(t, line).value;
    assert f == Folded(t, line);
    var r := Transpose(f);
    forall x, y | r.InBounds(x, y)
      ensures r.Get(x, y) == Some(Dot(g, x, y) || Dot(g, 2 * line - x, y))
    {
      assert f.InBounds(y, x);
    }
  }

  /** A fold left of a sheet that shows `dots` shows the dots folded left. */
  lemma FoldLeftShows(g: Sheet, dots: set<Point>, line: int)
    requires Shows(g, dots) && FoldLeftSheet(g, line).error == None
    ensures Shows(FoldLeftSheet(g, line).sheet, FoldDotsLeft(dots, line))
  {
    FoldLeftAt(g, line);
    var r := FoldLeftSheet(g, line).sheet;
    forall q | q in FoldDotsLeft(dots, line)
      ensures r.InBounds(q.x, q.y)
    {
      var p :| p in dots && p.x != line && p.x <= 2 * line && q == FoldPointLeft(p, line);
    }
    forall x, y | r.InBounds(x, y)
      ensures r.Get(x, y) == Some(true) <==> Point(x, y) in FoldDotsLeft(dots, line)
    {
      FoldDotsLeftAt(g, dots, line, x, y);
    }
  }

  /** A quarter turn counter-clockwise keeps a cell at every position. */
  lemma RotateFull(g: Sheet)
    requires Full(g)
    ensures Full(GridModel.RotateCounterClockwise(g))
  {
    var t := GridModel.RotateCounterClockwise(g);
    forall a, b | t.InBounds(a, b)
      ensures t.Get(a, b).Some?
    {
      assert g.InBounds(g.cols - 1 - b, a);
    }
  }

  /**
   * The fold left as written, position by position: column x of the result takes the
   * columns `cols - line + x` and `cols - 2 - line - x`, so the fold is along column
   * `cols - 1 - line` and the result is mirrored.
   */
  lemma FoldLeftAsWrittenAt(g: Sheet, line: int)
    requires g.Valid() && FoldLeftAsWrittenSheet(g, line).error == None
    ensures var r := FoldLeftAsWrittenSheet(g, line).sheet;
      Full(r) && r.cols == line && r.rows == g.rows
      && forall x, y :: r.InBounds(x, y) ==>
        r.Get(x, y) == Some(Dot(g, g.cols - line + x, y) || Dot(g, g.cols - 2 - line - x, y))
  {
    var r := FoldLeftAsWrittenSheet(g, line).sheet;
    forall x, y | r.InBounds(x, y)
      ensures r.Get(x, y) == Some(Dot(g, g.cols - line + x, y) || Dot(g, g.cols - 2 - line - x, y))
    {
      FoldLeftAsWrittenCell(g, line, x, y);
    }
  }

  /** One position of the fold left as written. */
  lemma FoldLeftAsWrittenCell(g: Sheet, line: int, x: int, y: int)
    requires g.Valid() && FoldLeftAsWrittenSheet(g, line).error == None
    requires FoldLeftAsWrittenSheet(g, line).sheet.InBounds(x, y)
    ensures FoldLeftAsWrittenSheet(g, line).sheet.cols == line
    ensures FoldLeftAsWrittenSheet(g, line).sheet.Get(x, y) == Some(Dot(g, g.cols - line + x, y) || Dot(g, g.cols - 2 - line - x, y))
  {
    var t := GridModel.RotateCounterClockwise(g);
    var f := FoldUpSheet(t, line).value;
    assert f == Folded(t, line);
    assert f.InBounds(y, line - 1 - x);
    RotatedDot(g, y, line - 1 - x);
    RotatedDot(g, y, line + 1 + x);
  }

  /** After a quarter turn counter-clockwise, position (a, b) holds the cell of (cols - 1 - b, a). */
  lemma RotatedDot(g: Sheet, a: int, b: int)
    requires g.Valid()
    ensures Dot(GridModel.RotateCounterClockwise(g), a, b) == Dot(g, g.cols - 1 - b, a)
  {
    if GridModel.RotateCounterClockwise(g).InBounds(a, b) {
      assert g.InBounds(g.cols - 1 - b, a);
    }
  }

  /** Mirroring inside columns 0 .. line - 1 is its own inverse. */
  lemma MirrorDotsAt(dots: set<Point>, line: int, x: int, y: int)
    ensures Point(x, y) in MirrorDots(dots, line) <==> Point(line - 1 - x, y) in dots
  {
    if Point(line - 1 - x, y) in dots {
      assert Point(x, y) == Point(line - 1 - (line - 1 - x), y);
    }
  }

  /** The dots after a fold left lie in the columns left of the line. */
  lemma FoldDotsLeftInside(g: Sheet, dots: set<Point>, line: int)
    requires Shows(g, dots)
    ensures forall q :: q in FoldDotsLeft(dots, line) ==> 0 <= q.x < line && 0 <= q.y < g.rows
  {
    forall q | q in FoldDotsLeft(dots, line)
      ensures 0 <= q.x < line && 0 <= q.y < g.rows
    {
      var p :| p in dots && p.x != line && p.x <= 2 * line && q == FoldPointLeft(p, line);
    }
  }

  /**
   * When the line is the middle column the fold left as written shows the right dots,
   * mirrored: what `GetSolution2` undoes with its final flip.
   */
  lemma CentredFoldLeft(g: Sheet, dots: set<Point>, line: int)
    requires Shows(g, dots) && g.cols == 2 * line + 1
    requires FoldLeftAsWrittenSheet(g, line).error == None
    ensures Shows(FoldLeftAsWrittenSheet(g, line).sheet, MirrorDots(FoldDotsLeft(dots, line), line))
  {
    FoldLeftAsWrittenAt(g, line);
    FoldDotsLeftInside(g, dots, line);
    var r := FoldLeftAsWrittenSheet(g, line).sheet;
    var folded := FoldDotsLeft(dots, line);
    forall q | q in MirrorDots(folded, line)
      ensures r.InBounds(q.x, q.y)
    {
      MirrorDotsAt(folded, line, q.x, q.y);
    }
    forall x, y | r.InBounds(x, y)
      ensures r.Get(x, y) == Some(true) <==> Point(x, y) in MirrorDots(folded, line)
    {
      CentredCell(g, dots, line, x, y);
    }
  }

  /** One position of `CentredFoldLeft`. */
  lemma CentredCell(g: Sheet, dots: set<Point>, line: int, x: int, y: int)
    requires Shows(g, dots) && g.cols == 2 * line + 1
    requires FoldLeftAsWrittenSheet(g, line).error == None
    requires FoldLeftAsWrittenSheet(g, line).sheet.InBounds(x, y)
    ensures FoldLeftAsWrittenSheet(g, line).sheet.Get(x, y) == Some(true)
      <==> Point(x, y) in MirrorDots(FoldDotsLeft(dots, line), line)
  {
    FoldLeftAsWrittenCell(g, line, x, y);
    var cell := FoldLeftAsWrittenSheet(g, line).sheet.Get(x, y);
    assert cell == Some(Dot(g, line + 1 + x, y) || Dot(g, line - 1 - x, y));
    CentredDots(g, dots, line, x, y);
  }

  /** The dots at column `line - 1 - x` after the fold are those of columns `line + 1 + x` and `line - 1 - x`. */
  lemma CentredDots(g: Sheet, dots: set<Point>, line: int, x: int, y: int)
    requires Shows(g, dots) && 0 <= x < line
    ensures Point(x, y) in MirrorDots(FoldDotsLeft(dots, line), line) <==> Dot(g, line + 1 + x, y) || Dot(g, line - 1 - x, y)
  {
    FoldDotsLeftAt(g, dots, line, line - 1 - x, y);
    MirrorDotsAt(FoldDotsLeft(dots, line), line, x, y);
  }

  /** A map never makes a set larger. */
  lemma {:induction false} ImageNoLarger(s: set<Point>, f: Point -> Point)
    ensures |set p | p in s :: f(p)| <= |s|
    decreases |s|
  {
    if s != {} {
      var q :| q in s;
      ImageNoLarger(s - {q}, f);
      assert (set p | p in s :: f(p)) == (set p | p in s - {q} :: f(p)) + {f(q)};
    }
  }

  /** A subset is no larger. */
  lemma SubsetNoLarger(a: set<Point>, b: set<Point>)
    requires a <= b
    ensures |a| <= |b|
  {
    assert b == a + (b - a);
  }

  /** Folding up merges dots and drops some; it never adds one. */
  lemma FoldUpNeverAddsDots(dots: set<Point>, line: int)
    ensures |FoldDotsUp(dots, line)| <= |dots|
  {
    var kept := set p | p in dots && p.y != line && p.y <= 2 * line;
    var fold := p => FoldPointUp(p, line);
    ImageNoLarger(kept, fold);
    SubsetNoLarger(kept, dots);
    var image := set p | p in kept :: fold(p);
    forall q | q in FoldDotsUp(dots, line)
      ensures q in image
    {
      var p :| p in dots && p.y != line && p.y <= 2 * line && q == FoldPointUp(p, line);
      assert q == fold(p);
    }
    SubsetNoLarger(FoldDotsUp(dots, line), image);
  }

  /** Folding left merges dots and drops some; it never adds one. */
  lemma FoldLeftNeverAddsDots(dots: set<Point>, line: int)
    ensures |FoldDotsLeft(dots, line)| <= |dots|
  {
    var kept := set p | p in dots && p.x != line && p.x <= 2 * line;
    var fold := p => FoldPointLeft(p, line);
    ImageNoLarger(kept, fold);
    SubsetNoLarger(kept, dots);
    var image := set p | p in kept :: fold(p);
    forall q | q in FoldDotsLeft(dots, line)
      ensures q in image
    {
      var p :| p in dots && p.x != line && p.x <= 2 * line && q == FoldPointLeft(p, line);
      assert q == fold(p);
    }
    SubsetNoLarger(FoldDotsLeft(dots, line), image);
  }

  // ---------------------------------------------------------------------------
  // What the count counts
  // ---------------------------------------------------------------------------

  lemma {:induction false} DotsInRowCounts(g: Sheet, dots: set<Point>, y: int, n: nat)
    requires Shows(g, dots) && n <= g.cols
    ensures DotsInRow(g, y, n) == |set p | p in dots && p.y == y && p.x < n|
  {
    if n > 0 {
      DotsInRowCounts(g, dots, y, n - 1);
      var prev := set p | p in dots && p.y == y && p.x < n - 1;
      var cur := set p | p in dots && p.y == y && p.x < n;
      if Dot(g, n - 1, y) {
        assert cur == prev + {Point(n - 1, y)};
      } else {
        assert cur == prev;
      }
    }
  }

  lemma {:induction false} DotsInRowsCounts(g: Sheet, dots: set<Point>, m: nat)
    requires Shows(g, dots) && m <= g.rows
    ensures DotsInRows(g, m) == |set p | p in dots && p.y < m|
  {
    if m > 0 {
      DotsInRowsCounts(g, dots, m - 1);
      DotsInRowCounts(g, dots, m - 1, g.cols);
      var prev := set p | p in dots && p.y < m - 1;
      var row := set p | p in dots && p.y == m - 1 && p.x < g.cols;
      assert (set p | p in dots && p.y < m) == prev + row;
      assert prev * row == {};
    }
  }

  /** The count of a sheet that shows `dots` is the number of dots. */
  lemma CountShows(g: Sheet, dots: set<Point>)
    requires Shows(g, dots)
    ensures CountDots(g) == Ok(|dots|)
  {
    DotsInRowsCounts(g, dots, g.rows);
    assert (set p | p in dots && p.y < g.rows) == dots;
  }

  /** The dots after one instruction: 'y' folds up, any other letter folds left. */
  function FoldDots(dots: set<Point>, f: Fold): set<Point>
  {
    if f.axis == 'y' then FoldDotsUp(dots, f.line) else FoldDotsLeft(dots, f.line)
  }

  /** The dots after the instructions in order. */
  function AllFoldDots(dots: set<Point>, folds: seq<Fold>): set<Point>
  {
    if |folds| == 0 then dots else FoldDots(AllFoldDots(dots, folds[..|folds| - 1]), folds[|folds| - 1])
  }

  /** An instruction that does not throw shows the dots it folds. */
  lemma FoldStepShows(g: Sheet, dots: set<Point>, f: Fold)
    requires Shows(g, dots) && FoldStep(g, f).error == None
    ensures Shows(FoldStep(g, f).sheet, FoldDots(dots, f))
  {
    if f.axis == 'y' {
      FoldUpShows(g, dots, f.line);
    } else {
      FoldLeftShows(g, dots, f.line);
    }
  }

  /** Instructions that do not throw show the dots folded by each in turn. */
  lemma {:induction false} FoldStepsShow(g: Sheet, dots: set<Point>, folds: seq<Fold>)
    requires Shows(g, dots) && FoldSteps(g, folds).error == None
    ensures Shows(FoldSteps(g, folds).sheet, AllFoldDots(dots, folds))
  {
    if |folds| > 0 {
      var init := folds[..|folds| - 1];
      FoldStepsShow(g, dots, init);
      FoldStepShows(FoldSteps(g, init).sheet, AllFoldDots(dots, init), folds[|folds| - 1]);
    }
  }

  /** The dots read from the input have 32-bit coordinates. */
  lemma ParsedDotsAreInt32(input: seq<string>)
    requires ParseDots(input).Ok?
    ensures forall p :: p in ParseDots(input).value ==> CSharpInt.IsInt32(p.x) && CSharpInt.IsInt32(p.y)
  {
    var points := ParseDots(input).value;
    var blank := Names.IndexOf(input, "");
    forall p | p in points
      ensures CSharpInt.IsInt32(p.x) && CSharpInt.IsInt32(p.y)
    {
      var i :| 0 <= i < |points| && points[i] == p;
      assert ParseDot(input[..blank][i]) == Ok(p);
    }
  }

  /** What a part one that answers has gone through. */
  lemma Solution1Succeeded(input: seq<string>)
    requires Solution1(input).Ok?
    ensures ParseDots(input).Ok? && ParseFolds(input).Ok?
    ensures BuildSheet(ParseDots(input).value, Some(false)) == ReadSheet(input) && ReadSheet(input).Ok?
    ensures var folds := ParseFolds(input).value;
      var o := FoldSteps(ReadSheet(input).value, folds[..FoldsToDo(1, |folds|)]);
      o.error == None && CountDots(o.sheet) == Ok(Solution1(input).value)
  {
  }

  /** The sheet read from the input shows the dots read. */
  lemma ReadSheetShows(input: seq<string>)
    requires ParseDots(input).Ok? && ReadSheet(input).Ok?
    ensures Shows(ReadSheet(input).value, DotsOf(ParseDots(input).value))
  {
    ParsedDotsAreInt32(input);
    SheetShowsDots(ParseDots(input).value);
  }

  /** At most one instruction: the dots after it, or all of them. */
  lemma FirstFoldDots(dots: set<Point>, folds: seq<Fold>)
    ensures AllFoldDots(dots, folds[..FoldsToDo(1, |folds|)]) == if |folds| == 0 then dots else FoldDots(dots, folds[0])
  {
    var done := folds[..FoldsToDo(1, |folds|)];
    if |folds| > 0 {
      assert done == [folds[0]] && done[..0] == [];
    } else {
      assert done == [];
    }
  }

  /**
   * Part one answers the number of dots after the first instruction, or all of them when
   * there is no instruction.
   */
  lemma PartOneCountsFirstFold(input: seq<string>)
    requires Solution1(input).Ok?
    ensures ParseDots(input).Ok? && ParseFolds(input).Ok?
    ensures var dots := DotsOf(ParseDots(input).value);
      var folds := ParseFolds(input).value;
      Solution1(input).value == if |folds| == 0 then |dots| else |FoldDots(dots, folds[0])|
  {
    Solution1Succeeded(input);
    ReadSheetShows(input);
    var g := ReadSheet(input).value;
    var dots := DotsOf(ParseDots(input).value);
    var folds := ParseFolds(input).value;
    var done := folds[..FoldsToDo(1, |folds|)];
    FoldStepsShow(g, dots, done);
    CountShows(FoldSteps(g, done).sheet, AllFoldDots(dots, done));
    FirstFoldDots(dots, folds);
  }

  // ---------------------------------------------------------------------------
  // Two inputs on which the code as written goes wrong
  // ---------------------------------------------------------------------------

  /**
   * The list constructor as written leaves a null entry where no dot is, and the first
   * fold throws on it: dots at (0, 0) and (1, 2), folded up along y = 1. With a cell at
   * every position the same fold leaves two dots.
   */
  lemma SparseSheetThrows()
    ensures var points := [Point(0, 0), Point(1, 2)];
      BuildSheet(points, None).Ok?
      && FoldUpSheet(BuildSheet(points, None).value, 1) == Fail("NullReferenceException")
      && BuildSheet(points, Some(false)).Ok?
      && FoldUpSheet(BuildSheet(points, Some(false)).value, 1).Ok?
      && CountDots(FoldUpSheet(BuildSheet(points, Some(false)).value, 1).value) == Ok(2)
  {
    SparseSheetAsWritten();
    SparseSheetCorrected();
  }

  /** The sheet as written of dots (0, 0) and (1, 2) has a null entry at (1, 0). */
  lemma SparseSheetAsWritten()
    ensures var g := BuildSheet([Point(0, 0), Point(1, 2)], None);
      g.Ok? && FoldUpSheet(g.value, 1) == Fail("NullReferenceException")
  {
    var points := [Point(0, 0), Point(1, 2)];
    assert MaxCoordinate(points, true) == 1;
    assert MaxCoordinate(points, false) == 2;
    var g := BuildSheet(points, None).value;
    assert g.Get(1, 0) == None;
    FoldUpThrowsOnGap(g, 1, 1, 0);
  }

  /** With a cell everywhere, dots (0, 0) and (1, 2) folded up along y = 1 are two dots. */
  lemma SparseSheetCorrected()
    ensures var g := BuildSheet([Point(0, 0), Point(1, 2)], Some(false));
      g.Ok? && FoldUpSheet(g.value, 1).Ok? && CountDots(FoldUpSheet(g.value, 1).value) == Ok(2)
  {
    var points := [Point(0, 0), Point(1, 2)];
    assert MaxCoordinate(points, true) == 1;
    assert MaxCoordinate(points, false) == 2;
    var h := BuildSheet(points, Some(false)).value;
    SheetShowsDots(points);
    assert DotsOf(points) == {Point(0, 0), Point(1, 2)};
    SparseFoldCount(h);
  }

  /** Any sheet of three rows showing dots (0, 0) and (1, 2), folded up along y = 1, keeps two dots. */
  lemma SparseFoldCount(h: Sheet)
    requires Shows(h, {Point(0, 0), Point(1, 2)}) && h.cols == 2 && h.rows == 3
    ensures FoldUpSheet(h, 1).Ok? && CountDots(FoldUpSheet(h, 1).value) == Ok(2)
  {
    var dots := {Point(0, 0), Point(1, 2)};
    FoldUpSucceeds(h, 1);
    FoldUpShows(h, dots, 1);
    SparseFoldedDots();
    CountShows(FoldUpSheet(h, 1).value, FoldDotsUp(dots, 1));
  }

  lemma SparseFoldedDots()
    ensures FoldDotsUp({Point(0, 0), Point(1, 2)}, 1) == {Point(0, 0), Point(1, 0)}
  {
    assert FoldPointUp(Point(0, 0), 1) == Point(0, 0);
    assert FoldPointUp(Point(1, 2), 1) == Point(1, 0);
  }

  /** Four columns with dots in columns 2 and 3. */
  lemma OffCentreSheet() returns (g: Sheet)
    ensures BuildSheet([Point(2, 0), Point(3, 0)], Some(false)) == Ok(g)
    ensures Shows(g, {Point(2, 0), Point(3, 0)}) && g.cols == 4 && g.rows == 1
  {
    var points := [Point(2, 0), Point(3, 0)];
    assert MaxCoordinate(points, true) == 3;
    assert MaxCoordinate(points, false) == 0;
    g := BuildSheet(points, Some(false)).value;
    SheetShowsDots(points);
    assert DotsOf(points) == {Point(2, 0), Point(3, 0)};
  }

  /** Folded along column 2, the sheet of `OffCentreSheet` keeps one dot: the one on the line is gone. */
  lemma OffCentreFoldedAtLine() returns (g: Sheet)
    ensures BuildSheet([Point(2, 0), Point(3, 0)], Some(false)) == Ok(g)
    ensures FoldLeftSheet(g, 2).error == None && CountDots(FoldLeftSheet(g, 2).sheet) == Ok(1)
  {
    g := OffCentreSheet();
    OffCentreFoldCount(g);
  }

  /** Any sheet of four columns showing dots (2, 0) and (3, 0), folded along column 2, keeps one dot. */
  lemma OffCentreFoldCount(g: Sheet)
    requires Shows(g, {Point(2, 0), Point(3, 0)}) && g.cols == 4 && g.rows == 1
    ensures FoldLeftSheet(g, 2).error == None && CountDots(FoldLeftSheet(g, 2).sheet) == Ok(1)
  {
    var dots := {Point(2, 0), Point(3, 0)};
    DotTranspose(g);
    FoldUpSucceeds(Transpose(g), 2);
    FoldLeftShows(g, dots, 2);
    OffCentreFoldedDots();
    CountShows(FoldLeftSheet(g, 2).sheet, FoldDotsLeft(dots, 2));
  }

  lemma OffCentreFoldedDots()
    ensures FoldDotsLeft({Point(2, 0), Point(3, 0)}, 2) == {Point(1, 0)}
  {
    assert FoldPointLeft(Point(3, 0), 2) == Point(1, 0);
  }

  /** The fold left as written leaves two dots on the sheet of `OffCentreSheet`. */
  lemma OffCentreFoldedAsWritten() returns (g: Sheet)
    ensures BuildSheet([Point(2, 0), Point(3, 0)], Some(false)) == Ok(g)
    ensures FoldLeftAsWrittenSheet(g, 2).error == None && CountDots(FoldLeftAsWrittenSheet(g, 2).sheet) == Ok(2)
  {
    g := OffCentreSheet();
    RotateFull(g);
    FoldUpSucceeds(GridModel.RotateCounterClockwise(g), 2);
    FoldLeftAsWrittenAt(g, 2);
    var r := FoldLeftAsWrittenSheet(g, 2).sheet;
    assert g.Get(2, 0) == Some(true) && g.Get(3, 0) == Some(true);
    assert r.Get(0, 0) == Some(true) && r.Get(1, 0) == Some(true);
    assert DotsInRow(r, 0, 1) == 1;
    assert DotsInRows(r, 1) == DotsInRow(r, 0, 2) == 2;
  }

  /**
   * The fold left as written folds along column `cols - 1 - line`: four columns with dots
   * in columns 2 and 3, folded left along x = 2. Folding along column 2 drops the dot on
   * the line and leaves one; the code as written leaves two.
   */
  lemma OffCentreFoldLeft()
    ensures var g := BuildSheet([Point(2, 0), Point(3, 0)], Some(false));
      g.Ok?
      && FoldLeftSheet(g.value, 2).error == None
      && CountDots(FoldLeftSheet(g.value, 2).sheet) == Ok(1)
      && FoldLeftAsWrittenSheet(g.value, 2).error == None
      && CountDots(FoldLeftAsWrittenSheet(g.value, 2).sheet) == Ok(2)
  {
    var g := OffCentreFoldedAtLine();
    var h := OffCentreFoldedAsWritten();
  }

  // ---------------------------------------------------------------------------
  // The merge loop of `FoldUp`
  // ---------------------------------------------------------------------------

  /** Position (i, j) comes before (x, y) in a list of cells built row by row. */
  predicate Before(i: int, j: int, x: int, y: int)
  {
    j < y || (j == y && i < x)
  }

  /**
   * `result` is `top` with every cell of `bottom` before (x, y) ORed into the position
   * `shift` rows further down.
   */
  ghost predicate MergedBefore(result: Sheet, top: Sheet, bottom: Sheet, shift: int, x: int, y: int)
  {
    result.Valid() && top.Valid() && bottom.Valid()
    && result.cols == top.cols && result.rows == top.rows
    && forall i, j :: result.InBounds(i, j) ==>
      result.Get(i, j) == Some(top.Get(i, j) == Some(true)
        || (bottom.InBounds(i, j - shift) && Before(i, j - shift, x, y) && bottom.Get(i, j - shift) == Some(true)))
  }

  /** Nothing merged yet: the result is the top band. */
  lemma MergedNothing(top: Sheet, bottom: Sheet, shift: int)
    requires Full(top) && bottom.Valid()
    ensures MergedBefore(top, top, bottom, shift, 0, 0)
  {
    forall i, j | top.InBounds(i, j)
      ensures top.Get(i, j) == Some(top.Get(i, j) == Some(true))
    {
      assert top.Get(i, j).Some?;
      var b := top.Get(i, j).value;
      assert top.Get(i, j) == Some(b) && (b == true <==> top.Get(i, j) == Some(true));
    }
  }

  /** Merging the cell at (x, y) moves the boundary one cell on. */
  lemma MergedStep(result: Sheet, top: Sheet, bottom: Sheet, shift: int, x: int, y: int)
    requires MergedBefore(result, top, bottom, shift, x, y) && bottom.InBounds(x, y)
    ensures var merged := if result.InBounds(x, y + shift)
        then Put(result, x, y + shift, Some(bottom.Get(x, y) == Some(true) || result.Get(x, y + shift) == Some(true)))
        else result;
      MergedBefore(merged, top, bottom, shift, x + 1, y)
  {
  }

  /** The end of a row is the start of the next. */
  lemma MergedRow(result: Sheet, top: Sheet, bottom: Sheet, shift: int, y: int)
    requires MergedBefore(result, top, bottom, shift, bottom.cols, y)
    ensures MergedBefore(result, top, bottom, shift, 0, y + 1)
  {
  }

  /** With every cell of the flipped lower band merged, the result is the fold. */
  lemma MergedIsFolded(g: Sheet, line: nat, top: Sheet, bottom: Sheet, result: Sheet)
    requires g.Valid() && line < g.rows
    requires RowBand(g, 0, line) == Ok(top)
    requires RowBand(g, line + 1, g.rows - line - 1).Ok?
    requires bottom == FlipVertical(RowBand(g, line + 1, g.rows - line - 1).value)
    requires MergedBefore(result, top, bottom, line - (g.rows - line - 1), 0, bottom.rows)
    ensures result == Folded(g, line)
  {
    var down := g.rows - line - 1;
    var band := RowBand(g, line + 1, down).value;
    var shift := line - down;
    forall i, j | result.InBounds(i, j)
      ensures result.Get(i, j) == Folded(g, line).Get(i, j)
    {
      assert top.Get(i, j) == g.Get(i, j);
      if bottom.InBounds(i, j - shift) {
        assert band.InBounds(i, down - 1 - (j - shift));
        assert bottom.Get(i, j - shift) == g.Get(i, 2 * line - j);
      }
    }
    GridExt(result, Folded(g, line));
  }

  /** Once an instruction has thrown, the later ones change nothing. */
  lemma {:induction false} FoldStepsStop(g: Sheet, folds: seq<Fold>, m: nat, k: nat)
    requires g.Valid() && m <= k <= |folds| && FoldSteps(g, folds[..m]).error.Some?
    ensures FoldSteps(g, folds[..k]) == FoldSteps(g, folds[..m])
    decreases k
  {
    if k > m {
      FoldStepsStop(g, folds, m, k - 1);
      FoldStepsNext(g, folds, k - 1);
    }
  }

  // ---------------------------------------------------------------------------
  // The solver
  // ---------------------------------------------------------------------------

  class Day13 {
    var sheet: Sheet
    var foldInstructions: seq<Fold>

    ghost predicate Valid()
      reads this
    {
      sheet.Valid()
    }

    /** A new solver holds an empty matrix and no instruction. */
    constructor ()
      ensures Valid() && sheet == Grid(0, 0, []) && foldInstructions == []
    {
      sheet := Grid(0, 0, []);
      foldInstructions := [];
    }

    /**
     * `ExtractData` with the corrected list constructor. The sheet is replaced once the
     * dots are read; the instructions are read after that, so an instruction that does
     * not parse throws with the new sheet in place and the old instructions kept.
     */
    method ExtractData(input: seq<string>) returns (err: Option<string>)
      requires Valid()
      modifies this
      ensures Valid()
      ensures ReadSheet(input).Fail? ==>
        (err == Some(ReadSheet(input).error) && sheet == old(sheet) && foldInstructions == old(foldInstructions))
      ensures ReadSheet(input).Ok? ==> sheet == ReadSheet(input).value
      ensures ReadSheet(input).Ok? && ParseFolds(input).Ok? ==> err == None && foldInstructions == ParseFolds(input).value
      ensures ReadSheet(input).Ok? && ParseFolds(input).Fail? ==>
        (err == Some(ParseFolds(input).error) && foldInstructions == old(foldInstructions))
    {
      var points := ParseDots(input);
      if points.Fail? {
        return Some(points.error);
      }
      var built := BuildSheet(points.value, Some(false));
      if built.Fail? {
        return Some(built.error);
      }
      sheet := built.value;
      var folds := ParseFolds(input);
      if folds.Fail? {
        return Some(folds.error);
      }
      foldInstructions := folds.value;
      err := None;
    }

    /** `ExtractData` as written: the list constructor leaves a null entry wherever no dot is. */
    method ExtractDataAsWritten(input: seq<string>) returns (err: Option<string>)
      requires Valid()
      modifies this
      ensures Valid()
      ensures ReadSheetAsWritten(input).Fail? ==>
        (err == Some(ReadSheetAsWritten(input).error) && sheet == old(sheet) && foldInstructions == old(foldInstructions))
      ensures ReadSheetAsWritten(input).Ok? ==> sheet == ReadSheetAsWritten(input).value
      ensures ReadSheetAsWritten(input).Ok? && ParseFolds(input).Ok? ==> err == None && foldInstructions == ParseFolds(input).value
      ensures ReadSheetAsWritten(input).Ok? && ParseFolds(input).Fail? ==>
        (err == Some(ParseFolds(input).error) && foldInstructions == old(foldInstructions))
    {
      var points := ParseDots(input);
      if points.Fail? {
        return Some(points.error);
      }
      var built := BuildSheet(points.value, None);
      if built.Fail? {
        return Some(built.error);
      }
      sheet := built.value;
      var folds := ParseFolds(input);
      if folds.Fail? {
        return Some(folds.error);
      }
      foldInstructions := folds.value;
      err := None;
    }

    /**
     * `FoldUp(line)`: cut the band above the line and the band below it, flip the lower
     * band, and OR its cells, in the order of its cell list, into the upper band `shift`
     * rows further down; a cell that lands off the upper band is dropped. A failing cut
     * leaves the sheet as it was.
     */
    method FoldUp(line: int) returns (err: Option<string>)
      requires Valid()
      modifies this
      ensures Valid() && foldInstructions == old(foldInstructions)
      ensures FoldUpSheet(old(sheet), line).Fail? ==> err == Some(FoldUpSheet(old(sheet), line).error) && sheet == old(sheet)
      ensures FoldUpSheet(old(sheet), line).Ok? ==> err == None && sheet == FoldUpSheet(old(sheet), line).value
    {
      var g := sheet;
      var down := g.rows - line - 1;
      var top := RowBand(g, 0, line);
      if top.Fail? {
        return Some(top.error);
      }
      var band := RowBand(g, line + 1, down);
      if band.Fail? {
        return Some(band.error);
      }
      var bottom := FlipVertical(band.value);
      var shift := line - down;
      var result := top.value;
      MergedNothing(top.value, bottom, shift);
      var y := 0;
      while y < bottom.rows
        invariant 0 <= y <= bottom.rows
        invariant foldInstructions == old(foldInstructions)
        invariant MergedBefore(result, top.value, bottom, shift, 0, y)
      {
        var x := 0;
        while x < bottom.cols
          invariant 0 <= x <= bottom.cols
          invariant foldInstructions == old(foldInstructions)
          invariant MergedBefore(result, top.value, bottom, shift, x, y)
        {
          MergedStep(result, top.value, bottom, shift, x, y);
          if result.InBounds(x, y + shift) {
            result := Put(result, x, y + shift, Some(bottom.Get(x, y) == Some(true) || result.Get(x, y + shift) == Some(true)));
          }
          x := x + 1;
        }
        MergedRow(result, top.value, bottom, shift, y);
        y := y + 1;
      }
      MergedIsFolded(g, line, top.value, bottom, result);
      sheet := result;
      err := None;
    }

    /** `FoldLeft(line)` corrected: transpose, fold up, transpose back. */
    method FoldLeft(line: int) returns (err: Option<string>)
      requires Valid()
      modifies this
      ensures Valid() && foldInstructions == old(foldInstructions)
      ensures Outcome(sheet, err) == FoldLeftSheet(old(sheet), line)
    {
      if !Full(sheet) {
        return Some("NullReferenceException");
      }
      sheet := Transpose(sheet);
      err := FoldUp(line);
      if err.Some? {
        return;
      }
      sheet := Transpose(sheet);
    }

    /** `FoldLeft(line)` as written: a quarter turn counter-clockwise, a fold up, a quarter turn clockwise. */
    method FoldLeftAsWritten(line: int) returns (err: Option<string>)
      requires Valid()
      modifies this
      ensures Valid() && foldInstructions == old(foldInstructions)
      ensures Outcome(sheet, err) == FoldLeftAsWrittenSheet(old(sheet), line)
    {
      if !Full(sheet) {
        return Some("NullReferenceException");
      }
      sheet := GridModel.RotateCounterClockwise(sheet);
      err := FoldUp(line);
      if err.Some? {
        return;
      }
      sheet := GridModel.RotateClockwise(sheet);
    }

    /**
     * `ExecuteFolds(n)`: the first `Math.Min(n, count)` instructions in order, 'y' folding
     * up and any other letter folding left; the first one that throws ends the run.
     */
    method ExecuteFolds(n: int) returns (err: Option<string>)
      requires Valid()
      modifies this
      ensures Valid() && foldInstructions == old(foldInstructions)
      ensures Outcome(sheet, err) == FoldSteps(old(sheet), foldInstructions[..FoldsToDo(n, |foldInstructions|)])
    {
      var i := 0;
      err := None;
      while i < FoldsToDo(n, |foldInstructions|)
        invariant 0 <= i <= FoldsToDo(n, |foldInstructions|)
        invariant Valid() && foldInstructions == old(foldInstructions)
        invariant err == None && FoldSteps(old(sheet), foldInstructions[..i]) == Outcome(sheet, None)
      {
        var f := foldInstructions[i];
        FoldStepsNext(old(sheet), foldInstructions, i);
        ghost var next := FoldStep(sheet, f);
        if f.axis == 'y' {
          err := FoldUp(f.line);
        } else {
          err := FoldLeft(f.line);
        }
        assert Outcome(sheet, err) == next;
        if err.Some? {
          FoldStepsStop(old(sheet), foldInstructions, i + 1, FoldsToDo(n, |foldInstructions|));
          return;
        }
        i := i + 1;
      }
    }

    /** Part one: read, carry out the first instruction, count the cells with a dot. */
    method GetSolution1(input: seq<string>) returns (r: Result<int>)
      requires Valid()
      modifies this
      ensures Valid() && r == Solution1(input)
    {
      var err := ExtractData(input);
      if err.Some? {
        return Fail(err.value);
      }
      err := ExecuteFolds(1);
      if err.Some? {
        return Fail(err.value);
      }
      match CountDots(sheet)
      case Fail(e) => r := Fail(e);
      case Ok(n) => r := Ok(n);
    }
  }
}

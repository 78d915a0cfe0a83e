/**
 * QuickMatrix: a dense grid of cells stored column-major in a `CellInfo[col, row]` array,
 * with the derived `Rows`, `Cols` and `Cells` lists that alias the array's cells.
 * Every operation is proved against the value model `GridModel` through `Model()`,
 * the grid of the cells' payloads.
 */
module Matrices {
  import opened PointExtensions
  import opened Wrappers
  import opened Cells
  import opened GridModel
  import Text

  class QuickMatrix {
    var puzzleInput: array2<CellInfo>
    var touchingSearch: array2<bool>
    var ColCount: nat
    var RowCount: nat
    var Rows: seq<seq<CellInfo>>
    var Cols: seq<seq<CellInfo>>
    var Cells: seq<CellInfo>

    /** The array's cells as a grid of references. */
    ghost function CellGrid(): (g: Grid<CellInfo>)
      reads this`puzzleInput, puzzleInput
      ensures g.Valid() && g.cols == puzzleInput.Length0 && g.rows == puzzleInput.Length1
      ensures forall x, y :: g.InBounds(x, y) ==> g.Get(x, y) == puzzleInput[x, y]
    {
      var a := puzzleInput;
      Grid(a.Length0, a.Length1,
        seq(a.Length1, y requires 0 <= y < a.Length1 reads a =>
          seq(a.Length0, x requires 0 <= x < a.Length0 reads a => a[x, y])))
    }

    /** The cells the matrix owns. */
    ghost function Objects(): set<CellInfo>
      reads this`puzzleInput, puzzleInput
    {
      set x, y | 0 <= x < puzzleInput.Length0 && 0 <= y < puzzleInput.Length1 :: puzzleInput[x, y]
    }

    /** The payloads of the cells, as a value. */
    ghost function Model(): (g: Grid<CellValue>)
      reads this`puzzleInput, puzzleInput, Objects()
      ensures g.Valid() && g.cols == puzzleInput.Length0 && g.rows == puzzleInput.Length1
      ensures forall x, y :: g.InBounds(x, y) ==> g.Get(x, y) == puzzleInput[x, y].Value()
    {
      var a := puzzleInput;
      var objs := Objects();
      assert forall i, j :: 0 <= i < a.Length0 && 0 <= j < a.Length1 ==> a[i, j] in objs;
      Grid(a.Length0, a.Length1,
        seq(a.Length1, y requires 0 <= y < a.Length1 && forall x :: 0 <= x < a.Length0 ==> a[x, y] in objs reads a, objs =>
          seq(a.Length0, x requires 0 <= x < a.Length0 && a[x, y] in objs reads a, objs => a[x, y].Value())))
    }

    /** The array has the advertised dimensions and the cell at index (x, y) has Position (x, y). */
    ghost predicate Shaped()
      reads this`puzzleInput, this`ColCount, this`RowCount, puzzleInput
    {
      puzzleInput.Length0 == ColCount && puzzleInput.Length1 == RowCount &&
      forall x, y :: 0 <= x < ColCount && 0 <= y < RowCount ==> puzzleInput[x, y].Position == Point(x, y)
    }

    /** Shaped, and the three views are those `ComputeOtherProperties` derives from the array. */
    ghost predicate Valid()
      reads this`puzzleInput, this`ColCount, this`RowCount, this`Rows, this`Cols, this`Cells, puzzleInput
    {
      Shaped() && Rows == RowsOf(CellGrid()) && Cols == ColsOf(CellGrid()) && Cells == CellsOf(CellGrid())
    }

    /** Replacing the views (or anything else `Shaped` does not read) keeps the array shaped. */
    twostate lemma ShapedKept()
      requires old(Shaped())
      requires unchanged(this`puzzleInput, this`ColCount, this`RowCount) && unchanged(puzzleInput) && unchanged(Objects())
      ensures Shaped() && CellGrid() == old(CellGrid()) && Model() == old(Model())
    {
    }

    /** Changing the cells' payloads (or anything else `Valid` does not read) keeps the matrix valid. */
    twostate lemma ValidKept()
      requires old(Valid())
      requires unchanged(this`puzzleInput, this`ColCount, this`RowCount, this`Rows, this`Cols, this`Cells)
      requires unchanged(puzzleInput)
      ensures Valid()
    {
    }

    /** Distinct positions hold distinct cells, so writing one cell never changes another. */
    lemma CellsDistinct()
      requires Shaped()
      ensures forall x, y, x', y' ::
        (0 <= x < ColCount && 0 <= y < RowCount && 0 <= x' < ColCount && 0 <= y' < RowCount && (x, y) != (x', y'))
        ==> puzzleInput[x, y] != puzzleInput[x', y']
    {
      forall x, y, x', y' | 0 <= x < ColCount && 0 <= y < RowCount && 0 <= x' < ColCount && 0 <= y' < RowCount
        && (x, y) != (x', y')
        ensures puzzleInput[x, y] != puzzleInput[x', y']
      {
        assert puzzleInput[x, y].Position == Point(x, y);
        assert puzzleInput[x', y'].Position == Point(x', y');
      }
    }

    /** `ComputeOtherProperties`: rebuilds `Rows` (top to bottom), `Cols` (left to right) and `Cells` (row-major). */
    method ComputeOtherProperties()
      requires Shaped()
      modifies this`Rows, this`Cols, this`Cells
      ensures Valid() && CellGrid() == old(CellGrid()) && Model() == old(Model())
    {
      var rows := BuildRows();
      var cols := BuildCols();
      var cells := BuildCells();
      Rows, Cols, Cells := rows, cols, cells;
      ShapedKept();
    }

    /** The rows loop of `ComputeOtherProperties`: one list per row, cells in ascending x. */
    method BuildRows() returns (rows: seq<seq<CellInfo>>)
      requires Shaped()
      ensures |rows| == RowCount && forall y :: 0 <= y < RowCount ==> |rows[y]| == ColCount
      ensures forall x, y :: 0 <= x < ColCount && 0 <= y < RowCount ==> rows[y][x] == puzzleInput[x, y]
      ensures rows == RowsOf(CellGrid())
    {
      ghost var g := CellGrid();
      rows := [];
      for y := 0 to RowCount
        invariant rows == g.at[..y]
      {
        var row: seq<CellInfo> := [];
        for x := 0 to ColCount
          invariant row == g.at[y][..x]
        {
          row := row + [puzzleInput[x, y]];
        }
        assert row == g.at[y];
        assert g.at[..y + 1] == g.at[..y] + [row];
        rows := rows + [row];
      }
      assert g.at[..RowCount] == g.at;
    }

    /** The columns loop of `ComputeOtherProperties`: one list per column, cells in ascending y. */
    method BuildCols() returns (cols: seq<seq<CellInfo>>)
      requires Shaped()
      ensures |cols| == ColCount && forall x :: 0 <= x < ColCount ==> |cols[x]| == RowCount
      ensures forall x, y :: 0 <= x < ColCount && 0 <= y < RowCount ==> cols[x][y] == puzzleInput[x, y]
      ensures cols == ColsOf(CellGrid())
    {
      ghost var g := CellGrid();
      ghost var c := ColsOf(g);
      cols := [];
      for x := 0 to ColCount
        invariant cols == c[..x]
      {
        var col: seq<CellInfo> := [];
        for y := 0 to RowCount
          invariant col == c[x][..y]
        {
          col := col + [puzzleInput[x, y]];
        }
        assert col == c[x];
        assert c[..x + 1] == c[..x] + [col];
        cols := cols + [col];
      }
      assert c[..ColCount] == c;
    }

    /** The cells loop of `ComputeOtherProperties`: every cell once, row by row. */
    method BuildCells() returns (cells: seq<CellInfo>)
      requires Shaped()
      ensures cells == CellsOf(CellGrid())
    {
      ghost var g := CellGrid();
      cells := [];
      for y := 0 to RowCount
        invariant cells == Concat(g.at[..y])
      {
        for x := 0 to ColCount
          invariant cells == Concat(g.at[..y]) + g.at[y][..x]
        {
          cells := cells + [puzzleInput[x, y]];
        }
        assert g.at[..y + 1][..y] == g.at[..y];
        assert g.at[y][..ColCount] == g.at[y];
      }
      assert g.at[..RowCount] == g.at;
    }

    /** `new QuickMatrix()`: the empty 0 × 0 matrix. */
    constructor Empty()
      ensures Valid() && fresh(puzzleInput) && ColCount == 0 && RowCount == 0
    {
      var placeholder := new CellInfo.FromString(Origin, "");
      puzzleInput := new CellInfo[0, 0]((i, j) => placeholder);
      touchingSearch := new bool[0, 0];
      ColCount, RowCount := 0, 0;
      Rows, Cols, Cells := [], [], [];
      new;
      assert CellGrid().at == [];
    }

    /**
     * A fresh array of fresh cells: the cell at index (x, y) has Position (x, y) and the
     * payloads `vals.Get(x, y)`. This is the fill loop shared by the filling constructors.
     */
    static method NewCellArray(vals: Grid<CellValue>) returns (a: array2<CellInfo>)
      requires vals.Valid()
      ensures fresh(a) && a.Length0 == vals.cols && a.Length1 == vals.rows
      ensures forall x, y :: vals.InBounds(x, y) ==>
        fresh(a[x, y]) && a[x, y].Position == Point(x, y) && a[x, y].Value() == vals.Get(x, y)
    {
      var placeholder := new CellInfo.FromString(Origin, "");
      a := new CellInfo[vals.cols, vals.rows]((i, j) => placeholder);
      for y := 0 to vals.rows
        invariant forall x', y' :: 0 <= x' < vals.cols && 0 <= y' < y ==>
          fresh(a[x', y']) && a[x', y'].Position == Point(x', y') && a[x', y'].Value() == vals.Get(x', y')
      {
        NewCellRow(a, y, vals);
      }
    }

    /** The inner fill loop: row y of `a` receives fresh cells holding row y of `vals`. */
    static method NewCellRow(a: array2<CellInfo>, y: nat, vals: Grid<CellValue>)
      requires vals.Valid() && a.Length0 == vals.cols && a.Length1 == vals.rows && y < vals.rows
      modifies a
      ensures forall x', y' :: 0 <= x' < vals.cols && 0 <= y' < vals.rows ==>
        if y' == y then fresh(a[x', y']) && a[x', y'].Position == Point(x', y') && a[x', y'].Value() == vals.Get(x', y')
        else a[x', y'] == old(a[x', y'])
    {
      for x := 0 to vals.cols
        invariant forall x', y' :: 0 <= x' < vals.cols && 0 <= y' < vals.rows ==>
          if y' == y && x' < x then fresh(a[x', y']) && a[x', y'].Position == Point(x', y') && a[x', y'].Value() == vals.Get(x', y')
          else a[x', y'] == old(a[x', y'])
      {
        var v := vals.Get(x, y);
        var c := new CellInfo.FromString(Point(x, y), v.str);
        c.LongVal, c.BoolVal, c.ObjectVal := v.long, v.flag, v.obj;
        a[x, y] := c;
      }
    }

    /** Installs a freshly filled array as the matrix's content and rebuilds the views. */
    method Install(a: array2<CellInfo>, ghost vals: Grid<CellValue>)
      requires vals.Valid() && a.Length0 == vals.cols && a.Length1 == vals.rows
      requires forall x, y :: vals.InBounds(x, y) ==> a[x, y].Position == Point(x, y) && a[x, y].Value() == vals.Get(x, y)
      modifies this
      ensures puzzleInput == a && ColCount == vals.cols && RowCount == vals.rows && touchingSearch == old(touchingSearch)
      ensures Valid() && Model() == vals
    {
      puzzleInput := a;
      ColCount, RowCount := a.Length0, a.Length1;
      ComputeOtherProperties();
      GridExt(Model(), vals);
    }

    /** `new QuickMatrix(col, row, defaultValue)` with a text default: every cell holds that text. */
    constructor FilledWithString(col: nat, row: nat, defaultValue: string)
      ensures Valid() && fresh(puzzleInput) && fresh(Objects())
      ensures Model() == Filled(col, row, EmptyValue.(str := defaultValue))
    {
      var vals := Filled(col, row, EmptyValue.(str := defaultValue));
      var a := NewCellArray(vals);
      puzzleInput := a;
      touchingSearch := new bool[col, row];
      new;
      Install(a, vals);
    }

    /** `new QuickMatrix(col, row, defaultValue)` with an integer default: every cell holds that number. */
    constructor FilledWithLong(col: nat, row: nat, defaultValue: int)
      ensures Valid() && fresh(puzzleInput) && fresh(Objects())
      ensures Model() == Filled(col, row, EmptyValue.(long := defaultValue))
    {
      var vals := Filled(col, row, EmptyValue.(long := defaultValue));
      var a := NewCellArray(vals);
      puzzleInput := a;
      touchingSearch := new bool[col, row];
      new;
      Install(a, vals);
    }

    /**
     * `new QuickMatrix(rawData, trueValue)`: one boolean cell per character, true where the
     * one-character text equals `trueValue`. The width is that of the first line, so the
     * source needs at least one line and no line shorter than the first (longer lines are cut).
     */
    constructor FromBoolLines(rawData: seq<string>, trueValue: string)
      requires |rawData| > 0 && forall y :: 0 <= y < |rawData| ==> |rawData[y]| >= |rawData[0]|
      ensures Valid() && fresh(puzzleInput) && fresh(Objects())
      ensures Model() == BoolLinesGrid(rawData, trueValue)
    {
      var vals := BoolLinesGrid(rawData, trueValue);
      var a := NewCellArray(vals);
      puzzleInput := a;
      touchingSearch := new bool[vals.cols, vals.rows];
      new;
      Install(a, vals);
    }

    /**
     * `new QuickMatrix(col, row, filledCells, filledCellsValue, emptyCellsValue)`: every cell
     * holds `emptyCellsValue`, then each listed point is overwritten with `filledCellsValue`.
     * The source indexes the array with each point unchecked, so every point must be on the grid.
     */
    constructor WithFilledCells(col: nat, row: nat, filledCells: seq<Point>, filledCellsValue: string, emptyCellsValue: string)
      requires forall i :: 0 <= i < |filledCells| ==> 0 <= filledCells[i].x < col && 0 <= filledCells[i].y < row
      ensures Valid() && fresh(puzzleInput) && fresh(Objects())
      ensures Model() == FilledCellsGrid(col, row, filledCells, filledCellsValue, emptyCellsValue)
    {
      var a := NewCellArray(Filled(col, row, EmptyValue.(str := emptyCellsValue)));
      puzzleInput := a;
      touchingSearch := new bool[col, row];
      new;
      for i := 0 to |filledCells|
        invariant forall x, y :: 0 <= x < col && 0 <= y < row ==>
          fresh(a[x, y]) && a[x, y].Position == Point(x, y) &&
          a[x, y].Value() == EmptyValue.(str := if Point(x, y) in filledCells[..i] then filledCellsValue else emptyCellsValue)
      {
        var p := filledCells[i];
        a[p.x, p.y].StringVal := filledCellsValue;
        assert filledCells[..i + 1] == filledCells[..i] + [p];
      }
      assert filledCells[..|filledCells|] == filledCells;
      Install(a, FilledCellsGrid(col, row, filledCells, filledCellsValue, emptyCellsValue));
    }

    /**
     * `new QuickMatrix(rawData, separator, removeEmpty)`: one text cell per item of each line,
     * the items being the characters (no separator) or the `Split` pieces. The matrix is as wide
     * as the line with the most items; a position past the end of a shorter line is null in the
     * source and holds a cell with empty payloads here.
     */
    constructor FromLines(rawData: seq<string>, separator: Option<char>, removeEmpty: bool)
      ensures Valid() && fresh(puzzleInput) && fresh(Objects())
      ensures Model() == LinesGrid(rawData, separator, removeEmpty)
    {
      var vals := LinesGrid(rawData, separator, removeEmpty);
      var a := NewCellArray(vals);
      puzzleInput := a;
      touchingSearch := new bool[vals.cols, vals.rows];
      new;
      Install(a, vals);
    }

    /**
     * `new QuickMatrix(data)`: the matrix spans (0, 0) to the largest coordinates of the listed
     * cells, and each listed cell itself (not a copy) is stored at its own position, a later
     * cell replacing an earlier one at the same position. The source needs a non-empty list of
     * non-negative positions; it leaves a position that no cell names empty (null), which the
     * model excludes by asking that the cells cover their bounding box.
     */
    constructor FromCells(data: seq<CellInfo>)
      requires CoversBox(data)
      ensures Valid() && fresh(puzzleInput) && PlacedList(puzzleInput, data)
      ensures Model() == ListGrid(data)
    {
      var a := PlaceCells(data);
      touchingSearch := new bool[a.Length0, a.Length1];
      new;
      InstallList(a, data);
    }

    /** The end of the list constructor: `a` becomes the array and the views are derived from it. */
    method InstallList(a: array2<CellInfo>, data: seq<CellInfo>)
      requires PlacedList(a, data)
      modifies this`puzzleInput, this`ColCount, this`RowCount, this`Rows, this`Cols, this`Cells
      ensures puzzleInput == a && Valid() && PlacedList(a, data) && Model() == ListGrid(data)
    {
      puzzleInput := a;
      ColCount, RowCount := a.Length0, a.Length1;
      ComputeOtherProperties();
      ModelIsListGrid(data);
    }

    /** A matrix whose every index holds the last listed cell at that position shows `ListGrid`. */
    lemma ModelIsListGrid(data: seq<CellInfo>)
      requires Valid() && PlacedList(puzzleInput, data)
      ensures Model() == ListGrid(data)
    {
      GridExt(Model(), ListGrid(data));
    }

    /** The `ForEach` of the list constructor: every cell is stored at its own position. */
    static method PlaceCells(data: seq<CellInfo>) returns (a: array2<CellInfo>)
      requires CoversBox(data)
      ensures fresh(a) && PlacedList(a, data)
    {
      a := new CellInfo[MaxX(data) + 1, MaxY(data) + 1]((i, j) => data[0]);
      for i := 0 to |data|
        invariant StoredLast(a, data[..i], data[0])
      {
        PlaceCell(a, data, i);
      }
      assert data[..|data|] == data;
      StoredLastCovered(a, data);
    }

    /** One pass of the list constructor's `ForEach`: `_puzzleInput[c.Position.X, c.Position.Y] = c`. */
    static method PlaceCell(a: array2<CellInfo>, data: seq<CellInfo>, i: nat)
      requires i < |data| && StoredLast(a, data[..i], data[0])
      requires 0 <= data[i].Position.x < a.Length0 && 0 <= data[i].Position.y < a.Length1
      modifies a
      ensures StoredLast(a, data[..i + 1], data[0])
    {
      var p := data[i].Position;
      a[p.x, p.y] := data[i];
      forall x, y | 0 <= x < a.Length0 && 0 <= y < a.Length1
        ensures a[x, y] == if LastIndex(data[..i + 1], Point(x, y)) >= 0 then data[LastIndex(data[..i + 1], Point(x, y))] else data[0]
      {
        LastIndexSnoc(data, i, Point(x, y));
      }
    }

    /** `Clone()`: a deep copy, every cell a fresh clone of the cell at the same position. */
    method Clone() returns (clone: QuickMatrix)
      requires Valid()
      ensures fresh(clone) && fresh(clone.puzzleInput) && clone.Valid()
      ensures clone.ColCount == ColCount && clone.RowCount == RowCount && clone.Model() == old(Model())
    {
      ghost var g := Model();
      clone := new QuickMatrix.FilledWithString(ColCount, RowCount, "");
      CloneCells(puzzleInput, clone.puzzleInput, g);
      GridExt(clone.Model(), g);
      clone.ComputeOtherProperties();
    }

    /** The two loops of `Clone`: every cell of `dst` becomes a clone of the cell of `src` at the same index. */
    static method CloneCells(src: array2<CellInfo>, dst: array2<CellInfo>, ghost g: Grid<CellValue>)
      requires src != dst && src.Length0 == dst.Length0 && src.Length1 == dst.Length1
      requires g.Valid() && g.cols == src.Length0 && g.rows == src.Length1
      requires forall x, y :: g.InBounds(x, y) ==> src[x, y].Position == Point(x, y) && src[x, y].Value() == g.Get(x, y)
      modifies dst
      ensures forall x, y :: g.InBounds(x, y) ==> dst[x, y].Position == Point(x, y) && dst[x, y].Value() == g.Get(x, y)
    {
      for y := 0 to dst.Length1
        invariant forall x', y' :: 0 <= x' < dst.Length0 && 0 <= y' < y ==>
          dst[x', y'].Position == Point(x', y') && dst[x', y'].Value() == g.Get(x', y')
      {
        CloneRow(src, dst, y, g);
      }
    }

    /** The inner loop of `Clone`: row y of `dst` receives clones of row y of `src`. */
    static method CloneRow(src: array2<CellInfo>, dst: array2<CellInfo>, y: nat, ghost g: Grid<CellValue>)
      requires src != dst && src.Length0 == dst.Length0 && src.Length1 == dst.Length1 && y < dst.Length1
      requires g.Valid() && g.cols == src.Length0 && g.rows == src.Length1
      requires forall x, y :: g.InBounds(x, y) ==> src[x, y].Position == Point(x, y) && src[x, y].Value() == g.Get(x, y)
      modifies dst
      ensures forall x', y' :: 0 <= x' < dst.Length0 && 0 <= y' < dst.Length1 ==>
        if y' == y then dst[x', y'].Position == Point(x', y') && dst[x', y'].Value() == g.Get(x', y')
        else dst[x', y'] == old(dst[x', y'])
    {
      for x := 0 to dst.Length0
        invariant forall x', y' :: 0 <= x' < dst.Length0 && 0 <= y' < dst.Length1 ==>
          if y' == y && x' < x then dst[x', y'].Position == Point(x', y') && dst[x', y'].Value() == g.Get(x', y')
          else dst[x', y'] == old(dst[x', y'])
      {
        dst[x, y] := src[x, y].Clone();
      }
    }

    /**
     * `SetAllCells(value)`, the four overloads: the payload `value` names becomes its value in
     * every cell; the other payloads, the positions and the layout stay.
     */
    method SetAllCells(value: Payload)
      requires Valid()
      modifies Objects()
      ensures Valid() && Model() == MapGrid(old(Model()), (v: CellValue) => WithPayload(v, value))
    {
      ghost var g := Model();
      forall c | c in Cells
        ensures c in Objects()
      {
        CellsOfMembers(CellGrid(), c);
      }
      SetPayloadOfAll(Cells, value);
      ValidKept();
      forall x, y | g.InBounds(x, y)
        ensures Model().Get(x, y) == WithPayload(g.Get(x, y), value)
      {
        CellsOfMembers(CellGrid(), puzzleInput[x, y]);
      }
      GridExt(Model(), MapGrid(g, (v: CellValue) => WithPayload(v, value)));
    }

    /** The `foreach (CellInfo cell in Cells)` loop of `SetAllCells`. */
    static method SetPayloadOfAll(cells: seq<CellInfo>, value: Payload)
      modifies set c | c in cells
      ensures forall c :: c in cells ==> c.Value() == WithPayload(old(c.Value()), value)
    {
      for i := 0 to |cells|
        invariant forall c :: c in cells ==> c.Value() == if c in cells[..i] then WithPayload(old(c.Value()), value) else old(c.Value())
      {
        WithPayloadIdempotent(old(cells[i].Value()), value, value);
        cells[i].SetPayload(value);
        assert cells[..i + 1] == cells[..i] + [cells[i]];
      }
      assert cells[..|cells|] == cells;
    }

    /**
     * `Cell(x, y)`: the cell at (x, y), or a fresh invalid sentinel at (int.MinValue, int.MinValue)
     * with empty text when (x, y) is off the grid.
     */
    method Cell(x: int, y: int) returns (c: CellInfo)
      requires Valid()
      ensures 0 <= x < ColCount && 0 <= y < RowCount ==> c == puzzleInput[x, y] && c.IsValid()
      ensures !(0 <= x < ColCount && 0 <= y < RowCount) ==> fresh(c) && !c.IsValid() && c.Value() == EmptyValue
    {
      if x < 0 || x >= ColCount || y < 0 || y >= RowCount {
        c := NewSentinel();
        return;
      }
      c := puzzleInput[x, y];
    }

    /** `CellStr(x, y, valueIfNull)`: the text of the cell at (x, y), or `valueIfNull` off the grid. */
    function CellStr(x: int, y: int, valueIfNull: string): (r: string)
      requires Valid()
      reads this, puzzleInput, Objects()
      ensures Model().InBounds(x, y) ==> r == Model().Get(x, y).str
      ensures !Model().InBounds(x, y) ==> r == valueIfNull
    {
      if x < 0 || x >= ColCount || y < 0 || y >= RowCount then valueIfNull
      else
        assert puzzleInput[x, y] in Objects();
        puzzleInput[x, y].StringVal
    }

    /**
     * `SetCells(refMatrix, startPosition)`: each cell of `refMatrix` is copied (`Set`) onto the
     * cell at its position plus `startPosition`; copies that land off the grid go to a throw-away
     * sentinel. The two matrices must not share cells.
     */
    method SetCells(refMatrix: QuickMatrix, startPosition: Point)
      requires Valid() && refMatrix.Valid() && refMatrix.Objects() !! Objects()
      modifies Objects()
      ensures Valid() && Model() == Overlay(old(Model()), startPosition, old(refMatrix.Model()))
    {
      ghost var g := Model();
      ghost var h := refMatrix.Model();
      var cells := refMatrix.Cells;
      SourceCells(refMatrix);
      assert forall k :: 0 <= k < |cells| ==> cells[k] !in Objects();
      ghost var done := SpliceCells(cells, startPosition, h);
      forall x, y | h.InBounds(x, y)
        ensures Point(x, y) in done
      {
        var k :| 0 <= k < |cells| && cells[k].Position == Point(x, y);
      }
      PartlyOverlaidDone(g, startPosition, h, done, Model());
    }

    /** The `ForEach` loop of `SetCells`: each listed cell overwrites the cell at its position plus `start`. */
    method SpliceCells(cells: seq<CellInfo>, start: Point, ghost h: Grid<CellValue>) returns (ghost done: set<Point>)
      requires Valid() && h.Valid()
      requires forall k :: 0 <= k < |cells| ==> cells[k] !in Objects()
      requires forall k :: 0 <= k < |cells| ==> h.InBounds(cells[k].Position.x, cells[k].Position.y)
      requires forall k :: 0 <= k < |cells| ==> cells[k].Value() == h.Get(cells[k].Position.x, cells[k].Position.y)
      modifies Objects()
      ensures Valid() && PartlyOverlaid(old(Model()), start, h, done, Model())
      ensures forall k :: 0 <= k < |cells| ==> cells[k].Position in done
    {
      ghost var g := Model();
      done := {};
      for i := 0 to |cells|
        invariant forall k :: 0 <= k < |cells| ==> cells[k].Value() == h.Get(cells[k].Position.x, cells[k].Position.y)
        invariant Valid() && PartlyOverlaid(g, start, h, done, Model())
        invariant forall k :: 0 <= k < i ==> cells[k].Position in done
      {
        SpliceOne(cells[i], start, g, h, done);
        DoneStep(cells, i, done);
        done := done + {cells[i].Position};
      }
    }

    /** One pass of the `ForEach` loop of `SetCells`. */
    method SpliceOne(c: CellInfo, start: Point, ghost g: Grid<CellValue>, ghost h: Grid<CellValue>, ghost done: set<Point>)
      requires Valid() && PartlyOverlaid(g, start, h, done, Model())
      requires h.InBounds(c.Position.x, c.Position.y) && c.Value() == h.Get(c.Position.x, c.Position.y)
      modifies Objects()
      ensures Valid() && PartlyOverlaid(g, start, h, done + {c.Position}, Model())
    {
      var q := c.Position;
      PartlyOverlaidStep(g, start, h, done, Model(), q);
      Overwrite(q.x + start.x, q.y + start.y, c);
    }

    static lemma DoneStep(cells: seq<CellInfo>, i: nat, done: set<Point>)
      requires i < |cells| && forall k :: 0 <= k < i ==> cells[k].Position in done
      ensures forall k :: 0 <= k < i + 1 ==> cells[k].Position in done + {cells[i].Position}
    {
    }

    /** What the `Cells` list of a valid matrix holds: each cell once per position, each cell owned. */
    static lemma SourceCells(m: QuickMatrix)
      requires m.Valid()
      ensures forall k :: 0 <= k < |m.Cells| ==> m.Cells[k] in m.Objects()
      ensures forall k :: 0 <= k < |m.Cells| ==> m.Model().InBounds(m.Cells[k].Position.x, m.Cells[k].Position.y)
      ensures forall k :: 0 <= k < |m.Cells| ==> m.Cells[k].Value() == m.Model().Get(m.Cells[k].Position.x, m.Cells[k].Position.y)
      ensures forall x, y :: m.Model().InBounds(x, y) ==> HasCellAt(m.Cells, x, y)
    {
      var hc := m.CellGrid();
      forall k | 0 <= k < |m.Cells|
        ensures m.Cells[k] in m.Objects() && m.Model().InBounds(m.Cells[k].Position.x, m.Cells[k].Position.y)
        ensures m.Cells[k].Value() == m.Model().Get(m.Cells[k].Position.x, m.Cells[k].Position.y)
      {
        CellsOfMembers(hc, m.Cells[k]);
      }
      forall x, y | m.Model().InBounds(x, y)
        ensures HasCellAt(m.Cells, x, y)
      {
        CellsOfMembers(hc, hc.Get(x, y));
        var k :| 0 <= k < |m.Cells| && m.Cells[k] == hc.Get(x, y);
      }
    }

    /** One step of `SetCells`: `Cell(x, y).Set(source)`, which changes nothing when (x, y) is off the grid. */
    method Overwrite(x: int, y: int, source: CellInfo)
      requires Valid()
      modifies Objects()
      ensures Valid() && Model() == Put(old(Model()), x, y, old(source.Value()))
    {
      ghost var g := Model();
      ghost var v := source.Value();
      if 0 <= x < ColCount && 0 <= y < RowCount {
        CellsDistinct();
        var target := puzzleInput[x, y];
        target.Set(source);
        forall x', y' | g.InBounds(x', y')
          ensures Model().Get(x', y') == Put(g, x, y, v).Get(x', y')
        {
          if (x', y') != (x, y) {
            assert puzzleInput[x', y'] != target;
          }
        }
        GridExt(Model(), Put(g, x, y, v));
      } else {
        var sentinel := Cell(x, y);
        sentinel.Set(source);
        GridExt(Model(), g);
      }
      ValidKept();
    }

    /** `GetDebugPrintString()`: one line per row, the concatenated texts of its cells from left to right. */
    method GetDebugPrintString() returns (result: seq<string>)
      requires Valid()
      ensures result == RowTexts(Model())
    {
      RowViewValues();
      result := RowLines(Rows, Model());
    }

    /** Cell k of row view y holds the payloads of cell (k, y). */
    lemma RowViewValues()
      requires Valid()
      ensures |Rows| == Model().rows && forall y :: 0 <= y < |Rows| ==> |Rows[y]| == Model().cols
      ensures forall y, k :: 0 <= y < |Rows| && 0 <= k < |Rows[y]| ==> Rows[y][k].Value() == Model().at[y][k]
    {
    }

    /** The `foreach (List<CellInfo> row in Rows)` loop of `GetDebugPrintString`. */
    static method RowLines(rows: seq<seq<CellInfo>>, ghost g: Grid<CellValue>) returns (result: seq<string>)
      requires g.Valid() && |rows| == g.rows && forall y :: 0 <= y < |rows| ==> |rows[y]| == g.cols
      requires forall y, k :: 0 <= y < |rows| && 0 <= k < |rows[y]| ==> rows[y][k].Value() == g.at[y][k]
      ensures result == RowTexts(g)
    {
      result := [];
      for y := 0 to |rows|
        invariant result == RowTexts(g)[..y]
      {
        var line := RowString(rows[y], g.at[y]);
        assert RowTexts(g)[..y + 1] == RowTexts(g)[..y] + [line];
        result := result + [line];
      }
    }

    /** The `Aggregate` of one row in `GetDebugPrintString`: the cells' texts, left to right. */
    static method RowString(row: seq<CellInfo>, ghost vals: seq<CellValue>) returns (acc: string)
      requires |row| == |vals| && forall k :: 0 <= k < |row| ==> row[k].Value() == vals[k]
      ensures acc == RowText(vals)
    {
      acc := "";
      for k := 0 to |row|
        invariant acc == RowText(vals[..k])
      {
        assert vals[..k + 1][..k] == vals[..k];
        acc := acc + row[k].StringVal;
      }
      assert vals[..|row|] == vals;
    }

    /** `ToString()`: the row lines of `GetDebugPrintString` joined with backslashes. */
    function ToString(): (s: string)
      requires Valid()
      reads this, puzzleInput, Objects()
      ensures s == Text.Join(RowTexts(Model()), '\\')
    {
      RowStringsOfRows();
      Text.Join(RowStrings(Rows, Objects()), '\\')
    }

    /** The row views read through `RowStrings` give the model's row texts. */
    lemma RowStringsOfRows()
      requires Valid()
      ensures forall y, k :: 0 <= y < |Rows| && 0 <= k < |Rows[y]| ==> Rows[y][k] in Objects()
      ensures RowStrings(Rows, Objects()) == RowTexts(Model())
    {
      var g := Model();
      forall y | 0 <= y < RowCount
        ensures CellsText(Rows[y]) == RowText(g.at[y])
      {
        CellsTextIsRowText(Rows[y], g.at[y]);
      }
      RowStringsAre(Rows, Objects(), RowTexts(g));
    }

    /**
     * `CellsAtManhattanDistance(refPosition, manhattanDistance)`: the cells, in `Cells` order,
     * whose position is at exactly that Manhattan distance from `refPosition`.
     */
    function CellsAtManhattanDistance(refPosition: Point, manhattanDistance: int): (r: seq<CellInfo>)
      reads this
      ensures |r| <= |Cells|
      ensures forall k :: 0 <= k < |r| ==> r[k] in Cells && ManhattanDistance(r[k].Position, refPosition) == manhattanDistance
      ensures forall k :: 0 <= k < |Cells| && ManhattanDistance(Cells[k].Position, refPosition) == manhattanDistance ==> Cells[k] in r
    {
      AtDistance(Cells, refPosition, manhattanDistance)
    }

    /** On a valid matrix, the cells at distance d are exactly the grid's cells on the diamond of radius d. */
    lemma CellsAtManhattanDistanceExact(refPosition: Point, d: int)
      requires Valid()
      ensures forall x, y :: 0 <= x < ColCount && 0 <= y < RowCount ==>
        (puzzleInput[x, y] in CellsAtManhattanDistance(refPosition, d) <==> ManhattanDistance(Point(x, y), refPosition) == d)
      ensures forall c :: c in CellsAtManhattanDistance(refPosition, d) ==>
        0 <= c.Position.x < ColCount && 0 <= c.Position.y < RowCount && c == puzzleInput[c.Position.x, c.Position.y]
    {
      var g := CellGrid();
      forall x, y | 0 <= x < ColCount && 0 <= y < RowCount
        ensures puzzleInput[x, y] in Cells
      {
        CellsOfMembers(g, puzzleInput[x, y]);
      }
      forall c | c in Cells
        ensures 0 <= c.Position.x < ColCount && 0 <= c.Position.y < RowCount && c == puzzleInput[c.Position.x, c.Position.y]
      {
        CellsOfMembers(g, c);
      }
    }

    /**
     * `GetCellsInRange(startPos, endPos)`: the cells of the rectangle column by column, each
     * column from top to bottom. The source indexes `Cols` and calls `GetRange`, which throw
     * unless the columns exist and the row range is inside the matrix (an empty row range and
     * an empty column range are accepted).
     */
    method GetCellsInRange(startPos: Point, endPos: Point) returns (result: seq<CellInfo>)
      requires Valid()
      requires startPos.x > endPos.x ||
        (0 <= startPos.x && endPos.x < ColCount && 0 <= startPos.y <= endPos.y + 1 && endPos.y < RowCount)
      ensures result == ColumnMajor(CellGrid(), startPos, endPos)
      ensures |result| == if startPos.x > endPos.x then 0 else (endPos.x - startPos.x + 1) * (endPos.y - startPos.y + 1)
      ensures forall x, y :: startPos.x <= x <= endPos.x && startPos.y <= y <= endPos.y ==> puzzleInput[x, y] in result
      ensures forall c :: c in result ==>
        startPos.x <= c.Position.x <= endPos.x && startPos.y <= c.Position.y <= endPos.y && c == puzzleInput[c.Position.x, c.Position.y]
    {
      ghost var g := CellGrid();
      result := [];
      var x := startPos.x;
      while x <= endPos.x
        invariant startPos.x <= x <= endPos.x + 1 || (startPos.x > endPos.x && x == startPos.x)
        invariant result == ColumnMajor(g, startPos, Point(x - 1, endPos.y))
      {
        result := result + Cols[x][startPos.y..endPos.y + 1];
        x := x + 1;
      }
      RangeMembers(startPos, endPos);
    }

    /** What the rectangle's cells are: the ones inside it, each at its own position. */
    lemma RangeMembers(s: Point, e: Point)
      requires Valid()
      requires s.x > e.x || (0 <= s.x && e.x < ColCount && 0 <= s.y <= e.y + 1 && e.y < RowCount)
      ensures |ColumnMajor(CellGrid(), s, e)| == if s.x > e.x then 0 else (e.x - s.x + 1) * (e.y - s.y + 1)
      ensures forall x, y :: s.x <= x <= e.x && s.y <= y <= e.y ==> puzzleInput[x, y] in ColumnMajor(CellGrid(), s, e)
      ensures forall c :: c in ColumnMajor(CellGrid(), s, e) ==>
        s.x <= c.Position.x <= e.x && s.y <= c.Position.y <= e.y && c == puzzleInput[c.Position.x, c.Position.y]
    {
      var g := CellGrid();
      ColumnMajorLength(g, s, e);
      forall x, y | s.x <= x <= e.x && s.y <= y <= e.y
        ensures puzzleInput[x, y] in ColumnMajor(g, s, e)
      {
        ColumnMajorHas(g, s, e, x, y);
      }
      forall c | c in ColumnMajor(g, s, e)
        ensures s.x <= c.Position.x <= e.x && s.y <= c.Position.y <= e.y && c == puzzleInput[c.Position.x, c.Position.y]
      {
        var x, y := ColumnMajorFrom(g, s, e, c);
      }
    }

    /**
     * `GetSubMatrix(startPos, endPos)`: a new matrix of fresh copies of the rectangle's cells,
     * each re-positioned so that `startPos` becomes (0, 0), built by the list constructor.
     * The source needs a non-empty rectangle on the grid (an empty list has no maximum).
     */
    method GetSubMatrix(startPos: Point, endPos: Point) returns (sub: QuickMatrix)
      requires Valid() && RectInside(Model(), startPos, endPos)
      ensures fresh(sub) && sub.Valid() && sub.Model() == SubGrid(old(Model()), startPos, endPos)
    {
      ghost var want := SubGrid(Model(), startPos, endPos);
      var range := RectangleCells(startPos, endPos);
      var copies := SubMatrixCells(range, startPos, endPos, want);
      sub := ListMatrix(copies, want);
    }

    /** `GetCellsInRange(startPos, endPos)` for a rectangle inside the matrix. */
    method RectangleCells(startPos: Point, endPos: Point) returns (range: seq<CellInfo>)
      requires Valid() && RectInside(Model(), startPos, endPos)
      ensures RangeFits(range, startPos, endPos, SubGrid(Model(), startPos, endPos))
    {
      range := GetCellsInRange(startPos, endPos);
      RangeCells(startPos, endPos, range, SubGrid(Model(), startPos, endPos));
    }

    /** `new QuickMatrix(copies)` for cells that cover `want` and hold its values. */
    static method ListMatrix(copies: seq<CellInfo>, ghost want: Grid<CellValue>) returns (sub: QuickMatrix)
      requires CopiesFit(copies, want)
      ensures fresh(sub) && sub.Valid() && sub.Model() == want
    {
      ListGridIs(copies, want);
      sub := new QuickMatrix.FromCells(copies);
    }

    /** Cells that cover the box of `want` and hold its values: what the list constructor rebuilds `want` from. */
    static ghost predicate CopiesFit(copies: seq<CellInfo>, want: Grid<CellValue>)
      reads copies
    {
      && CoversBox(copies) && want.Valid() && want.cols == MaxX(copies) + 1 && want.rows == MaxY(copies) + 1
      && forall k :: 0 <= k < |copies| && want.InBounds(copies[k].Position.x, copies[k].Position.y) ==>
        copies[k].Value() == want.Get(copies[k].Position.x, copies[k].Position.y)
    }

    /**
     * The cells of the rectangle from `s` to `e`: each lies inside it and holds the value `want`
     * shows at its position shifted by -`s`, and every position of the rectangle has one.
     */
    static ghost predicate RangeFits(range: seq<CellInfo>, s: Point, e: Point, want: Grid<CellValue>)
      reads range
    {
      && s.x <= e.x && s.y <= e.y && want.Valid() && want.cols == e.x - s.x + 1 && want.rows == e.y - s.y + 1
      && (forall k :: 0 <= k < |range| ==> s.x <= range[k].Position.x <= e.x && s.y <= range[k].Position.y <= e.y)
      && (forall k :: 0 <= k < |range| ==>
        range[k].Value() == want.Get(range[k].Position.x - s.x, range[k].Position.y - s.y))
      && forall x, y :: s.x <= x <= e.x && s.y <= y <= e.y ==> HasCellAt(range, x, y)
    }

    /** The list `GetSubMatrix` hands to the list constructor: the rectangle's cells, copied and shifted by -`s`. */
    static method SubMatrixCells(range: seq<CellInfo>, s: Point, e: Point, ghost want: Grid<CellValue>)
      returns (copies: seq<CellInfo>)
      requires RangeFits(range, s, e, want)
      ensures CopiesFit(copies, want) && MaxX(copies) == e.x - s.x && MaxY(copies) == e.y - s.y
    {
      copies := ShiftedCopies(range, s);
      ShiftedCover(range, copies, s, e);
      ShiftedValues(range, copies, s, want);
    }

    /** The rectangle's cells cover it, and each holds the value the sub-grid shows at its shifted position. */
    lemma RangeCells(s: Point, e: Point, range: seq<CellInfo>, want: Grid<CellValue>)
      requires Valid() && RectInside(Model(), s, e) && want == SubGrid(Model(), s, e)
      requires range == ColumnMajor(CellGrid(), s, e)
      ensures RangeFits(range, s, e, want)
    {
      RangeValues(s, e, range, want);
      RangeCover(s, e, range);
    }

    /** Each cell of the rectangle lies inside it and holds the sub-grid's value at its shifted position. */
    lemma RangeValues(s: Point, e: Point, range: seq<CellInfo>, want: Grid<CellValue>)
      requires Valid() && RectInside(Model(), s, e) && want == SubGrid(Model(), s, e)
      requires range == ColumnMajor(CellGrid(), s, e)
      ensures forall k :: 0 <= k < |range| ==> s.x <= range[k].Position.x <= e.x && s.y <= range[k].Position.y <= e.y
      ensures forall k :: 0 <= k < |range| ==>
        range[k].Value() == want.Get(range[k].Position.x - s.x, range[k].Position.y - s.y)
    {
      RangeMembers(s, e);
      forall k | 0 <= k < |range|
        ensures s.x <= range[k].Position.x <= e.x && s.y <= range[k].Position.y <= e.y
        ensures range[k].Value() == want.Get(range[k].Position.x - s.x, range[k].Position.y - s.y)
      {
        assert range[k] in range;
      }
    }

    /** Every position of the rectangle has its cell among the rectangle's cells. */
    lemma RangeCover(s: Point, e: Point, range: seq<CellInfo>)
      requires Valid() && s.x <= e.x && 0 <= s.x && e.x < ColCount && 0 <= s.y <= e.y && e.y < RowCount
      requires range == ColumnMajor(CellGrid(), s, e)
      ensures forall x, y :: s.x <= x <= e.x && s.y <= y <= e.y ==> HasCellAt(range, x, y)
    {
      RangeMembers(s, e);
      forall x, y | s.x <= x <= e.x && s.y <= y <= e.y
        ensures HasCellAt(range, x, y)
      {
        var k :| 0 <= k < |range| && range[k] == puzzleInput[x, y];
      }
    }

    /** The loop of `GetSubMatrix`: `new CellInfo(cell.Position.Subtract(startPos), cell)` for every cell. */
    static method ShiftedCopies(cells: seq<CellInfo>, start: Point) returns (copies: seq<CellInfo>)
      ensures |copies| == |cells|
      ensures forall k :: 0 <= k < |cells| ==>
        fresh(copies[k]) && copies[k].Position == Subtract(cells[k].Position, start) && copies[k].Value() == cells[k].Value()
    {
      copies := [];
      for i := 0 to |cells|
        invariant |copies| == i
        invariant forall k :: 0 <= k < i ==>
          fresh(copies[k]) && copies[k].Position == Subtract(cells[k].Position, start) && copies[k].Value() == cells[k].Value()
      {
        var c := new CellInfo.Copy(Subtract(cells[i].Position, start), cells[i]);
        copies := copies + [c];
      }
    }

    /**
     * `SetSubMatrix(point, newData)`: every cell of `newData` is replaced, at its position plus
     * `point`, by a fresh copy; then the views are rebuilt. The source indexes the array
     * unchecked, so a non-empty `newData` must fit inside the matrix at `point`.
     */
    method SetSubMatrix(point: Point, newData: QuickMatrix)
      requires Valid() && newData.Valid()
      requires newData.ColCount == 0 || newData.RowCount == 0 || Fits(Model(), point, newData.Model())
      modifies this`Rows, this`Cols, this`Cells, puzzleInput
      ensures Valid() && puzzleInput == old(puzzleInput)
      ensures Model() == Overlay(old(Model()), point, old(newData.Model()))
    {
      ghost var g, h := Model(), newData.Model();
      var cells := newData.Cells;
      SourceCells(newData);
      assert ArrayHolds(puzzleInput, g);
      ghost var cur, done := PlaceCopies(puzzleInput, cells, point, g, h);
      DoneCovers(cells, h, done);
      PartlyOverlaidDone(g, point, h, done, cur);
      InstallHeld(cur);
    }

    /** `ComputeOtherProperties` after the array's cells were replaced by cells holding `vals`. */
    method InstallHeld(ghost vals: Grid<CellValue>)
      requires puzzleInput.Length0 == ColCount && puzzleInput.Length1 == RowCount && ArrayHolds(puzzleInput, vals)
      modifies this`Rows, this`Cols, this`Cells
      ensures Valid() && Model() == vals
    {
      ComputeOtherProperties();
      GridExt(Model(), vals);
    }

    /** The loop of `SetSubMatrix` over the array `a`, whose payloads `g` lists. */
    static method PlaceCopies(a: array2<CellInfo>, cells: seq<CellInfo>, point: Point, ghost g: Grid<CellValue>,
                              ghost h: Grid<CellValue>) returns (ghost cur: Grid<CellValue>, ghost done: set<Point>)
      requires ArrayHolds(a, g)
      requires h.Valid() && (h.cols == 0 || h.rows == 0 || Fits(g, point, h))
      requires forall k :: 0 <= k < |cells| ==> h.InBounds(cells[k].Position.x, cells[k].Position.y)
      requires forall k :: 0 <= k < |cells| ==> cells[k].Value() == h.Get(cells[k].Position.x, cells[k].Position.y)
      modifies a
      ensures PartlyOverlaid(g, point, h, done, cur) && ArrayHolds(a, cur)
      ensures forall k :: 0 <= k < |cells| ==> cells[k].Position in done
    {
      cur, done := g, {};
      for i := 0 to |cells|
        invariant PartlyOverlaid(g, point, h, done, cur) && ArrayHolds(a, cur)
        invariant forall k :: 0 <= k < i ==> cells[k].Position in done
      {
        cur := PlaceOne(a, cells[i], point, g, h, done, cur);
        DoneStep(cells, i, done);
        done := done + {cells[i].Position};
      }
    }

    /** One pass of the loop of `SetSubMatrix`: `_puzzleInput[targetPos.X, targetPos.Y] = new CellInfo(targetPos, cell)`. */
    static method PlaceOne(a: array2<CellInfo>, c: CellInfo, point: Point, ghost g: Grid<CellValue>, ghost h: Grid<CellValue>,
                           ghost done: set<Point>, ghost cur: Grid<CellValue>) returns (ghost next: Grid<CellValue>)
      requires PartlyOverlaid(g, point, h, done, cur) && ArrayHolds(a, cur) && Fits(g, point, h)
      requires h.InBounds(c.Position.x, c.Position.y) && c.Value() == h.Get(c.Position.x, c.Position.y)
      modifies a
      ensures PartlyOverlaid(g, point, h, done + {c.Position}, next) && ArrayHolds(a, next)
    {
      var q := c.Position;
      var t := Add(point, q);
      PartlyOverlaidStep(g, point, h, done, cur, q);
      next := Put(cur, q.x + point.x, q.y + point.y, h.Get(q.x, q.y));
      a[t.x, t.y] := new CellInfo.Copy(t, c);
    }

    /**
     * `GetNeighbours(position, touchingMode)`: the cells at `position` plus each offset of the
     * mode, in the mode's offset order, skipping offsets that leave the grid. The source asks
     * `Cell(next).IsValid`, which holds exactly for on-grid positions; the test is written out
     * here so that no sentinel cell is allocated.
     */
    method GetNeighbours(position: Point, touchingMode: TouchingMode) returns (result: seq<CellInfo>)
      requires Valid()
      ensures result == ValuesAt(CellGrid(), NeighbourPositions(CellGrid(), position, touchingMode))
    {
      result := NeighboursIn(puzzleInput, position, touchingMode, CellGrid());
    }

    /** The loop of `GetNeighbours` over the cell array `a`, whose cells `g` lists. */
    static method NeighboursIn(a: array2<CellInfo>, position: Point, touchingMode: TouchingMode, ghost g: Grid<CellInfo>)
      returns (result: seq<CellInfo>)
      requires g.Valid() && g.cols == a.Length0 && g.rows == a.Length1
      requires forall x, y :: g.InBounds(x, y) ==> g.Get(x, y) == a[x, y]
      ensures result == ValuesAt(g, NeighbourPositions(g, position, touchingMode))
    {
      var ds := Directions(touchingMode);
      result := [];
      for i := 0 to |ds|
        invariant result == ValuesAt(g, FilterInBounds(g, position, ds[..i]))
      {
        var next := Add(position, ds[i]);
        ghost var before := FilterInBounds(g, position, ds[..i]);
        FilterInBoundsPrefix(g, position, ds, i);
        if 0 <= next.x < a.Length0 && 0 <= next.y < a.Length1 {
          ValuesAtSnoc(g, before, next);
          result := result + [a[next.x, next.y]];
        }
      }
      assert ds[..|ds|] == ds;
    }

    /** `GetNeighbours(cell, touchingMode)`: the neighbours of the cell's position. */
    method GetNeighboursOfCell(cell: CellInfo, touchingMode: TouchingMode) returns (result: seq<CellInfo>)
      requires Valid()
      ensures result == ValuesAt(CellGrid(), NeighbourPositions(CellGrid(), cell.Position, touchingMode))
    {
      result := GetNeighbours(cell.Position, touchingMode);
    }

    /** The positions the touching search has marked in `touchingSearch`. */
    ghost function Visited(): set<Point>
      reads this`touchingSearch, touchingSearch
    {
      Marked(touchingSearch)
    }

    /** The visit marks cover the matrix. */
    ghost predicate SearchReady()
      reads this`touchingSearch, this`ColCount, this`RowCount
    {
      touchingSearch.Length0 == ColCount && touchingSearch.Length1 == RowCount
    }

    /**
     * `GetTouchingCellsWithValue(position, touchingMode)`: the region of cells connected to
     * `position` through neighbours (of the mode) carrying the same text, found by a depth-first
     * search over a fresh visit array. The start cell comes first, every cell occurs once, all
     * carry the start's text, every one is reached from the start along a same-text path, and
     * the region is closed: every same-text neighbour of a region cell is in the region. So the
     * result is exactly the connected region of the start. The source indexes the visit array
     * with `position` unchecked.
     */
    method GetTouchingCellsWithValue(position: Point, touchingMode: TouchingMode) returns (result: seq<CellInfo>)
      requires Valid() && 0 <= position.x < ColCount && 0 <= position.y < RowCount
      modifies this`touchingSearch
      ensures Valid() && fresh(touchingSearch) && SearchReady()
      ensures |result| > 0 && result[0] == puzzleInput[position.x, position.y]
      ensures RegionCells(old(CellGrid()), old(Model()), result, {}, old(Model()).Get(position.x, position.y).str)
      ensures Visited() == PositionsOf(result)
      ensures TouchClosed(old(Model()), touchingMode, PositionsOf(result), PositionsOf(result))
      ensures AllReachable(old(Model()), touchingMode, position, PositionsOf(result), old(Model()).Get(position.x, position.y).str)
      ensures forall q :: q in PositionsOf(result) <==>
        Reachable(old(Model()), touchingMode, position, q, old(Model()).Get(position.x, position.y).str)
    {
      ghost var cg, g := CellGrid(), Model();
      SearchView();
      var marks;
      result, marks := SearchFrom(puzzleInput, position, touchingMode, cg, g, Objects());
      touchingSearch := marks;
    }

    /** The search from `position` over a fresh visit array, all unmarked. */
    static method SearchFrom(cells: array2<CellInfo>, position: Point, touchingMode: TouchingMode,
                             ghost cg: Grid<CellInfo>, ghost g: Grid<CellValue>, ghost objs: set<CellInfo>)
      returns (result: seq<CellInfo>, marks: array2<bool>)
      requires SearchCells(cells, cg, g, objs) && g.InBounds(position.x, position.y)
      ensures fresh(marks) && marks.Length0 == cells.Length0 && marks.Length1 == cells.Length1
      ensures |result| > 0 && result[0] == cg.Get(position.x, position.y)
      ensures RegionCells(cg, g, result, {}, g.Get(position.x, position.y).str)
      ensures Marked(marks) == PositionsOf(result)
      ensures TouchClosed(g, touchingMode, PositionsOf(result), PositionsOf(result))
      ensures AllReachable(g, touchingMode, position, PositionsOf(result), g.Get(position.x, position.y).str)
      ensures forall q :: q in PositionsOf(result) <==> Reachable(g, touchingMode, position, q, g.Get(position.x, position.y).str)
    {
      marks := new bool[cells.Length0, cells.Length1]((i, j) => false);
      assert MarksAre(marks, {});
      result := SearchTouchingCellsWithValue(cells, marks, position, touchingMode, cg, g, objs, {});
      assert {} + PositionsOf(result) == PositionsOf(result);
      MarksAreMarked(marks, PositionsOf(result));
      assert position in PositionsOf(result) by { assert result[0].Position == position; }
      RegionIsComponent(g, touchingMode, position, PositionsOf(result), g.Get(position.x, position.y).str);
    }

    /** A valid matrix and a visit array of its shape satisfy the search's view. */
    lemma SearchView()
      requires Valid()
      ensures SearchCells(puzzleInput, CellGrid(), Model(), Objects())
    {
    }

    /**
     * The recursive search over the cell array `cells` and the visit marks `visited`: marks
     * `position`, then recurses into each neighbour that is on the grid (`Cell(next).IsValid`)
     * and carries the same text.
     */
    static method SearchTouchingCellsWithValue(cells: array2<CellInfo>, visited: array2<bool>, position: Point,
                                               touchingMode: TouchingMode, ghost cg: Grid<CellInfo>, ghost g: Grid<CellValue>,
                                               ghost objs: set<CellInfo>, ghost marked: set<Point>)
      returns (result: seq<CellInfo>)
      requires SearchGrids(cells, visited, cg, g, objs) && MarksAre(visited, marked)
      requires g.InBounds(position.x, position.y)
      modifies visited
      ensures SearchGrids(cells, visited, cg, g, objs) && MarksAre(visited, marked + PositionsOf(result))
      ensures position in marked ==> result == []
      ensures position !in marked ==> |result| > 0 && result[0] == cg.Get(position.x, position.y)
      ensures RegionCells(cg, g, result, marked, g.Get(position.x, position.y).str)
      ensures TouchClosed(g, touchingMode, PositionsOf(result), marked + PositionsOf(result))
      ensures AllReachable(g, touchingMode, position, PositionsOf(result), g.Get(position.x, position.y).str)
      decreases |Box(g.cols, g.rows) - marked|, 0
    {
      if visited[position.x, position.y] {
        assert PositionsOf([]) == {};
        return [];
      }
      visited[position.x, position.y] := true;
      var first := cells[position.x, position.y];
      result := [first];
      assert PositionsOf(result) == {position} by { assert result[0].Position == position; }
      var targetValue := first.StringVal;
      ReachSelf(g, touchingMode, position, targetValue);
      var ds := Directions(touchingMode);
      assert result[1..] == [];
      for i := 0 to |ds|
        invariant SearchGrids(cells, visited, cg, g, objs)
        invariant |result| > 0 && result[0] == first
        invariant MarksAre(visited, marked + PositionsOf(result))
        invariant RegionCells(cg, g, result, marked, targetValue)
        invariant TouchClosed(g, touchingMode, PositionsOf(result[1..]), marked + PositionsOf(result))
        invariant TriedOffsets(g, position, ds, i, targetValue, marked + PositionsOf(result))
        invariant AllReachable(g, touchingMode, position, PositionsOf(result), targetValue)
      {
        ghost var before := result;
        ghost var v1 := marked + PositionsOf(result);
        BoxMinusShrinks(g.cols, g.rows, marked, v1, position);
        var sub := SearchNeighbour(cells, visited, Add(position, ds[i]), targetValue, touchingMode, cg, g, objs, v1);
        result := result + sub;
        SearchStep(cg, g, touchingMode, marked, before, v1, sub, v1 + PositionsOf(sub));
        TriedOffsetsStep(g, position, ds, i, targetValue, v1, marked + PositionsOf(result));
        PositionsOfAppend(before, sub);
        ReachExtend(g, touchingMode, position, ds[i], Add(position, ds[i]), PositionsOf(before), PositionsOf(sub), targetValue);
      }
      TouchClosedAdd(g, touchingMode, result, marked + PositionsOf(result), position, ds);
    }

    /**
     * One step of the search's loop: when `next` is on the grid (`Cell(next).IsValid`) and its
     * cell carries `targetValue`, the cells the search finds from there; nothing otherwise.
     */
    static method SearchNeighbour(cells: array2<CellInfo>, visited: array2<bool>, next: Point, targetValue: string,
                                  touchingMode: TouchingMode, ghost cg: Grid<CellInfo>, ghost g: Grid<CellValue>,
                                  ghost objs: set<CellInfo>, ghost marked: set<Point>)
      returns (sub: seq<CellInfo>)
      requires SearchGrids(cells, visited, cg, g, objs) && MarksAre(visited, marked)
      modifies visited
      ensures SearchGrids(cells, visited, cg, g, objs) && MarksAre(visited, marked + PositionsOf(sub))
      ensures OffsetTried(g, next, targetValue, marked + PositionsOf(sub))
      ensures RegionCells(cg, g, sub, marked, targetValue)
      ensures TouchClosed(g, touchingMode, PositionsOf(sub), marked + PositionsOf(sub))
      ensures AllReachable(g, touchingMode, next, PositionsOf(sub), targetValue)
      decreases |Box(g.cols, g.rows) - marked|, 1
    {
      if 0 <= next.x < cells.Length0 && 0 <= next.y < cells.Length1 && cells[next.x, next.y].StringVal == targetValue {
        sub := SearchTouchingCellsWithValue(cells, visited, next, touchingMode, cg, g, objs, marked);
        assert sub != [] ==> sub[0].Position == next;
      } else {
        sub := [];
        assert PositionsOf(sub) == {};
      }
    }

    // -------------------------------------------------------------------------
    // The six transforms.
    // -------------------------------------------------------------------------

    /**
     * The loop all six transforms share: a fresh array of the new dimensions is filled with
     * fresh cells, each a copy (all four payloads) of the old cell it comes from, and then
     * replaces the old array. The source loops over the old positions (x, y) and writes
     * `Target(t, ...)`; this loops over the new positions and reads `Source(t, ...)`.
     * `TargetBijection` makes the two the same set of writes.
     */
    method Relocate(t: Transform)
      requires Valid()
      modifies this
      ensures Valid() && fresh(puzzleInput) && touchingSearch == old(touchingSearch)
      ensures Model() == Apply(t, old(Model()))
    {
      ghost var g0 := Model();
      var rotated := TransformedArray(puzzleInput, t, g0);
      ghost var r := Apply(t, g0);
      Install(rotated, r);
    }

    /** A fresh array holding fresh copies of the cells of `src`, laid out as `t` moves them. */
    static method TransformedArray(src: array2<CellInfo>, t: Transform, ghost g0: Grid<CellValue>) returns (rotated: array2<CellInfo>)
      requires g0.Valid() && g0.cols == src.Length0 && g0.rows == src.Length1
      requires forall x, y :: g0.InBounds(x, y) ==> src[x, y].Value() == g0.Get(x, y)
      ensures fresh(rotated)
      ensures rotated.Length0 == Apply(t, g0).cols && rotated.Length1 == Apply(t, g0).rows
      ensures forall x, y :: Apply(t, g0).InBounds(x, y) ==>
        rotated[x, y].Position == Point(x, y) && rotated[x, y].Value() == Apply(t, g0).Get(x, y)
    {
      var width, height := src.Length0, src.Length1;
      var nw, nh := TransformedCols(t, width, height), TransformedRows(t, width, height);
      ghost var r := Apply(t, g0);
      ApplyAtSource(t, g0);
      assert r.cols == nw && r.rows == nh;
      rotated := RelocatedArray(src, nw, nh, (x, y) => Source(t, width, height, x, y), g0);
    }

    /** A fresh `nw` × `nh` array whose cell (x, y) is a fresh copy, positioned at (x, y), of `src[source(x, y)]`. */
    static method RelocatedArray(src: array2<CellInfo>, nw: nat, nh: nat, source: (int, int) -> Point,
                                 ghost g0: Grid<CellValue>) returns (rotated: array2<CellInfo>)
      requires g0.Valid() && g0.cols == src.Length0 && g0.rows == src.Length1
      requires forall x, y :: g0.InBounds(x, y) ==> src[x, y].Value() == g0.Get(x, y)
      requires forall x, y :: 0 <= x < nw && 0 <= y < nh ==> g0.InBounds(source(x, y).x, source(x, y).y)
      ensures fresh(rotated) && rotated.Length0 == nw && rotated.Length1 == nh
      ensures forall x, y :: 0 <= x < nw && 0 <= y < nh ==>
        rotated[x, y].Position == Point(x, y) && rotated[x, y].Value() == g0.Get(source(x, y).x, source(x, y).y)
    {
      var placeholder := new CellInfo.FromString(Origin, "");
      rotated := new CellInfo[nw, nh]((i, j) => placeholder);
      for x := 0 to nw
        invariant forall x', y' :: 0 <= x' < x && 0 <= y' < nh ==>
          rotated[x', y'].Position == Point(x', y') && rotated[x', y'].Value() == g0.Get(source(x', y').x, source(x', y').y)
      {
        CopyColumn(src, rotated, x, source, g0);
      }
    }

    /** Fills column x of `rotated` with fresh copies of the cells `source` names. */
    static method CopyColumn(src: array2<CellInfo>, rotated: array2<CellInfo>, x: nat, source: (int, int) -> Point,
                             ghost g0: Grid<CellValue>)
      requires src != rotated && x < rotated.Length0
      requires g0.Valid() && g0.cols == src.Length0 && g0.rows == src.Length1
      requires forall x, y :: g0.InBounds(x, y) ==> src[x, y].Value() == g0.Get(x, y)
      requires forall x, y :: 0 <= x < rotated.Length0 && 0 <= y < rotated.Length1 ==> g0.InBounds(source(x, y).x, source(x, y).y)
      modifies rotated
      ensures forall x', y' :: 0 <= x' < rotated.Length0 && 0 <= y' < rotated.Length1 ==>
        if x' == x then rotated[x', y'].Position == Point(x', y') && rotated[x', y'].Value() == g0.Get(source(x', y').x, source(x', y').y)
        else rotated[x', y'] == old(rotated[x', y'])
    {
      for y := 0 to rotated.Length1
        invariant forall x', y' :: 0 <= x' < rotated.Length0 && 0 <= y' < rotated.Length1 ==>
          if x' == x && y' < y then rotated[x', y'].Position == Point(x', y') && rotated[x', y'].Value() == g0.Get(source(x', y').x, source(x', y').y)
          else rotated[x', y'] == old(rotated[x', y'])
      {
        var s := source(x, y);
        rotated[x, y] := new CellInfo.Copy(Point(x, y), src[s.x, s.y]);
      }
    }

    /** `RotateClockwise`: (x, y) moves to (height-1-y, x) and the dimensions swap. */
    method RotateClockwise()
      requires Valid()
      modifies this
      ensures Valid() && ColCount == old(RowCount) && RowCount == old(ColCount)
      ensures Model() == GridModel.RotateClockwise(old(Model()))
    {
      Relocate(QuarterTurnClockwise);
    }

    /** `RotateCounterClockwise`: (x, y) moves to (y, width-1-x) and the dimensions swap. */
    method RotateCounterClockwise()
      requires Valid()
      modifies this
      ensures Valid() && ColCount == old(RowCount) && RowCount == old(ColCount)
      ensures Model() == GridModel.RotateCounterClockwise(old(Model()))
    {
      Relocate(QuarterTurnCounterClockwise);
    }

    /** `Rotate180Degree`: (x, y) moves to (width-1-x, height-1-y). */
    method Rotate180Degree()
      requires Valid()
      modifies this
      ensures Valid() && ColCount == old(ColCount) && RowCount == old(RowCount)
      ensures Model() == GridModel.Rotate180Degree(old(Model()))
    {
      Relocate(HalfTurn);
    }

    /** `FlipHorizontal`: (x, y) moves to (width-1-x, y). */
    method FlipHorizontal()
      requires Valid()
      modifies this
      ensures Valid() && ColCount == old(ColCount) && RowCount == old(RowCount)
      ensures Model() == GridModel.FlipHorizontal(old(Model()))
    {
      Relocate(MirrorLeftRight);
    }

    /** `FlipVertical`: (x, y) moves to (x, height-1-y). */
    method FlipVertical()
      requires Valid()
      modifies this
      ensures Valid() && ColCount == old(ColCount) && RowCount == old(RowCount)
      ensures Model() == GridModel.FlipVertical(old(Model()))
    {
      Relocate(MirrorTopBottom);
    }

    /** `Transpose`: (x, y) moves to (y, x) and the dimensions swap. */
    method Transpose()
      requires Valid()
      modifies this
      ensures Valid() && ColCount == old(RowCount) && RowCount == old(ColCount)
      ensures Model() == GridModel.Transpose(old(Model()))
    {
      Relocate(MirrorDiagonal);
    }
  }

  /** The one-character texts of a line, or its `Split` pieces (the non-empty ones when `removeEmpty`). */
  function LineItems(line: string, separator: Option<char>, removeEmpty: bool): seq<string>
  {
    match separator
    case None => seq(|line|, i requires 0 <= i < |line| => [line[i]])
    case Some(c) => if removeEmpty then Text.RemoveEmpty(Text.Split(line, c)) else Text.Split(line, c)
  }

  /** Every line has as many items as the first one. */
  predicate Rectangular(rawData: seq<string>, separator: Option<char>, removeEmpty: bool)
  {
    forall y :: 0 <= y < |rawData| ==> |LineItems(rawData[y], separator, removeEmpty)| == |LineItems(rawData[0], separator, removeEmpty)|
  }

  /** `rawData.Max(v => …Length)`: the largest number of items of a line, 0 for no lines. */
  function MaxItems(rawData: seq<string>, separator: Option<char>, removeEmpty: bool): (r: nat)
    ensures forall y :: 0 <= y < |rawData| ==> |LineItems(rawData[y], separator, removeEmpty)| <= r
    ensures |rawData| == 0 ==> r == 0
    ensures |rawData| > 0 ==> exists y :: 0 <= y < |rawData| && r == |LineItems(rawData[y], separator, removeEmpty)|
  {
    if |rawData| == 0 then 0
    else
      var rest := MaxItems(rawData[1..], separator, removeEmpty);
      var here := |LineItems(rawData[0], separator, removeEmpty)|;
      assert forall y :: 1 <= y < |rawData| ==> rawData[y] == rawData[1..][y - 1];
      if here >= rest then here
      else
        var y :| 0 <= y < |rawData[1..]| && rest == |LineItems(rawData[1..][y], separator, removeEmpty)|;
        assert rawData[1..][y] == rawData[y + 1];
        rest
  }

  /** When every line has as many items as the first, that is the largest number. */
  lemma RectangularWidth(rawData: seq<string>, separator: Option<char>, removeEmpty: bool)
    requires |rawData| > 0 && Rectangular(rawData, separator, removeEmpty)
    ensures MaxItems(rawData, separator, removeEmpty) == |LineItems(rawData[0], separator, removeEmpty)|
  {
  }

  /**
   * The grid the line-splitting constructor builds: item x of line y as the text of cell (x, y),
   * and empty payloads past the end of a line shorter than the widest.
   */
  function LinesGrid(rawData: seq<string>, separator: Option<char>, removeEmpty: bool): (g: Grid<CellValue>)
    ensures g.Valid() && g.rows == |rawData| && g.cols == MaxItems(rawData, separator, removeEmpty)
    ensures forall x, y :: 0 <= y < |rawData| && 0 <= x < |LineItems(rawData[y], separator, removeEmpty)| ==>
      g.InBounds(x, y) && g.Get(x, y) == EmptyValue.(str := LineItems(rawData[y], separator, removeEmpty)[x])
    ensures forall x, y :: g.InBounds(x, y) && x >= |LineItems(rawData[y], separator, removeEmpty)| ==>
      g.Get(x, y) == EmptyValue
  {
    var w := MaxItems(rawData, separator, removeEmpty);
    Grid(w, |rawData|,
      seq(|rawData|, y requires 0 <= y < |rawData| =>
        seq(w, x requires 0 <= x < w =>
          var items := LineItems(rawData[y], separator, removeEmpty);
          if x < |items| then EmptyValue.(str := items[x]) else EmptyValue)))
  }

  /** The grid of the boolean constructor: cell (x, y) is true where character x of line y is `trueValue`. */
  function BoolLinesGrid(rawData: seq<string>, trueValue: string): (g: Grid<CellValue>)
    requires |rawData| > 0 && forall y :: 0 <= y < |rawData| ==> |rawData[y]| >= |rawData[0]|
    ensures g.Valid() && g.cols == |rawData[0]| && g.rows == |rawData|
    ensures forall x, y :: g.InBounds(x, y) ==> g.Get(x, y) == EmptyValue.(flag := [rawData[y][x]] == trueValue)
  {
    var w := |rawData[0]|;
    Grid(w, |rawData|,
      seq(|rawData|, y requires 0 <= y < |rawData| =>
        seq(w, x requires 0 <= x < w => EmptyValue.(flag := [rawData[y][x]] == trueValue))))
  }

  /** The grid of the filled-cells constructor: `filledValue` on the listed points, `emptyValue` elsewhere. */
  function FilledCellsGrid(col: nat, row: nat, filled: seq<Point>, filledValue: string, emptyValue: string): (g: Grid<CellValue>)
    ensures g.Valid() && g.cols == col && g.rows == row
    ensures forall x, y :: g.InBounds(x, y) ==>
      g.Get(x, y) == EmptyValue.(str := if Point(x, y) in filled then filledValue else emptyValue)
  {
    Grid(col, row,
      seq(row, y requires 0 <= y < row =>
        seq(col, x requires 0 <= x < col => EmptyValue.(str := if Point(x, y) in filled then filledValue else emptyValue))))
  }

  /** The texts of a row of cells, concatenated left to right (`Aggregate("", (acc, cell) => acc + cell.StringVal)`). */
  function RowText(row: seq<CellValue>): string
  {
    if |row| == 0 then "" else RowText(row[..|row| - 1]) + row[|row| - 1].str
  }

  /** The lines of `GetDebugPrintString`: one `RowText` per row, top to bottom. */
  function RowTexts(g: Grid<CellValue>): (r: seq<string>)
    requires g.Valid()
    ensures |r| == g.rows && forall y :: 0 <= y < g.rows ==> r[y] == RowText(g.at[y])
  {
    seq(g.rows, y requires 0 <= y < g.rows => RowText(g.at[y]))
  }

  /** Characters read one per cell print back as the line they came from. */
  lemma {:induction false} RowTextOfChars(line: string, row: seq<CellValue>)
    requires |row| == |line| && forall i :: 0 <= i < |line| ==> row[i].str == [line[i]]
    ensures RowText(row) == line
  {
    if |line| > 0 {
      RowTextOfChars(line[..|line| - 1], row[..|row| - 1]);
      assert line == line[..|line| - 1] + [line[|line| - 1]];
    }
  }

  /**
   * Printing a matrix built from lines with no separator (one character per cell) gives
   * the lines back.
   */
  lemma LinesGridPrintsBack(rawData: seq<string>)
    requires Rectangular(rawData, None, false)
    ensures RowTexts(LinesGrid(rawData, None, false)) == rawData
  {
    var g := LinesGrid(rawData, None, false);
    if |rawData| > 0 {
      RectangularWidth(rawData, None, false);
    }
    forall y | 0 <= y < |rawData| ensures RowText(g.at[y]) == rawData[y] {
      assert |LineItems(rawData[y], None, false)| == |rawData[y]|;
      forall i | 0 <= i < |rawData[y]| ensures g.at[y][i].str == [rawData[y][i]] {
        assert g.Get(i, y) == g.at[y][i];
      }
      RowTextOfChars(rawData[y], g.at[y]);
    }
  }

  /** The texts of the cells of a row, left to right. */
  function Texts(row: seq<CellValue>): (r: seq<string>)
    ensures |r| == |row| && forall i :: 0 <= i < |row| ==> r[i] == row[i].str
  {
    seq(|row|, i requires 0 <= i < |row| => row[i].str)
  }

  /**
   * A matrix built from lines split at `c` (empty pieces kept) holds the pieces of each
   * line, which joined with `c` give the line back.
   */
  lemma SplitLinesJoinBack(rawData: seq<string>, c: char)
    requires Rectangular(rawData, Some(c), false)
    ensures forall y :: 0 <= y < |rawData| ==>
      Texts(LinesGrid(rawData, Some(c), false).at[y]) == Text.Split(rawData[y], c) &&
      Text.Join(Texts(LinesGrid(rawData, Some(c), false).at[y]), c) == rawData[y]
  {
    var g := LinesGrid(rawData, Some(c), false);
    if |rawData| > 0 {
      RectangularWidth(rawData, Some(c), false);
    }
    forall y | 0 <= y < |rawData|
      ensures Texts(g.at[y]) == Text.Split(rawData[y], c) && Text.Join(Texts(g.at[y]), c) == rawData[y]
    {
      var items := Text.Split(rawData[y], c);
      assert LineItems(rawData[y], Some(c), false) == items;
      forall i | 0 <= i < |items| ensures Texts(g.at[y])[i] == items[i] {
        assert g.Get(i, y) == g.at[y][i];
      }
      Text.JoinSplit(rawData[y], c);
    }
  }

  /** The texts of a row of cells, read from the cells. */
  function CellsText(row: seq<CellInfo>): string
    reads row
  {
    if |row| == 0 then "" else CellsText(row[..|row| - 1]) + row[|row| - 1].StringVal
  }

  /** `CellsText` of every row; `objs` holds the cells read. */
  function RowStrings(rows: seq<seq<CellInfo>>, ghost objs: set<CellInfo>): (r: seq<string>)
    requires forall y, k :: 0 <= y < |rows| && 0 <= k < |rows[y]| ==> rows[y][k] in objs
    reads objs
    ensures |r| == |rows|
  {
    if |rows| == 0 then []
    else
      var last := rows[|rows| - 1];
      assert forall k :: 0 <= k < |last| ==> last[k] in objs;
      RowStrings(rows[..|rows| - 1], objs) + [CellsText(rows[|rows| - 1])]
  }

  lemma {:induction false} CellsTextIsRowText(row: seq<CellInfo>, vals: seq<CellValue>)
    requires |row| == |vals| && forall k :: 0 <= k < |row| ==> row[k].Value() == vals[k]
    ensures CellsText(row) == RowText(vals)
  {
    if |row| > 0 {
      CellsTextIsRowText(row[..|row| - 1], vals[..|vals| - 1]);
    }
  }

  lemma {:induction false} RowStringsAre(rows: seq<seq<CellInfo>>, objs: set<CellInfo>, texts: seq<string>)
    requires forall y, k :: 0 <= y < |rows| && 0 <= k < |rows[y]| ==> rows[y][k] in objs
    requires |rows| == |texts| && forall y :: 0 <= y < |rows| ==> CellsText(rows[y]) == texts[y]
    ensures RowStrings(rows, objs) == texts
  {
    if |rows| > 0 {
      RowStringsAre(rows[..|rows| - 1], objs, texts[..|texts| - 1]);
    }
  }

  /** The array `a` holds, at every index (x, y), a cell positioned at (x, y) with the payloads `vals.Get(x, y)`. */
  ghost predicate ArrayHolds(a: array2<CellInfo>, vals: Grid<CellValue>)
    reads a, set x, y | 0 <= x < a.Length0 && 0 <= y < a.Length1 :: a[x, y]
  {
    vals.Valid() && a.Length0 == vals.cols && a.Length1 == vals.rows &&
    forall x, y :: vals.InBounds(x, y) ==> a[x, y].Position == Point(x, y) && a[x, y].Value() == vals.Get(x, y)
  }

  /**
   * `a` spans the bounding box of the listed cells, which cover it, and every index (x, y)
   * holds the last listed cell positioned there.
   */
  ghost predicate PlacedList(a: array2<CellInfo>, data: seq<CellInfo>)
    reads a
  {
    CoversBox(data) && a.Length0 == MaxX(data) + 1 && a.Length1 == MaxY(data) + 1 &&
    forall x, y :: 0 <= x < a.Length0 && 0 <= y < a.Length1 ==>
      LastIndex(data, Point(x, y)) >= 0 && a[x, y] == data[LastIndex(data, Point(x, y))]
  }

  /** When the listed cells cover `h` and every listed position is done, every position of `h` is done. */
  lemma DoneCovers(cells: seq<CellInfo>, h: Grid<CellValue>, done: set<Point>)
    requires forall x, y :: h.InBounds(x, y) ==> HasCellAt(cells, x, y)
    requires forall k :: 0 <= k < |cells| ==> cells[k].Position in done
    ensures forall x, y :: h.InBounds(x, y) ==> Point(x, y) in done
  {
    forall x, y | h.InBounds(x, y) ensures Point(x, y) in done {
      assert HasCellAt(cells, x, y);
      var k :| 0 <= k < |cells| && cells[k].Position == Point(x, y);
    }
  }

  /** Every index (x, y) of `a` holds the last of `data` positioned there, or `placeholder` when none is. */
  ghost predicate StoredLast(a: array2<CellInfo>, data: seq<CellInfo>, placeholder: CellInfo)
    reads a
  {
    forall x, y :: 0 <= x < a.Length0 && 0 <= y < a.Length1 ==>
      a[x, y] == if LastIndex(data, Point(x, y)) >= 0 then data[LastIndex(data, Point(x, y))] else placeholder
  }

  /** The largest x of the listed positions (`data.Max(c => c.Position.X)`). */
  function MaxX(data: seq<CellInfo>): (m: int)
    requires |data| > 0
    ensures forall k :: 0 <= k < |data| ==> data[k].Position.x <= m
    ensures exists k :: 0 <= k < |data| && data[k].Position.x == m
  {
    if |data| == 1 then data[0].Position.x
    else
      var m := MaxX(data[..|data| - 1]);
      assert forall k :: 0 <= k < |data| - 1 ==> data[..|data| - 1][k] == data[k];
      if data[|data| - 1].Position.x > m then data[|data| - 1].Position.x else m
  }

  /** The largest y of the listed positions. */
  function MaxY(data: seq<CellInfo>): (m: int)
    requires |data| > 0
    ensures forall k :: 0 <= k < |data| ==> data[k].Position.y <= m
    ensures exists k :: 0 <= k < |data| && data[k].Position.y == m
  {
    if |data| == 1 then data[0].Position.y
    else
      var m := MaxY(data[..|data| - 1]);
      assert forall k :: 0 <= k < |data| - 1 ==> data[..|data| - 1][k] == data[k];
      if data[|data| - 1].Position.y > m then data[|data| - 1].Position.y else m
  }

  /** The payloads of the listed cells, in list order. */
  ghost function CellValues(data: seq<CellInfo>): (v: seq<CellValue>)
    reads data
    ensures |v| == |data| && forall k :: 0 <= k < |data| ==> v[k] == data[k].Value()
  {
    seq(|data|, k requires 0 <= k < |data| reads data => data[k].Value())
  }

  /** The value `vals` gives the last listed cell at (x, y), a position of the covered box. */
  function LastAt(data: seq<CellInfo>, vals: seq<CellValue>, x: int, y: int): (v: CellValue)
    requires CoversBox(data) && |vals| == |data| && 0 <= x <= MaxX(data) && 0 <= y <= MaxY(data)
    ensures LastIndex(data, Point(x, y)) >= 0 && v == vals[LastIndex(data, Point(x, y))]
  {
    CoveredHasLast(data, x, y);
    vals[LastIndex(data, Point(x, y))]
  }

  /** At each position of the box the listed cells cover, the value `vals` gives the last cell listed there. */
  function LastGrid(data: seq<CellInfo>, vals: seq<CellValue>): (g: Grid<CellValue>)
    requires CoversBox(data) && |vals| == |data|
    ensures g.Valid() && g.cols == MaxX(data) + 1 && g.rows == MaxY(data) + 1
    ensures forall x, y :: g.InBounds(x, y) ==> g.Get(x, y) == LastAt(data, vals, x, y)
  {
    var cols, rows := MaxX(data) + 1, MaxY(data) + 1;
    Grid(cols, rows, seq(rows, y requires 0 <= y < rows =>
      seq(cols, x requires 0 <= x < cols => LastAt(data, vals, x, y))))
  }

  /** The payloads the list constructor's matrix shows: at each position, those of the last cell listed there. */
  ghost function ListGrid(data: seq<CellInfo>): (g: Grid<CellValue>)
    requires CoversBox(data)
    reads data
    ensures g.Valid() && g.cols == MaxX(data) + 1 && g.rows == MaxY(data) + 1
    ensures forall x, y :: g.InBounds(x, y) ==> LastIndex(data, Point(x, y)) >= 0 && g.Get(x, y) == data[LastIndex(data, Point(x, y))].Value()
  {
    var g := LastGrid(data, CellValues(data));
    assert forall x, y :: g.InBounds(x, y) ==> g.Get(x, y) == LastAt(data, CellValues(data), x, y);
    g
  }

  /** When every listed cell holds `want`'s value at its position, the list constructor's matrix shows `want`. */
  lemma ListGridIs(data: seq<CellInfo>, want: Grid<CellValue>)
    requires CoversBox(data) && want.Valid() && want.cols == MaxX(data) + 1 && want.rows == MaxY(data) + 1
    requires forall k :: 0 <= k < |data| && want.InBounds(data[k].Position.x, data[k].Position.y) ==>
      data[k].Value() == want.Get(data[k].Position.x, data[k].Position.y)
    ensures ListGrid(data) == want
  {
    var g := ListGrid(data);
    forall x, y | want.InBounds(x, y) ensures g.Get(x, y) == want.Get(x, y) {
      var k := LastIndex(data, Point(x, y));
      assert data[k].Position == Point(x, y);
    }
    GridExt(g, want);
  }

  /** Some listed cell is positioned at (x, y). */
  predicate HasCellAt(data: seq<CellInfo>, x: int, y: int)
  {
    exists k :: 0 <= k < |data| && data[k].Position == Point(x, y)
  }

  /**
   * What the list constructor needs to build a matrix with no empty position: at least one
   * cell, no negative coordinate, and a cell for every position of the bounding box.
   */
  predicate CoversBox(data: seq<CellInfo>)
  {
    |data| > 0 &&
    (forall k :: 0 <= k < |data| ==> 0 <= data[k].Position.x && 0 <= data[k].Position.y) &&
    forall x, y :: 0 <= x <= MaxX(data) && 0 <= y <= MaxY(data) ==>
      HasCellAt(data, x, y)
  }

  /** The index of the last listed cell at `p`, or -1 when none is. */
  function LastIndex(data: seq<CellInfo>, p: Point): (k: int)
    ensures -1 <= k < |data|
    ensures k >= 0 ==> data[k].Position == p && forall j :: k < j < |data| ==> data[j].Position != p
    ensures k == -1 ==> forall j :: 0 <= j < |data| ==> data[j].Position != p
  {
    if |data| == 0 then -1
    else if data[|data| - 1].Position == p then |data| - 1
    else
      assert forall j :: 0 <= j < |data| - 1 ==> data[..|data| - 1][j] == data[j];
      LastIndex(data[..|data| - 1], p)
  }

  lemma LastIndexSnoc(data: seq<CellInfo>, i: nat, p: Point)
    requires i < |data|
    ensures LastIndex(data[..i + 1], p) == if p == data[i].Position then i else LastIndex(data[..i], p)
  {
    assert data[..i + 1][..i] == data[..i];
    assert data[..i + 1][i] == data[i];
  }

  /** Once every cell is stored, no index holds the placeholder. */
  lemma StoredLastCovered(a: array2<CellInfo>, data: seq<CellInfo>)
    requires CoversBox(data) && a.Length0 == MaxX(data) + 1 && a.Length1 == MaxY(data) + 1
    requires StoredLast(a, data, data[0])
    ensures PlacedList(a, data)
  {
    forall x, y | 0 <= x < a.Length0 && 0 <= y < a.Length1
      ensures LastIndex(data, Point(x, y)) >= 0
    {
      CoveredHasLast(data, x, y);
    }
  }

  /** In a list that covers its bounding box, every position of the box has a last cell. */
  lemma CoveredHasLast(data: seq<CellInfo>, x: int, y: int)
    requires CoversBox(data) && 0 <= x <= MaxX(data) && 0 <= y <= MaxY(data)
    ensures LastIndex(data, Point(x, y)) >= 0
  {
    assert HasCellAt(data, x, y);
    var k :| 0 <= k < |data| && data[k].Position == Point(x, y);
    assert LastIndex(data, Point(x, y)) >= k;
  }

  /** Copies shifted by -`s` of cells that hold `want`'s values at their shifted positions hold them at their own. */
  lemma ShiftedValues(range: seq<CellInfo>, copies: seq<CellInfo>, s: Point, want: Grid<CellValue>)
    requires want.Valid() && |copies| == |range|
    requires forall k :: 0 <= k < |range| ==>
      copies[k].Position == Subtract(range[k].Position, s) && copies[k].Value() == range[k].Value()
    requires forall k :: 0 <= k < |range| && want.InBounds(range[k].Position.x - s.x, range[k].Position.y - s.y) ==>
      range[k].Value() == want.Get(range[k].Position.x - s.x, range[k].Position.y - s.y)
    ensures forall k :: 0 <= k < |copies| && want.InBounds(copies[k].Position.x, copies[k].Position.y) ==>
      copies[k].Value() == want.Get(copies[k].Position.x, copies[k].Position.y)
  {
  }

  /**
   * Copies of the cells of a rectangle `s`..`e`, shifted by -`s`, cover the box from (0, 0) to
   * `e` - `s`, whose corner is their largest position.
   */
  lemma ShiftedCover(range: seq<CellInfo>, copies: seq<CellInfo>, s: Point, e: Point)
    requires s.x <= e.x && s.y <= e.y && |copies| == |range|
    requires forall k :: 0 <= k < |range| ==> copies[k].Position == Subtract(range[k].Position, s)
    requires forall k :: 0 <= k < |range| ==> s.x <= range[k].Position.x <= e.x && s.y <= range[k].Position.y <= e.y
    requires forall x, y :: s.x <= x <= e.x && s.y <= y <= e.y ==> HasCellAt(range, x, y)
    ensures CoversBox(copies) && MaxX(copies) == e.x - s.x && MaxY(copies) == e.y - s.y
  {
    assert HasCellAt(range, e.x, e.y);
    var k0 :| 0 <= k0 < |range| && range[k0].Position == e;
    assert copies[k0].Position == Subtract(e, s);
    var mx, my := MaxX(copies), MaxY(copies);
    var kx :| 0 <= kx < |copies| && copies[kx].Position.x == mx;
    var ky :| 0 <= ky < |copies| && copies[ky].Position.y == my;
    assert mx == e.x - s.x;
    assert my == e.y - s.y;
    forall x, y | 0 <= x <= mx && 0 <= y <= my
      ensures HasCellAt(copies, x, y)
    {
      assert HasCellAt(range, x + s.x, y + s.y);
      var k :| 0 <= k < |range| && range[k].Position == Point(x + s.x, y + s.y);
      assert copies[k].Position == Point(x, y);
    }
  }

  /** `FindAll` with the Manhattan-distance test, keeping the order of `cells`. */
  function AtDistance(cells: seq<CellInfo>, ref: Point, d: int): (r: seq<CellInfo>)
    ensures |r| <= |cells|
    ensures forall k :: 0 <= k < |r| ==> r[k] in cells && ManhattanDistance(r[k].Position, ref) == d
    ensures forall k :: 0 <= k < |cells| && ManhattanDistance(cells[k].Position, ref) == d ==> cells[k] in r
  {
    if |cells| == 0 then []
    else
      var rest := AtDistance(cells[1..], ref, d);
      assert forall k :: 1 <= k < |cells| ==> cells[k] == cells[1..][k - 1];
      if ManhattanDistance(cells[0].Position, ref) == d then [cells[0]] + rest else rest
  }

  /** The positions of a list of cells. */
  ghost function PositionsOf(cells: seq<CellInfo>): set<Point>
  {
    set k | 0 <= k < |cells| :: cells[k].Position
  }

  /** The loop invariants of the search survive appending what a recursive search returned. */
  lemma SearchStep(cg: Grid<CellInfo>, g: Grid<CellValue>, mode: TouchingMode, v0: set<Point>,
                   before: seq<CellInfo>, v1: set<Point>, sub: seq<CellInfo>, v2: set<Point>)
    requires |before| > 0 && v1 == v0 + PositionsOf(before)
    requires RegionCells(cg, g, before, v0, before[0].StringVal)
    requires TouchClosed(g, mode, PositionsOf(before[1..]), v1)
    requires v2 == v1 + PositionsOf(sub)
    requires RegionCells(cg, g, sub, v1, before[0].StringVal)
    requires TouchClosed(g, mode, PositionsOf(sub), v2)
    ensures v2 == v0 + PositionsOf(before + sub)
    ensures RegionCells(cg, g, before + sub, v0, before[0].StringVal)
    ensures TouchClosed(g, mode, PositionsOf((before + sub)[1..]), v2)
  {
    RegionCellsAppend(cg, g, before, sub, v0, before[0].StringVal);
    PositionsOfAppend(before, sub);
    UnionAssociative(v0, PositionsOf(before), PositionsOf(sub));
    TailAppend(before, sub);
    PositionsOfAppend(before[1..], sub);
    TouchClosedUnion(g, mode, PositionsOf(before[1..]), PositionsOf(sub), v1, v2);
  }

  lemma UnionAssociative<T>(a: set<T>, b: set<T>, c: set<T>)
    ensures (a + b) + c == a + (b + c)
  {
  }

  lemma TailAppend<T>(a: seq<T>, b: seq<T>)
    requires |a| > 0
    ensures (a + b)[1..] == a[1..] + b
  {
  }

  lemma PositionsOfAppend(a: seq<CellInfo>, b: seq<CellInfo>)
    ensures PositionsOf(a + b) == PositionsOf(a) + PositionsOf(b)
  {
    forall p | p in PositionsOf(a + b)
      ensures p in PositionsOf(a) + PositionsOf(b)
    {
      var k :| 0 <= k < |a + b| && (a + b)[k].Position == p;
      if k >= |a| { assert b[k - |a|].Position == p; }
    }
    forall p | p in PositionsOf(a)
      ensures p in PositionsOf(a + b)
    {
      var k :| 0 <= k < |a| && a[k].Position == p;
      assert (a + b)[k].Position == p;
    }
    forall p | p in PositionsOf(b)
      ensures p in PositionsOf(a + b)
    {
      var k :| 0 <= k < |b| && b[k].Position == p;
      assert (a + b)[|a| + k].Position == p;
    }
  }

  /** Every position of a `cols` × `rows` grid. */
  ghost function Box(cols: nat, rows: nat): set<Point>
  {
    set x: int, y: int | 0 <= x < cols && 0 <= y < rows :: Point(x, y)
  }

  /** Marking one more on-grid position shrinks the set of unmarked ones. */
  lemma BoxMinusShrinks(cols: nat, rows: nat, v0: set<Point>, v1: set<Point>, p: Point)
    requires v0 <= v1 && p in v1 && p !in v0 && 0 <= p.x < cols && 0 <= p.y < rows
    ensures |Box(cols, rows) - v1| < |Box(cols, rows) - v0|
  {
    var b := Box(cols, rows);
    assert b - v1 < b - v0 by {
      assert p in b - v0 && p !in b - v1;
    }
    ProperSubsetCard(b - v1, b - v0);
  }

  lemma {:induction false} ProperSubsetCard<T>(a: set<T>, b: set<T>)
    requires a < b
    ensures |a| < |b|
    decreases |b|
  {
    var x :| x in b && x !in a;
    assert b - {x} >= a;
    SubsetCard(a, b - {x});
  }

  lemma {:induction false} SubsetCard<T>(a: set<T>, b: set<T>)
    requires a <= b
    ensures |a| <= |b|
    decreases |b|
  {
    if a != {} {
      var x :| x in a;
      SubsetCard(a - {x}, b - {x});
    }
  }

  /**
   * The region closure of the touching search: every same-text neighbour of a region position
   * is in `visited`.
   */
  ghost predicate TouchClosed(g: Grid<CellValue>, mode: TouchingMode, region: set<Point>, visited: set<Point>)
  {
    g.Valid() &&
    forall q, q' ::
      (q in region && g.InBounds(q.x, q.y) && q' in NeighbourPositions(g, q, mode) &&
       g.InBounds(q'.x, q'.y) && g.Get(q'.x, q'.y).str == g.Get(q.x, q.y).str) ==> q' in visited
  }

  /** `path` steps by offsets of the mode through grid positions that all carry the text `t`. */
  ghost predicate SameTextPath(g: Grid<CellValue>, mode: TouchingMode, path: seq<Point>, t: string)
  {
    g.Valid() &&
    (forall k :: 0 <= k < |path| ==> g.InBounds(path[k].x, path[k].y) && g.Get(path[k].x, path[k].y).str == t) &&
    (forall k :: 0 <= k < |path| - 1 ==> Subtract(path[k + 1], path[k]) in Directions(mode))
  }

  /** `q` is reached from `p` along a same-text path. */
  ghost predicate Reachable(g: Grid<CellValue>, mode: TouchingMode, p: Point, q: Point, t: string)
  {
    exists path :: |path| > 0 && path[0] == p && path[|path| - 1] == q && SameTextPath(g, mode, path, t)
  }

  /** Every position of `region` is reached from `p` along a same-text path. */
  ghost predicate AllReachable(g: Grid<CellValue>, mode: TouchingMode, p: Point, region: set<Point>, t: string)
  {
    forall q :: q in region ==> Reachable(g, mode, p, q, t)
  }

  /** A grid position carrying `t` reaches itself. */
  lemma ReachSelf(g: Grid<CellValue>, mode: TouchingMode, p: Point, t: string)
    requires g.Valid() && g.InBounds(p.x, p.y) && g.Get(p.x, p.y).str == t
    ensures AllReachable(g, mode, p, {p}, t)
  {
    assert SameTextPath(g, mode, [p], t);
  }

  /**
   * Stepping from `p` by an offset of the mode to `next` extends the positions reached: what
   * `next` reaches, `p` reaches too.
   */
  lemma ReachExtend(g: Grid<CellValue>, mode: TouchingMode, p: Point, d: Point, next: Point,
                    region: set<Point>, more: set<Point>, t: string)
    requires g.Valid() && g.InBounds(p.x, p.y) && g.Get(p.x, p.y).str == t
    requires d in Directions(mode) && next == Add(p, d)
    requires AllReachable(g, mode, p, region, t) && AllReachable(g, mode, next, more, t)
    ensures AllReachable(g, mode, p, region + more, t)
  {
    forall q | q in more ensures Reachable(g, mode, p, q, t) {
      var path :| |path| > 0 && path[0] == next && path[|path| - 1] == q && SameTextPath(g, mode, path, t);
      PrependPath(g, mode, p, path, t);
      assert ([p] + path)[|path|] == q;
    }
  }

  /** A same-text path may start one offset earlier, from a position carrying the same text. */
  lemma PrependPath(g: Grid<CellValue>, mode: TouchingMode, p: Point, path: seq<Point>, t: string)
    requires g.Valid() && g.InBounds(p.x, p.y) && g.Get(p.x, p.y).str == t
    requires |path| > 0 && SameTextPath(g, mode, path, t) && Subtract(path[0], p) in Directions(mode)
    ensures SameTextPath(g, mode, [p] + path, t)
  {
    var longer := [p] + path;
    assert forall k :: 1 <= k < |longer| ==> longer[k] == path[k - 1];
  }

  /**
   * A region that holds `p`, is closed under same-text neighbours and is reached from `p`
   * is exactly the set of positions reached from `p`: the connected region of `p`.
   */
  lemma RegionIsComponent(g: Grid<CellValue>, mode: TouchingMode, p: Point, region: set<Point>, t: string)
    requires p in region && TouchClosed(g, mode, region, region) && AllReachable(g, mode, p, region, t)
    ensures forall q :: q in region <==> Reachable(g, mode, p, q, t)
  {
    forall q | Reachable(g, mode, p, q, t) ensures q in region {
      var path :| |path| > 0 && path[0] == p && path[|path| - 1] == q && SameTextPath(g, mode, path, t);
      PathInside(g, mode, path, t, region, |path| - 1);
    }
  }

  /** Every position of a same-text path from inside a closed region stays inside it. */
  lemma {:induction false} PathInside(g: Grid<CellValue>, mode: TouchingMode, path: seq<Point>, t: string,
                                      region: set<Point>, k: nat)
    requires SameTextPath(g, mode, path, t) && |path| > 0 && path[0] in region
    requires TouchClosed(g, mode, region, region) && k < |path|
    ensures path[k] in region
  {
    if k > 0 {
      PathInside(g, mode, path, t, region, k - 1);
      PathStep(g, mode, path, t, k);
      ClosedStep(g, mode, region, path[k - 1], path[k]);
    }
  }

  /** Two consecutive positions of a same-text path. */
  lemma PathStep(g: Grid<CellValue>, mode: TouchingMode, path: seq<Point>, t: string, k: nat)
    requires SameTextPath(g, mode, path, t) && 0 < k < |path|
    ensures g.InBounds(path[k - 1].x, path[k - 1].y) && g.InBounds(path[k].x, path[k].y)
    ensures g.Get(path[k].x, path[k].y).str == g.Get(path[k - 1].x, path[k - 1].y).str
    ensures Subtract(path[k], path[k - 1]) in Directions(mode)
  {
    assert k - 1 < |path| - 1;
  }

  /** A same-text step out of a closed region lands inside it. */
  lemma ClosedStep(g: Grid<CellValue>, mode: TouchingMode, region: set<Point>, a: Point, b: Point)
    requires a in region && TouchClosed(g, mode, region, region)
    requires g.InBounds(a.x, a.y) && g.InBounds(b.x, b.y) && g.Get(b.x, b.y).str == g.Get(a.x, a.y).str
    requires Subtract(b, a) in Directions(mode)
    ensures b in region
  {
    var d := Subtract(b, a);
    assert b == Add(a, d);
    FilterInBoundsKeeps(g, a, Directions(mode), d);
    assert b in NeighbourPositions(g, a, mode);
  }

  /** The visit array marks exactly the positions in `marked`. */
  ghost predicate MarksAre(visited: array2<bool>, marked: set<Point>)
    reads visited
  {
    (forall p :: p in marked ==> 0 <= p.x < visited.Length0 && 0 <= p.y < visited.Length1) &&
    forall x, y :: 0 <= x < visited.Length0 && 0 <= y < visited.Length1 ==> (visited[x, y] <==> Point(x, y) in marked)
  }

  lemma MarksAreMarked(visited: array2<bool>, marked: set<Point>)
    requires MarksAre(visited, marked)
    ensures Marked(visited) == marked
  {
  }

  /** The positions marked in a visit array. */
  ghost function Marked(visited: array2<bool>): set<Point>
    reads visited
  {
    set x: int, y: int | 0 <= x < visited.Length0 && 0 <= y < visited.Length1 && visited[x, y] :: Point(x, y)
  }

  /** The search's view of a matrix, with a visit array of the same shape. */
  ghost predicate SearchGrids(cells: array2<CellInfo>, visited: array2<bool>, cg: Grid<CellInfo>, g: Grid<CellValue>,
                              objs: set<CellInfo>)
    reads cells, objs
  {
    SearchCells(cells, cg, g, objs) && visited.Length0 == g.cols && visited.Length1 == g.rows
  }

  /**
   * The array `cells` holds the cells of `cg` (all in `objs`), each at its own position and
   * with the text `g` gives it.
   */
  ghost predicate SearchCells(cells: array2<CellInfo>, cg: Grid<CellInfo>, g: Grid<CellValue>, objs: set<CellInfo>)
    reads cells, objs
  {
    cg.Valid() && g.Valid() && cg.cols == g.cols && cg.rows == g.rows &&
    cells.Length0 == g.cols && cells.Length1 == g.rows &&
    forall x, y :: g.InBounds(x, y) ==>
      cells[x, y] == cg.Get(x, y) && cells[x, y] in objs && cells[x, y].Position == Point(x, y) &&
      cells[x, y].StringVal == g.Get(x, y).str
  }

  /**
   * `cells` are cells of the grid `cg`, each at its own position, none at a position in
   * `excluded`, no position twice, and every one with text `t` in the payload grid `g`.
   */
  ghost predicate RegionCells(cg: Grid<CellInfo>, g: Grid<CellValue>, cells: seq<CellInfo>, excluded: set<Point>, t: string)
  {
    cg.Valid() && g.Valid() && cg.cols == g.cols && cg.rows == g.rows &&
    (forall k :: 0 <= k < |cells| ==>
      var p := cells[k].Position;
      cg.InBounds(p.x, p.y) && cg.Get(p.x, p.y) == cells[k] && p !in excluded && g.Get(p.x, p.y).str == t) &&
    (forall i, j :: 0 <= i < j < |cells| ==> cells[i].Position != cells[j].Position)
  }

  lemma RegionCellsAppend(cg: Grid<CellInfo>, g: Grid<CellValue>, a: seq<CellInfo>, b: seq<CellInfo>, excluded: set<Point>, t: string)
    requires RegionCells(cg, g, a, excluded, t) && RegionCells(cg, g, b, excluded + PositionsOf(a), t)
    ensures RegionCells(cg, g, a + b, excluded, t)
  {
    forall i, j | 0 <= i < |a| <= j < |a + b|
      ensures (a + b)[i].Position != (a + b)[j].Position
    {
      assert (a + b)[i].Position in PositionsOf(a);
    }
  }

  /** Every offset of `position` among the first `n` that leads to an on-grid cell with text `t` has been visited. */
  ghost predicate TriedOffsets(g: Grid<CellValue>, position: Point, ds: seq<Point>, n: nat, t: string, visited: set<Point>)
  {
    g.Valid() && n <= |ds| &&
    forall j :: 0 <= j < n ==> OffsetTried(g, Add(position, ds[j]), t, visited)
  }

  /** A neighbour carrying text `t` on the grid is among the visited positions. */
  ghost predicate OffsetTried(g: Grid<CellValue>, next: Point, t: string, visited: set<Point>)
  {
    g.Valid() && (g.InBounds(next.x, next.y) && g.Get(next.x, next.y).str == t ==> next in visited)
  }

  lemma TriedOffsetsStep(g: Grid<CellValue>, position: Point, ds: seq<Point>, n: nat, t: string, v: set<Point>, v': set<Point>)
    requires TriedOffsets(g, position, ds, n, t, v) && v <= v' && n < |ds|
    requires OffsetTried(g, Add(position, ds[n]), t, v')
    ensures TriedOffsets(g, position, ds, n + 1, t, v')
  {
  }

  /** Closed regions stay closed as more is visited, and the union of two closed regions is closed. */
  lemma TouchClosedUnion(g: Grid<CellValue>, mode: TouchingMode, a: set<Point>, b: set<Point>, v: set<Point>, v': set<Point>)
    requires TouchClosed(g, mode, a, v) && TouchClosed(g, mode, b, v') && v <= v'
    ensures TouchClosed(g, mode, a + b, v')
  {
  }

  /** After every offset of `position` has been tried, `position` joins the closed region. */
  lemma TouchClosedAdd(g: Grid<CellValue>, mode: TouchingMode, result: seq<CellInfo>, visited: set<Point>,
                       position: Point, ds: seq<Point>)
    requires |result| > 0 && result[0].Position == position && g.InBounds(position.x, position.y)
    requires ds == Directions(mode)
    requires TouchClosed(g, mode, PositionsOf(result[1..]), visited)
    requires TriedOffsets(g, position, ds, |ds|, g.Get(position.x, position.y).str, visited)
    ensures TouchClosed(g, mode, PositionsOf(result), visited)
  {
    assert result == [result[0]] + result[1..];
    PositionsOfAppend([result[0]], result[1..]);
    forall q' | q' in NeighbourPositions(g, position, mode) && g.InBounds(q'.x, q'.y) &&
      g.Get(q'.x, q'.y).str == g.Get(position.x, position.y).str
      ensures q' in visited
    {
      FilterInBoundsMembers(g, position, ds, q');
      var d :| d in ds && q' == Add(position, d) && g.InBounds(q'.x, q'.y);
      var j :| 0 <= j < |ds| && ds[j] == d;
    }
  }
}

/**
 * QuickGrid: a rectangle of cells [MinX..MaxX] × [MinY..MaxY] kept in a dictionary keyed
 * by position. Reading a position outside the rectangle yields a fresh invalid cell.
 */
module QuickGrids {
  import opened PointExtensions
  import opened Wrappers
  import opened Cells
  import CSharpInt

  /** The neighbourhoods of `TouchingCells`. */
  datatype TouchingMode = Horizontal | Vertical | Diagonal | All

  /** The offsets of each mode, in the order of the `_touchingMode` table. */
  function Offsets(mode: TouchingMode): (d: seq<Point>)
    ensures forall i :: 0 <= i < |d| ==> d[i] != Origin && -1 <= d[i].x <= 1 && -1 <= d[i].y <= 1
    ensures forall i, j :: 0 <= i < j < |d| ==> d[i] != d[j]
  {
    match mode
    case Horizontal => [Point(-1, 0), Point(1, 0)]
    case Vertical => [Point(0, -1), Point(0, 1)]
    case Diagonal => [Point(-1, -1), Point(1, 1), Point(-1, 1), Point(1, -1)]
    case All => [Point(-1, -1), Point(0, -1), Point(1, -1), Point(-1, 0), Point(1, 0), Point(-1, 1), Point(0, 1), Point(1, 1)]
  }

  /** Each neighbourhood is closed under negation: q touches p exactly when p touches q. */
  lemma OffsetsSymmetric(mode: TouchingMode, d: Point)
    ensures d in Offsets(mode) <==> Point(-d.x, -d.y) in Offsets(mode)
  {
  }

  /** The size of each neighbourhood: two, two, four or eight offsets. */
  lemma OffsetCounts(mode: TouchingMode)
    ensures mode == Horizontal || mode == Vertical ==> |Offsets(mode)| == 2
    ensures mode == Diagonal ==> |Offsets(mode)| == 4
    ensures mode == All ==> |Offsets(mode)| == 8
  {
  }

  predicate InRange(p: Point, minX: int, maxX: int, minY: int, maxY: int)
  {
    minX <= p.x <= maxX && minY <= p.y <= maxY
  }

  /** A cell holding `payload` on top of the empty payloads, as the typed `CellInfo` constructors build it. */
  method NewCell(p: Point, payload: Payload) returns (c: CellInfo)
    ensures fresh(c) && c.Position == p && c.Value() == WithPayload(EmptyValue, payload)
  {
    if payload.TextPayload? {
      c := new CellInfo.FromString(p, payload.text);
    } else if payload.LongPayload? {
      c := new CellInfo.FromLong(p, payload.number);
    } else if payload.BoolPayload? {
      c := new CellInfo.FromBool(p, payload.flag);
    } else {
      c := new CellInfo.FromString(p, "");
      c.ObjectVal := payload.obj;
    }
  }

  /**
   * The constructors' nested loops: x from minX to maxX, then y from minY to maxY, one new
   * cell per position holding `init` of that position. An empty range adds nothing.
   */
  method FillBox(minX: int, maxX: int, minY: int, maxY: int, init: Point -> Payload)
    returns (cells: map<Point, CellInfo>)
    ensures forall p :: p in cells <==> InRange(p, minX, maxX, minY, maxY)
    ensures forall p :: p in cells ==>
      fresh(cells[p]) && cells[p].Position == p && cells[p].Value() == WithPayload(EmptyValue, init(p))
  {
    cells := map[];
    var x := minX;
    while x <= maxX
      invariant minX <= x && (minX <= maxX ==> x <= maxX + 1)
      invariant forall p :: p in cells <==> InRange(p, minX, maxX, minY, maxY) && p.x < x
      invariant forall p :: p in cells ==>
        fresh(cells[p]) && cells[p].Position == p && cells[p].Value() == WithPayload(EmptyValue, init(p))
      decreases maxX - x
    {
      var y := minY;
      while y <= maxY
        invariant minY <= y && (minY <= maxY ==> y <= maxY + 1)
        invariant forall p :: p in cells <==> InRange(p, minX, maxX, minY, maxY) && (p.x < x || (p.x == x && p.y < y))
        invariant forall p :: p in cells ==>
          fresh(cells[p]) && cells[p].Position == p && cells[p].Value() == WithPayload(EmptyValue, init(p))
        decreases maxY - y
      {
        var c := NewCell(Point(x, y), init(Point(x, y)));
        cells := cells[Point(x, y) := c];
        y := y + 1;
      }
      x := x + 1;
    }
  }

  /** The smallest and the largest x and y of a non-empty list of points (`Min`/`Max` over the list). */
  function LowestX(ps: seq<Point>): (m: int)
    requires |ps| > 0
    ensures forall i :: 0 <= i < |ps| ==> m <= ps[i].x
    ensures exists i :: 0 <= i < |ps| && ps[i].x == m
  {
    if |ps| == 1 then ps[0].x
    else
      var r := LowestX(ps[1..]);
      assert forall i :: 1 <= i < |ps| ==> ps[i] == ps[1..][i - 1];
      if ps[0].x <= r then ps[0].x else r
  }

  function HighestX(ps: seq<Point>): (m: int)
    requires |ps| > 0
    ensures forall i :: 0 <= i < |ps| ==> ps[i].x <= m
    ensures exists i :: 0 <= i < |ps| && ps[i].x == m
  {
    if |ps| == 1 then ps[0].x
    else
      var r := HighestX(ps[1..]);
      assert forall i :: 1 <= i < |ps| ==> ps[i] == ps[1..][i - 1];
      if ps[0].x >= r then ps[0].x else r
  }

  function LowestY(ps: seq<Point>): (m: int)
    requires |ps| > 0
    ensures forall i :: 0 <= i < |ps| ==> m <= ps[i].y
    ensures exists i :: 0 <= i < |ps| && ps[i].y == m
  {
    if |ps| == 1 then ps[0].y
    else
      var r := LowestY(ps[1..]);
      assert forall i :: 1 <= i < |ps| ==> ps[i] == ps[1..][i - 1];
      if ps[0].y <= r then ps[0].y else r
  }

  function HighestY(ps: seq<Point>): (m: int)
    requires |ps| > 0
    ensures forall i :: 0 <= i < |ps| ==> ps[i].y <= m
    ensures exists i :: 0 <= i < |ps| && ps[i].y == m
  {
    if |ps| == 1 then ps[0].y
    else
      var r := HighestY(ps[1..]);
      assert forall i :: 1 <= i < |ps| ==> ps[i] == ps[1..][i - 1];
      if ps[0].y >= r then ps[0].y else r
  }

  /**
   * `TryGetValue` on a dictionary from positions to texts, given as its `Keys` and `Values`
   * collections (which enumerate in the same order): the text stored with key p, if any.
   */
  function Lookup(keys: seq<Point>, texts: seq<string>, p: Point): (r: Option<string>)
    requires |keys| == |texts|
    ensures r.None? <==> p !in keys
    ensures r.Some? ==> exists i :: 0 <= i < |keys| && keys[i] == p && texts[i] == r.value
  {
    if |keys| == 0 then None
    else if keys[0] == p then Some(texts[0])
    else
      var r := Lookup(keys[1..], texts[1..], p);
      assert forall i :: 1 <= i < |keys| ==> keys[i] == keys[1..][i - 1] && texts[i] == texts[1..][i - 1];
      assert p in keys <==> p in keys[1..];
      r
  }

  /** The text a position of `QuickGrid(knownCells, unknownValue)` holds: its own text, or `unknownValue`. */
  function KnownText(keys: seq<Point>, texts: seq<string>, unknownValue: string, p: Point): string
    requires |keys| == |texts|
  {
    Lookup(keys, texts, p).GetOr(unknownValue)
  }

  /** Distinct keys, as in a dictionary. */
  predicate DistinctKeys(keys: seq<Point>)
  {
    forall i, j :: 0 <= i < j < |keys| ==> keys[i] != keys[j]
  }

  /** With distinct keys, the lookup of a key finds the text stored with it. */
  lemma LookupFinds(keys: seq<Point>, texts: seq<string>, i: nat)
    requires |keys| == |texts| && DistinctKeys(keys) && i < |keys|
    ensures Lookup(keys, texts, keys[i]) == Some(texts[i])
  {
    var r := Lookup(keys, texts, keys[i]);
    var j :| 0 <= j < |keys| && keys[j] == keys[i] && texts[j] == r.value;
  }

  /** In the box of a dictionary's keys filled from its lookups, every key holds its own text. */
  lemma EntriesKept(keys: seq<Point>, texts: seq<string>, unknownValue: string, cells: map<Point, CellInfo>)
    requires |keys| == |texts| > 0 && DistinctKeys(keys)
    requires forall p :: p in cells <==> InRange(p, LowestX(keys), HighestX(keys), LowestY(keys), HighestY(keys))
    requires forall p :: p in cells ==> cells[p].Value().str == KnownText(keys, texts, unknownValue, p)
    ensures forall i :: 0 <= i < |keys| ==> keys[i] in cells && cells[keys[i]].Value().str == texts[i]
  {
    forall i | 0 <= i < |keys|
      ensures keys[i] in cells && cells[keys[i]].Value().str == texts[i]
    {
      assert InRange(keys[i], LowestX(keys), HighestX(keys), LowestY(keys), HighestY(keys));
      LookupFinds(keys, texts, i);
    }
  }

  /** The cells of `QuickGrid(knownCells, unknownValue)`: the keys' bounding box filled from the lookups. */
  method KnownTextCells(keys: seq<Point>, texts: seq<string>, unknownValue: string) returns (cells: map<Point, CellInfo>)
    requires |keys| == |texts| > 0 && DistinctKeys(keys)
    ensures forall p :: p in cells <==> InRange(p, LowestX(keys), HighestX(keys), LowestY(keys), HighestY(keys))
    ensures forall p :: p in cells ==>
      fresh(cells[p]) && cells[p].Position == p && cells[p].Value() == EmptyValue.(str := KnownText(keys, texts, unknownValue, p))
  {
    cells := FillBox(LowestX(keys), HighestX(keys), LowestY(keys), HighestY(keys),
                     p => TextPayload(KnownText(keys, texts, unknownValue, p)));
  }

  class QuickGrid {
    const MinX: int
    const MaxX: int
    const MinY: int
    const MaxY: int
    const NbrRow: int
    const NbrCol: int
    const allCells: map<Point, CellInfo>

    /** The dictionary holds exactly the positions of the rectangle, each cell keyed by its own position. */
    ghost predicate Valid()
    {
      (forall p :: p in allCells <==> InRange(p, MinX, MaxX, MinY, MaxY)) &&
      forall p :: p in allCells ==> allCells[p].Position == p
    }

    /** `new QuickGrid()`: the single cell (0, 0) holding the number 0, one row and one column. */
    constructor Single()
      ensures Valid() && MinX == 0 && MaxX == 0 && MinY == 0 && MaxY == 0 && NbrRow == 1 && NbrCol == 1
      ensures allCells.Keys == {Origin} && fresh(allCells[Origin]) && allCells[Origin].Value() == EmptyValue.(long := 0)
    {
      var c := new CellInfo.FromLong(Origin, 0);
      MinX, MaxX, MinY, MaxY := 0, 0, 0, 0;
      NbrRow, NbrCol := 1, 1;
      allCells := map[Origin := c];
    }

    /**
     * `new QuickGrid(xMin, xMax, yMin, yMax, defaultValue)`, for a number or a text default:
     * one new cell per position of the rectangle, holding the default.
     */
    constructor FilledRange(xMin: int, xMax: int, yMin: int, yMax: int, defaultValue: Payload)
      requires defaultValue.LongPayload? || defaultValue.TextPayload?
      ensures Valid() && MinX == xMin && MaxX == xMax && MinY == yMin && MaxY == yMax
      ensures NbrRow == yMax - yMin + 1 && NbrCol == xMax - xMin + 1
      ensures forall p :: p in allCells ==> fresh(allCells[p]) && allCells[p].Value() == WithPayload(EmptyValue, defaultValue)
    {
      var cells := FillBox(xMin, xMax, yMin, yMax, _ => defaultValue);
      MinX, MaxX, MinY, MaxY := xMin, xMax, yMin, yMax;
      NbrRow, NbrCol := yMax - yMin + 1, xMax - xMin + 1;
      allCells := cells;
    }

    /**
     * `new QuickGrid(knownCells, knownValue, unknownValue)`: the bounding box of the listed
     * points, with `knownValue` on listed positions and `unknownValue` elsewhere. The source
     * takes `Min`/`Max` of the list, which throws on an empty list, and leaves NbrRow and
     * NbrCol at 0.
     */
    constructor FromKnownPoints(knownCells: seq<Point>, knownValue: string, unknownValue: string)
      requires |knownCells| > 0
      ensures Valid() && MinX == LowestX(knownCells) && MaxX == HighestX(knownCells)
      ensures MinY == LowestY(knownCells) && MaxY == HighestY(knownCells)
      ensures NbrRow == 0 && NbrCol == 0
      ensures forall p :: p in allCells ==>
        fresh(allCells[p]) && allCells[p].Value() == EmptyValue.(str := if p in knownCells then knownValue else unknownValue)
      ensures forall i :: 0 <= i < |knownCells| ==> knownCells[i] in allCells && allCells[knownCells[i]].Value().str == knownValue
    {
      var x0, x1 := LowestX(knownCells), HighestX(knownCells);
      var y0, y1 := LowestY(knownCells), HighestY(knownCells);
      var cells := FillBox(x0, x1, y0, y1, p => TextPayload(if p in knownCells then knownValue else unknownValue));
      MinX, MaxX, MinY, MaxY := x0, x1, y0, y1;
      NbrRow, NbrCol := 0, 0;
      allCells := cells;
    }

    /**
     * `new QuickGrid(knownCells, unknownValue)` over a dictionary, given as its keys and its
     * texts in enumeration order: the bounding box of the keys, each position holding its own
     * text or `unknownValue`. NbrRow and NbrCol stay 0.
     */
    constructor FromKnownTexts(keys: seq<Point>, texts: seq<string>, unknownValue: string)
      requires |keys| == |texts| > 0 && DistinctKeys(keys)
      ensures Valid()
      ensures MinX == LowestX(keys) && MaxX == HighestX(keys) && MinY == LowestY(keys) && MaxY == HighestY(keys)
      ensures NbrRow == 0 && NbrCol == 0
      ensures forall p :: p in allCells ==>
        fresh(allCells[p]) && allCells[p].Value() == EmptyValue.(str := KnownText(keys, texts, unknownValue, p))
    {
      var x0, x1, y0, y1 := LowestX(keys), HighestX(keys), LowestY(keys), HighestY(keys);
      var cells := KnownTextCells(keys, texts, unknownValue);
      MinX, MaxX, MinY, MaxY := x0, x1, y0, y1;
      NbrRow, NbrCol := 0, 0;
      allCells := cells;
    }

    /** `Cell(x, y)`: the stored cell, or a fresh cell at (int.MinValue, int.MinValue) with empty text off the rectangle. */
    method Cell(x: int, y: int) returns (c: CellInfo)
      requires Valid()
      ensures InRange(Point(x, y), MinX, MaxX, MinY, MaxY) ==> c == allCells[Point(x, y)] && c.Position == Point(x, y)
      ensures !InRange(Point(x, y), MinX, MaxX, MinY, MaxY) ==> fresh(c) && !c.IsValid() && c.Value() == EmptyValue
    {
      if x < MinX || x > MaxX || y < MinY || y > MaxY {
        c := NewSentinel();
        return;
      }
      c := allCells[Point(x, y)];
    }

    /**
     * `TouchingCells(x, y, mode)`: `Cell` of each offset of the mode, in table order. `Cell`
     * never returns null, so nothing is filtered: off-grid neighbours come back as sentinels.
     */
    method TouchingCells(x: int, y: int, touchingMode: TouchingMode) returns (result: seq<CellInfo>)
      requires Valid()
      ensures |result| == |Offsets(touchingMode)|
      ensures forall i :: 0 <= i < |result| ==>
        var q := Add(Point(x, y), Offsets(touchingMode)[i]);
        (InRange(q, MinX, MaxX, MinY, MaxY) ==> result[i] == allCells[q]) &&
        (!InRange(q, MinX, MaxX, MinY, MaxY) ==> fresh(result[i]) && !result[i].IsValid() && result[i].Value() == EmptyValue)
    {
      var moves := Offsets(touchingMode);
      result := [];
      for i := 0 to |moves|
        invariant |result| == i
        invariant forall k :: 0 <= k < i ==>
          var q := Add(Point(x, y), moves[k]);
          (InRange(q, MinX, MaxX, MinY, MaxY) ==> result[k] == allCells[q]) &&
          (!InRange(q, MinX, MaxX, MinY, MaxY) ==> fresh(result[k]) && !result[k].IsValid() && result[k].Value() == EmptyValue)
      {
        var cell := Cell(x + moves[i].x, y + moves[i].y);
        result := result + [cell];
      }
    }

    /**
     * The cells of row y printed by `ToString(contentType)`, for x from MinX up to (excluding)
     * `upTo`. On a valid grid every such cell is stored; a missing one would print nothing.
     */
    function RowPrint(y: int, contentType: ContentType, upTo: int): (s: string)
      reads allCells.Values
      decreases upTo - MinX
    {
      if upTo <= MinX then ""
      else
        var p := Point(upTo - 1, y);
        RowPrint(y, contentType, upTo - 1) + (if p in allCells then allCells[p].ToString(contentType) else "")
    }

    /** A row printed with one character per cell (the flag) is as long as the row. */
    lemma {:induction false} BoolRowLength(y: int, upTo: int)
      requires Valid() && MinY <= y <= MaxY && MinX <= upTo <= MaxX + 1
      ensures |RowPrint(y, BoolContent, upTo)| == upTo - MinX
      decreases upTo - MinX
    {
      if upTo > MinX {
        BoolRowLength(y, upTo - 1);
      }
    }

    /** One line of `GetDebugPrintLines`: the cells of row y, x = MinX..MaxX, each by `ToString(contentType)`. */
    method PrintRow(y: int, contentType: ContentType) returns (line: string)
      requires Valid() && MinY <= y <= MaxY
      ensures line == RowPrint(y, contentType, MaxX + 1)
    {
      line := "";
      var x := MinX;
      while x <= MaxX
        invariant MinX <= x && (x == MinX || x <= MaxX + 1)
        invariant line == RowPrint(y, contentType, x)
        decreases MaxX - x
      {
        var cell := Cell(x, y);
        line := line + cell.ToString(contentType);
        x := x + 1;
      }
    }

    /** `GetDebugPrintLines(contentType)`: one line per y from MinY to MaxY. */
    method GetDebugPrintLines(contentType: ContentType) returns (lines: seq<string>)
      requires Valid()
      ensures |lines| == if MinY <= MaxY then MaxY - MinY + 1 else 0
      ensures forall i :: 0 <= i < |lines| ==> lines[i] == RowPrint(MinY + i, contentType, MaxX + 1)
    {
      lines := [];
      var y := MinY;
      while y <= MaxY
        invariant MinY <= y && (y == MinY || y <= MaxY + 1)
        invariant |lines| == y - MinY
        invariant lines == Rows(contentType, |lines|)
        decreases MaxY - y
      {
        var line := PrintRow(y, contentType);
        lines := lines + [line];
        y := y + 1;
      }
      RowsAt(contentType, |lines|);
    }

    /** The first n rows of the grid, printed. */
    ghost function Rows(contentType: ContentType, n: nat): seq<string>
      reads allCells.Values
    {
      if n == 0 then [] else Rows(contentType, n - 1) + [RowPrint(MinY + n - 1, contentType, MaxX + 1)]
    }

    lemma {:induction false} RowsAt(contentType: ContentType, n: nat)
      ensures |Rows(contentType, n)| == n
      ensures forall i :: 0 <= i < n ==> Rows(contentType, n)[i] == RowPrint(MinY + i, contentType, MaxX + 1)
    {
      if n > 0 {
        RowsAt(contentType, n - 1);
      }
    }

    /**
     * `Cells`: the dictionary's cells, each once. The dictionary's enumeration order is not
     * modelled: the list is any ordering of the stored cells.
     */
    method CellList() returns (cells: seq<CellInfo>)
      requires Valid()
      ensures |cells| == |allCells.Keys|
      ensures forall i :: 0 <= i < |cells| ==> cells[i] in allCells.Values
      ensures forall p :: p in allCells ==> allCells[p] in cells
      ensures forall i, j :: 0 <= i < j < |cells| ==> cells[i] != cells[j]
    {
      cells := [];
      var rest := allCells.Keys;
      while rest != {}
        invariant rest <= allCells.Keys
        invariant |cells| + |rest| == |allCells.Keys|
        invariant forall i :: 0 <= i < |cells| ==> cells[i] in allCells.Values
        invariant forall p :: p in allCells && p !in rest ==> allCells[p] in cells
        invariant forall i :: 0 <= i < |cells| ==> cells[i].Position in allCells - rest && allCells[cells[i].Position] == cells[i]
        invariant forall i, j :: 0 <= i < j < |cells| ==> cells[i] != cells[j]
        decreases |rest|
      {
        var p :| p in rest;
        cells := cells + [allCells[p]];
        rest := rest - {p};
      }
    }
  }
}

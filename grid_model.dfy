/**
 * The value semantics of the dense grid behind QuickMatrix: a `cols` × `rows` block of
 * values indexed (x, y), with x the column and y the row. The geometric transforms,
 * rectangular extraction and splicing, and the neighbour offsets of each touching mode
 * are defined here once, on values; the QuickMatrix class is proved against them.
 */
module GridModel {
  import opened PointExtensions

  /** `at[y][x]` is the value in column x of row y. */
  datatype Grid<T> = Grid(cols: nat, rows: nat, at: seq<seq<T>>)
  {
    predicate Valid()
    {
      |at| == rows && forall y :: 0 <= y < rows ==> |at[y]| == cols
    }

    predicate InBounds(x: int, y: int)
    {
      0 <= x < cols && 0 <= y < rows
    }

    function Get(x: int, y: int): T
      requires Valid() && InBounds(x, y)
    {
      at[y][x]
    }
  }

  /** The grid with the value at (x, y) replaced by v; a position off the grid changes nothing. */
  function Put<T>(g: Grid<T>, x: int, y: int, v: T): (r: Grid<T>)
    requires g.Valid()
    ensures r.Valid() && r.cols == g.cols && r.rows == g.rows
    ensures forall x', y' :: g.InBounds(x', y') ==> r.Get(x', y') == if (x', y') == (x, y) then v else g.Get(x', y')
  {
    if g.InBounds(x, y) then Grid(g.cols, g.rows, g.at[y := g.at[y][x := v]]) else g
  }

  /** Two grids with the same dimensions and the same value everywhere are equal. */
  lemma GridExt<T>(a: Grid<T>, b: Grid<T>)
    requires a.Valid() && b.Valid() && a.cols == b.cols && a.rows == b.rows
    requires forall x, y :: a.InBounds(x, y) ==> a.Get(x, y) == b.Get(x, y)
    ensures a == b
  {
    forall y | 0 <= y < a.rows
      ensures a.at[y] == b.at[y]
    {
      assert forall x :: 0 <= x < a.cols ==> a.at[y][x] == a.Get(x, y);
    }
  }

  /** A grid holding `v` everywhere: what the filling constructors build. */
  function Filled<T>(cols: nat, rows: nat, v: T): (g: Grid<T>)
    ensures g.Valid() && g.cols == cols && g.rows == rows
    ensures forall x, y :: g.InBounds(x, y) ==> g.Get(x, y) == v
  {
    Grid(cols, rows, seq(rows, y => seq(cols, x => v)))
  }

  // ---------------------------------------------------------------------------
  // The six transforms. Each is stated the way the source writes it: the value
  // found at source position (x, y) ends up at the target position given.
  // ---------------------------------------------------------------------------

  /** Quarter turn clockwise: (x, y) moves to (height-1-y, x); the dimensions swap. */
  function RotateClockwise<T>(g: Grid<T>): (r: Grid<T>)
    requires g.Valid()
    ensures r.Valid() && r.cols == g.rows && r.rows == g.cols
    ensures forall x, y :: g.InBounds(x, y) ==> r.Get(g.rows - 1 - y, x) == g.Get(x, y)
  {
    Grid(g.rows, g.cols,
      seq(g.cols, y requires 0 <= y < g.cols =>
        seq(g.rows, x requires 0 <= x < g.rows => g.at[g.rows - 1 - x][y])))
  }

  /** Quarter turn counter-clockwise: (x, y) moves to (y, width-1-x); the dimensions swap. */
  function RotateCounterClockwise<T>(g: Grid<T>): (r: Grid<T>)
    requires g.Valid()
    ensures r.Valid() && r.cols == g.rows && r.rows == g.cols
    ensures forall x, y :: g.InBounds(x, y) ==> r.Get(y, g.cols - 1 - x) == g.Get(x, y)
  {
    Grid(g.rows, g.cols,
      seq(g.cols, y requires 0 <= y < g.cols =>
        seq(g.rows, x requires 0 <= x < g.rows => g.at[x][g.cols - 1 - y])))
  }

  /** Half turn: (x, y) moves to (width-1-x, height-1-y). */
  function Rotate180Degree<T>(g: Grid<T>): (r: Grid<T>)
    requires g.Valid()
    ensures r.Valid() && r.cols == g.cols && r.rows == g.rows
    ensures forall x, y :: g.InBounds(x, y) ==> r.Get(g.cols - 1 - x, g.rows - 1 - y) == g.Get(x, y)
  {
    Grid(g.cols, g.rows,
      seq(g.rows, y requires 0 <= y < g.rows =>
        seq(g.cols, x requires 0 <= x < g.cols => g.at[g.rows - 1 - y][g.cols - 1 - x])))
  }

  /** Mirror left-right: (x, y) moves to (width-1-x, y). */
  function FlipHorizontal<T>(g: Grid<T>): (r: Grid<T>)
    requires g.Valid()
    ensures r.Valid() && r.cols == g.cols && r.rows == g.rows
    ensures forall x, y :: g.InBounds(x, y) ==> r.Get(g.cols - 1 - x, y) == g.Get(x, y)
  {
    Grid(g.cols, g.rows,
      seq(g.rows, y requires 0 <= y < g.rows =>
        seq(g.cols, x requires 0 <= x < g.cols => g.at[y][g.cols - 1 - x])))
  }

  /** Mirror top-bottom: (x, y) moves to (x, height-1-y). */
  function FlipVertical<T>(g: Grid<T>): (r: Grid<T>)
    requires g.Valid()
    ensures r.Valid() && r.cols == g.cols && r.rows == g.rows
    ensures forall x, y :: g.InBounds(x, y) ==> r.Get(x, g.rows - 1 - y) == g.Get(x, y)
  {
    Grid(g.cols, g.rows,
      seq(g.rows, y requires 0 <= y < g.rows =>
        seq(g.cols, x requires 0 <= x < g.cols => g.at[g.rows - 1 - y][x])))
  }

  /** Mirror in the main diagonal: (x, y) moves to (y, x); the dimensions swap. */
  function Transpose<T>(g: Grid<T>): (r: Grid<T>)
    requires g.Valid()
    ensures r.Valid() && r.cols == g.rows && r.rows == g.cols
    ensures forall x, y :: g.InBounds(x, y) ==> r.Get(y, x) == g.Get(x, y)
  {
    Grid(g.rows, g.cols,
      seq(g.cols, y requires 0 <= y < g.cols =>
        seq(g.rows, x requires 0 <= x < g.rows => g.at[x][y])))
  }

  /** The two quarter turns undo each other. */
  lemma RotationsInverse<T>(g: Grid<T>)
    requires g.Valid()
    ensures RotateCounterClockwise(RotateClockwise(g)) == g
    ensures RotateClockwise(RotateCounterClockwise(g)) == g
  {
    var a := RotateCounterClockwise(RotateClockwise(g));
    forall x, y | g.InBounds(x, y) ensures a.Get(x, y) == g.Get(x, y) {
      assert RotateClockwise(g).Get(g.rows - 1 - y, x) == g.Get(x, y);
    }
    GridExt(a, g);
    var b := RotateClockwise(RotateCounterClockwise(g));
    forall x, y | g.InBounds(x, y) ensures b.Get(x, y) == g.Get(x, y) {
      assert RotateCounterClockwise(g).Get(y, g.cols - 1 - x) == g.Get(x, y);
    }
    GridExt(b, g);
  }

  /** Two quarter turns make a half turn. */
  lemma TwoQuarterTurns<T>(g: Grid<T>)
    requires g.Valid()
    ensures RotateClockwise(RotateClockwise(g)) == Rotate180Degree(g)
  {
    var h := RotateClockwise(RotateClockwise(g));
    forall x, y | g.InBounds(x, y) ensures h.Get(x, y) == Rotate180Degree(g).Get(x, y) {
      var ox, oy := g.cols - 1 - x, g.rows - 1 - y;
      assert RotateClockwise(g).Get(g.rows - 1 - oy, ox) == g.Get(ox, oy);
      assert Rotate180Degree(g).Get(g.cols - 1 - ox, g.rows - 1 - oy) == g.Get(ox, oy);
    }
    GridExt(h, Rotate180Degree(g));
  }

  /** Four quarter turns restore the grid. */
  lemma FourQuarterTurns<T>(g: Grid<T>)
    requires g.Valid()
    ensures RotateClockwise(RotateClockwise(RotateClockwise(RotateClockwise(g)))) == g
  {
    var h := RotateClockwise(RotateClockwise(g));
    TwoQuarterTurns(g);
    TwoQuarterTurns(h);
    Rotate180Involution(g);
  }

  /** The half turn is its own inverse. */
  lemma Rotate180Involution<T>(g: Grid<T>)
    requires g.Valid()
    ensures Rotate180Degree(Rotate180Degree(g)) == g
  {
    var a := Rotate180Degree(Rotate180Degree(g));
    forall x, y | g.InBounds(x, y) ensures a.Get(x, y) == g.Get(x, y) {
      assert Rotate180Degree(g).Get(g.cols - 1 - x, g.rows - 1 - y) == g.Get(x, y);
    }
    GridExt(a, g);
  }

  /** Both flips and the transpose are involutions. */
  lemma FlipsAreInvolutions<T>(g: Grid<T>)
    requires g.Valid()
    ensures FlipHorizontal(FlipHorizontal(g)) == g
    ensures FlipVertical(FlipVertical(g)) == g
    ensures Transpose(Transpose(g)) == g
  {
    var a := FlipHorizontal(FlipHorizontal(g));
    forall x, y | g.InBounds(x, y) ensures a.Get(x, y) == g.Get(x, y) {
      assert FlipHorizontal(g).Get(g.cols - 1 - x, y) == g.Get(x, y);
    }
    GridExt(a, g);
    var b := FlipVertical(FlipVertical(g));
    forall x, y | g.InBounds(x, y) ensures b.Get(x, y) == g.Get(x, y) {
      assert FlipVertical(g).Get(x, g.rows - 1 - y) == g.Get(x, y);
    }
    GridExt(b, g);
    var c := Transpose(Transpose(g));
    forall x, y | g.InBounds(x, y) ensures c.Get(x, y) == g.Get(x, y) {
      assert Transpose(g).Get(y, x) == g.Get(x, y);
    }
    GridExt(c, g);
  }

  /** How the transforms compose: a half turn is both flips, a quarter turn is a transpose then a left-right flip. */
  lemma TransformCompositions<T>(g: Grid<T>)
    requires g.Valid()
    ensures Rotate180Degree(g) == FlipHorizontal(FlipVertical(g))
    ensures RotateClockwise(g) == FlipHorizontal(Transpose(g))
    ensures RotateCounterClockwise(g) == FlipVertical(Transpose(g))
  {
    var a := FlipHorizontal(FlipVertical(g));
    forall x, y | g.InBounds(x, y) ensures a.Get(x, y) == Rotate180Degree(g).Get(x, y) {
      var ox, oy := g.cols - 1 - x, g.rows - 1 - y;
      assert FlipVertical(g).Get(ox, g.rows - 1 - oy) == g.Get(ox, oy);
      assert Rotate180Degree(g).Get(g.cols - 1 - ox, g.rows - 1 - oy) == g.Get(ox, oy);
    }
    GridExt(a, Rotate180Degree(g));
    var t := Transpose(g);
    var b := FlipHorizontal(t);
    forall x, y | b.InBounds(x, y) ensures b.Get(x, y) == RotateClockwise(g).Get(x, y) {
      var ox, oy := y, g.rows - 1 - x;
      assert t.Get(oy, ox) == g.Get(ox, oy);
      assert RotateClockwise(g).Get(g.rows - 1 - oy, ox) == g.Get(ox, oy);
    }
    GridExt(b, RotateClockwise(g));
    var c := FlipVertical(t);
    forall x, y | c.InBounds(x, y) ensures c.Get(x, y) == RotateCounterClockwise(g).Get(x, y) {
      var ox, oy := g.cols - 1 - y, x;
      assert t.Get(oy, ox) == g.Get(ox, oy);
      assert RotateCounterClockwise(g).Get(oy, g.cols - 1 - ox) == g.Get(ox, oy);
    }
    GridExt(c, RotateCounterClockwise(g));
  }

  /** The six transforms, as data, for the loop that all of them share. */
  datatype Transform = QuarterTurnClockwise | QuarterTurnCounterClockwise | HalfTurn
                     | MirrorLeftRight | MirrorTopBottom | MirrorDiagonal

  /** The dimensions after the transform: the quarter turns and the transpose swap them. */
  function TransformedCols(t: Transform, w: nat, h: nat): nat
  {
    if t.QuarterTurnClockwise? || t.QuarterTurnCounterClockwise? || t.MirrorDiagonal? then h else w
  }

  function TransformedRows(t: Transform, w: nat, h: nat): nat
  {
    if t.QuarterTurnClockwise? || t.QuarterTurnCounterClockwise? || t.MirrorDiagonal? then w else h
  }

  /** Where the value at (x, y) of a w × h grid goes. */
  function Target(t: Transform, w: int, h: int, x: int, y: int): Point
  {
    match t
    case QuarterTurnClockwise => Point(h - 1 - y, x)
    case QuarterTurnCounterClockwise => Point(y, w - 1 - x)
    case HalfTurn => Point(w - 1 - x, h - 1 - y)
    case MirrorLeftRight => Point(w - 1 - x, y)
    case MirrorTopBottom => Point(x, h - 1 - y)
    case MirrorDiagonal => Point(y, x)
  }

  /** Where the value at (x, y) of the transformed grid comes from. */
  function Source(t: Transform, w: int, h: int, x: int, y: int): Point
  {
    match t
    case QuarterTurnClockwise => Point(y, h - 1 - x)
    case QuarterTurnCounterClockwise => Point(w - 1 - y, x)
    case HalfTurn => Point(w - 1 - x, h - 1 - y)
    case MirrorLeftRight => Point(w - 1 - x, y)
    case MirrorTopBottom => Point(x, h - 1 - y)
    case MirrorDiagonal => Point(y, x)
  }

  /** `Target` is a bijection from the old positions onto the new ones, with inverse `Source`. */
  lemma TargetBijection(t: Transform, w: nat, h: nat)
    ensures forall x, y :: 0 <= x < w && 0 <= y < h ==>
      var p := Target(t, w, h, x, y);
      0 <= p.x < TransformedCols(t, w, h) && 0 <= p.y < TransformedRows(t, w, h) && Source(t, w, h, p.x, p.y) == Point(x, y)
    ensures forall x, y :: 0 <= x < TransformedCols(t, w, h) && 0 <= y < TransformedRows(t, w, h) ==>
      var p := Source(t, w, h, x, y);
      0 <= p.x < w && 0 <= p.y < h && Target(t, w, h, p.x, p.y) == Point(x, y)
  {
    forall x, y | 0 <= x < w && 0 <= y < h
      ensures var p := Target(t, w, h, x, y);
        0 <= p.x < TransformedCols(t, w, h) && 0 <= p.y < TransformedRows(t, w, h) && Source(t, w, h, p.x, p.y) == Point(x, y)
    {
      TargetAt(t, w, h, x, y);
    }
    forall x, y | 0 <= x < TransformedCols(t, w, h) && 0 <= y < TransformedRows(t, w, h)
      ensures var p := Source(t, w, h, x, y); 0 <= p.x < w && 0 <= p.y < h && Target(t, w, h, p.x, p.y) == Point(x, y)
    {
      SourceAt(t, w, h, x, y);
    }
  }

  lemma TargetAt(t: Transform, w: nat, h: nat, x: int, y: int)
    requires 0 <= x < w && 0 <= y < h
    ensures var p := Target(t, w, h, x, y);
      0 <= p.x < TransformedCols(t, w, h) && 0 <= p.y < TransformedRows(t, w, h) && Source(t, w, h, p.x, p.y) == Point(x, y)
  {
  }

  lemma SourceAt(t: Transform, w: nat, h: nat, x: int, y: int)
    requires 0 <= x < TransformedCols(t, w, h) && 0 <= y < TransformedRows(t, w, h)
    ensures var p := Source(t, w, h, x, y); 0 <= p.x < w && 0 <= p.y < h && Target(t, w, h, p.x, p.y) == Point(x, y)
  {
  }

  /** The transform a `Transform` names. */
  function Apply<T>(t: Transform, g: Grid<T>): (r: Grid<T>)
    requires g.Valid()
    ensures r.Valid() && r.cols == TransformedCols(t, g.cols, g.rows) && r.rows == TransformedRows(t, g.cols, g.rows)
    ensures forall x, y :: g.InBounds(x, y) ==>
      var p := Target(t, g.cols, g.rows, x, y);
      r.InBounds(p.x, p.y) && r.Get(p.x, p.y) == g.Get(x, y)
  {
    match t
    case QuarterTurnClockwise => RotateClockwise(g)
    case QuarterTurnCounterClockwise => RotateCounterClockwise(g)
    case HalfTurn => Rotate180Degree(g)
    case MirrorLeftRight => FlipHorizontal(g)
    case MirrorTopBottom => FlipVertical(g)
    case MirrorDiagonal => Transpose(g)
  }

  /** Read backwards: each cell of the transformed grid holds the value at its source position. */
  lemma ApplyAtSource<T>(t: Transform, g: Grid<T>)
    requires g.Valid()
    ensures forall x, y :: Apply(t, g).InBounds(x, y) ==>
      var p := Source(t, g.cols, g.rows, x, y);
      g.InBounds(p.x, p.y) && Apply(t, g).Get(x, y) == g.Get(p.x, p.y)
  {
    var r := Apply(t, g);
    TargetBijection(t, g.cols, g.rows);
    forall x, y | r.InBounds(x, y)
      ensures var p := Source(t, g.cols, g.rows, x, y); g.InBounds(p.x, p.y) && r.Get(x, y) == g.Get(p.x, p.y)
    {
      var p := Source(t, g.cols, g.rows, x, y);
      assert Target(t, g.cols, g.rows, p.x, p.y) == Point(x, y);
    }
  }

  // ---------------------------------------------------------------------------
  // Rectangles.
  // ---------------------------------------------------------------------------

  /** The inclusive rectangle from `s` to `e` lies inside the grid and is not empty. */
  predicate RectInside<T>(g: Grid<T>, s: Point, e: Point)
  {
    0 <= s.x <= e.x < g.cols && 0 <= s.y <= e.y < g.rows
  }

  /** The values of the rectangle `s`..`e`, re-indexed so that `s` becomes (0, 0). */
  function SubGrid<T>(g: Grid<T>, s: Point, e: Point): (r: Grid<T>)
    requires g.Valid() && RectInside(g, s, e)
    ensures r.Valid() && r.cols == e.x - s.x + 1 && r.rows == e.y - s.y + 1
    ensures forall x, y :: r.InBounds(x, y) ==> r.Get(x, y) == g.Get(s.x + x, s.y + y)
  {
    Grid(e.x - s.x + 1, e.y - s.y + 1,
      seq(e.y - s.y + 1, y requires 0 <= y < e.y - s.y + 1 =>
        seq(e.x - s.x + 1, x requires 0 <= x < e.x - s.x + 1 => g.at[s.y + y][s.x + x])))
  }

  /** `h` placed with its (0, 0) at `p` fits inside `g`. */
  predicate Fits<T>(g: Grid<T>, p: Point, h: Grid<T>)
  {
    0 <= p.x && p.x + h.cols <= g.cols && 0 <= p.y && p.y + h.rows <= g.rows
  }

  /**
   * `g` with the values of `h` written over the cells at `p` + (x, y); the parts of `h` that
   * fall outside `g` are dropped.
   */
  function Overlay<T>(g: Grid<T>, p: Point, h: Grid<T>): (r: Grid<T>)
    requires g.Valid() && h.Valid()
    ensures r.Valid() && r.cols == g.cols && r.rows == g.rows
    ensures forall x, y :: g.InBounds(x, y) ==>
      r.Get(x, y) == if h.InBounds(x - p.x, y - p.y) then h.Get(x - p.x, y - p.y) else g.Get(x, y)
  {
    Grid(g.cols, g.rows,
      seq(g.rows, y requires 0 <= y < g.rows =>
        seq(g.cols, x requires 0 <= x < g.cols =>
          if h.InBounds(x - p.x, y - p.y) then h.at[y - p.y][x - p.x] else g.at[y][x])))
  }

  /**
   * `cur` is `g` with the values of `h` at the positions in `done` written over it: the state
   * part-way through a cell-by-cell splice.
   */
  ghost predicate PartlyOverlaid<T>(g: Grid<T>, p: Point, h: Grid<T>, done: set<Point>, cur: Grid<T>)
  {
    g.Valid() && h.Valid() && cur.Valid() && cur.cols == g.cols && cur.rows == g.rows &&
    forall x, y :: g.InBounds(x, y) ==>
      cur.Get(x, y) == if Point(x - p.x, y - p.y) in done && h.InBounds(x - p.x, y - p.y)
                       then h.Get(x - p.x, y - p.y) else g.Get(x, y)
  }

  /** Writing one more value of `h` (dropped when it falls outside `g`) extends the partial splice. */
  lemma PartlyOverlaidStep<T>(g: Grid<T>, p: Point, h: Grid<T>, done: set<Point>, cur: Grid<T>, q: Point)
    requires PartlyOverlaid(g, p, h, done, cur) && h.InBounds(q.x, q.y)
    ensures PartlyOverlaid(g, p, h, done + {q}, Put(cur, q.x + p.x, q.y + p.y, h.Get(q.x, q.y)))
  {
  }

  /** Once every position of `h` is done, the partial splice is the splice. */
  lemma PartlyOverlaidDone<T>(g: Grid<T>, p: Point, h: Grid<T>, done: set<Point>, cur: Grid<T>)
    requires PartlyOverlaid(g, p, h, done, cur)
    requires forall x, y :: h.InBounds(x, y) ==> Point(x, y) in done
    ensures cur == Overlay(g, p, h)
  {
    GridExt(cur, Overlay(g, p, h));
  }

  /** Splicing overwrites exactly the covered cells, and cutting the same rectangle out gives back what was spliced. */
  lemma OverlayThenSubGrid<T>(g: Grid<T>, p: Point, h: Grid<T>)
    requires g.Valid() && h.Valid() && Fits(g, p, h) && h.cols > 0 && h.rows > 0
    ensures SubGrid(Overlay(g, p, h), p, Point(p.x + h.cols - 1, p.y + h.rows - 1)) == h
  {
    var r := Overlay(g, p, h);
    var s := SubGrid(r, p, Point(p.x + h.cols - 1, p.y + h.rows - 1));
    forall x, y | h.InBounds(x, y) ensures s.Get(x, y) == h.Get(x, y) {
      assert r.Get(p.x + x, p.y + y) == h.Get(x, y);
    }
    GridExt(s, h);
  }

  /** Splicing back a rectangle cut out of the same place changes nothing. */
  lemma SubGridThenOverlay<T>(g: Grid<T>, s: Point, e: Point)
    requires g.Valid() && RectInside(g, s, e)
    ensures Overlay(g, s, SubGrid(g, s, e)) == g
  {
    var h := SubGrid(g, s, e);
    var r := Overlay(g, s, h);
    forall x, y | g.InBounds(x, y) ensures r.Get(x, y) == g.Get(x, y) {
      SubGridOverlayAt(g, s, e, h, r, x, y);
    }
    GridExt(r, g);
  }

  lemma SubGridOverlayAt<T>(g: Grid<T>, s: Point, e: Point, h: Grid<T>, r: Grid<T>, x: int, y: int)
    requires g.Valid() && RectInside(g, s, e) && h == SubGrid(g, s, e) && r == Overlay(g, s, h)
    requires g.InBounds(x, y)
    ensures r.Get(x, y) == g.Get(x, y)
  {
    var i, j := x - s.x, y - s.y;
    if h.InBounds(i, j) {
      assert h.Get(i, j) == g.Get(s.x + i, s.y + j);
    }
  }

  /** `f` applied to every value. */
  function MapGrid<T, U>(g: Grid<T>, f: T -> U): (r: Grid<U>)
    requires g.Valid()
    ensures r.Valid() && r.cols == g.cols && r.rows == g.rows
    ensures forall x, y :: g.InBounds(x, y) ==> r.Get(x, y) == f(g.Get(x, y))
  {
    Grid(g.cols, g.rows,
      seq(g.rows, y requires 0 <= y < g.rows =>
        seq(g.cols, x requires 0 <= x < g.cols => f(g.at[y][x]))))
  }

  /**
   * The cells of the inclusive rectangle `s`..`e` column by column, each column top to
   * bottom (the order of `GetCellsInRange`); empty when `s.x > e.x`.
   */
  function ColumnMajor<T>(g: Grid<T>, s: Point, e: Point): seq<T>
    requires g.Valid()
    requires s.x > e.x || (0 <= s.x && e.x < g.cols && 0 <= s.y <= e.y + 1 && e.y < g.rows)
    decreases e.x - s.x
  {
    if s.x > e.x then []
    else
      assert 0 <= s.x < g.cols;
      ColumnMajor(g, s, Point(e.x - 1, e.y)) + ColsOf(g)[e.x][s.y..e.y + 1]
  }

  /** The rectangle's cells are exactly the values at its positions, and there are width × height of them. */
  lemma {:induction false} ColumnMajorLength<T>(g: Grid<T>, s: Point, e: Point)
    requires g.Valid()
    requires s.x > e.x || (0 <= s.x && e.x < g.cols && 0 <= s.y <= e.y + 1 && e.y < g.rows)
    ensures |ColumnMajor(g, s, e)| == if s.x > e.x then 0 else (e.x - s.x + 1) * (e.y - s.y + 1)
    decreases e.x - s.x
  {
    if s.x <= e.x {
      ColumnMajorLength(g, s, Point(e.x - 1, e.y));
      assert (e.x - 1 - s.x + 1) * (e.y - s.y + 1) + (e.y - s.y + 1) == (e.x - s.x + 1) * (e.y - s.y + 1);
    }
  }

  /** Every value inside the rectangle is among its cells. */
  lemma {:induction false} ColumnMajorHas<T>(g: Grid<T>, s: Point, e: Point, x: int, y: int)
    requires g.Valid() && 0 <= s.x && e.x < g.cols && 0 <= s.y <= e.y + 1 && e.y < g.rows
    requires s.x <= x <= e.x && s.y <= y <= e.y
    ensures g.Get(x, y) in ColumnMajor(g, s, e)
    decreases e.x - s.x
  {
    var e' := Point(e.x - 1, e.y);
    if x == e.x {
      assert ColsOf(g)[e.x][s.y..e.y + 1][y - s.y] == g.Get(x, y);
    } else {
      ColumnMajorHas(g, s, e', x, y);
    }
  }

  /** Every cell of the rectangle's list is the value at some position inside it. */
  lemma {:induction false} ColumnMajorFrom<T>(g: Grid<T>, s: Point, e: Point, v: T) returns (x: int, y: int)
    requires g.Valid()
    requires s.x > e.x || (0 <= s.x && e.x < g.cols && 0 <= s.y <= e.y + 1 && e.y < g.rows)
    requires v in ColumnMajor(g, s, e)
    ensures s.x <= x <= e.x && s.y <= y <= e.y && g.InBounds(x, y) && g.Get(x, y) == v
    decreases e.x - s.x
  {
    var e' := Point(e.x - 1, e.y);
    var col := ColsOf(g)[e.x][s.y..e.y + 1];
    if v in col {
      var k :| 0 <= k < |col| && col[k] == v;
      x, y := e.x, s.y + k;
    } else {
      x, y := ColumnMajorFrom(g, s, e', v);
    }
  }

  // ---------------------------------------------------------------------------
  // Views.
  // ---------------------------------------------------------------------------

  /** The rows, top to bottom, each left to right. */
  function RowsOf<T>(g: Grid<T>): seq<seq<T>>
  {
    g.at
  }

  /** The columns, left to right, each top to bottom. */
  function ColsOf<T>(g: Grid<T>): (c: seq<seq<T>>)
    requires g.Valid()
    ensures |c| == g.cols && forall x :: 0 <= x < g.cols ==> |c[x]| == g.rows
    ensures forall x, y :: g.InBounds(x, y) ==> c[x][y] == g.Get(x, y)
  {
    seq(g.cols, x requires 0 <= x < g.cols => seq(g.rows, y requires 0 <= y < g.rows => g.at[y][x]))
  }

  /** The concatenation of a list of lists. */
  function Concat<T>(ss: seq<seq<T>>): seq<T>
  {
    if |ss| == 0 then [] else Concat(ss[..|ss| - 1]) + ss[|ss| - 1]
  }

  /** Every element of the concatenation comes from one of the lists, and back. */
  lemma {:induction false} ConcatMembers<T>(ss: seq<seq<T>>, v: T)
    ensures v in Concat(ss) <==> exists i, j :: 0 <= i < |ss| && 0 <= j < |ss[i]| && ss[i][j] == v
  {
    if |ss| > 0 {
      ConcatMembers(ss[..|ss| - 1], v);
      var last := ss[|ss| - 1];
      if v in last {
        var j :| 0 <= j < |last| && last[j] == v;
        assert ss[|ss| - 1][j] == v;
      }
      if exists i, j :: 0 <= i < |ss| && 0 <= j < |ss[i]| && ss[i][j] == v {
        var i, j :| 0 <= i < |ss| && 0 <= j < |ss[i]| && ss[i][j] == v;
        if i < |ss| - 1 {
          assert ss[..|ss| - 1][i][j] == v;
        }
      }
    }
  }

  /** The length of a concatenation of equally long lists. */
  lemma {:induction false} ConcatLength<T>(ss: seq<seq<T>>, n: nat)
    requires forall i :: 0 <= i < |ss| ==> |ss[i]| == n
    ensures |Concat(ss)| == |ss| * n
  {
    if |ss| > 0 {
      ConcatLength(ss[..|ss| - 1], n);
    }
  }

  /** All cells in row-major order: the rows concatenated. */
  function CellsOf<T>(g: Grid<T>): seq<T>
  {
    Concat(g.at)
  }

  lemma CellsOfMembers<T>(g: Grid<T>, v: T)
    requires g.Valid()
    ensures |CellsOf(g)| == g.cols * g.rows
    ensures v in CellsOf(g) <==> exists x, y :: g.InBounds(x, y) && g.Get(x, y) == v
  {
    ConcatLength(g.at, g.cols);
    ConcatMembers(g.at, v);
    if exists i, j :: 0 <= i < |g.at| && 0 <= j < |g.at[i]| && g.at[i][j] == v {
      var i, j :| 0 <= i < |g.at| && 0 <= j < |g.at[i]| && g.at[i][j] == v;
      assert g.InBounds(j, i) && g.Get(j, i) == v;
    }
  }

  // ---------------------------------------------------------------------------
  // Neighbourhoods.
  // ---------------------------------------------------------------------------

  datatype TouchingMode = Horizontal | Vertical | HorizontalAndVertical | Diagonal | All

  /** The offsets of each mode, in the order of the `Directions` table. */
  function Directions(mode: TouchingMode): (d: seq<Point>)
    ensures forall i :: 0 <= i < |d| ==> d[i] != Origin && Abs(d[i].x) <= 1 && Abs(d[i].y) <= 1
  {
    match mode
    case Horizontal => [Point(-1, 0), Point(1, 0)]
    case Vertical => [Point(0, -1), Point(0, 1)]
    case HorizontalAndVertical => [Point(-1, 0), Point(1, 0), Point(0, -1), Point(0, 1)]
    case Diagonal => [Point(-1, -1), Point(1, 1), Point(-1, 1), Point(1, -1)]
    case All => [Point(-1, -1), Point(0, -1), Point(1, -1), Point(-1, 0), Point(1, 0), Point(-1, 1), Point(0, 1), Point(1, 1)]
  }

  /** Each table lists distinct offsets and is closed under negation, so "touching" is symmetric. */
  lemma DirectionsShape(mode: TouchingMode)
    ensures |Directions(mode)| == match mode
      case Horizontal => 2 case Vertical => 2 case HorizontalAndVertical => 4 case Diagonal => 4 case All => 8
    ensures forall i, j :: 0 <= i < j < |Directions(mode)| ==> Directions(mode)[i] != Directions(mode)[j]
    ensures forall d :: d in Directions(mode) ==> Point(-d.x, -d.y) in Directions(mode)
  {
  }

  lemma DirectionsNegation(mode: TouchingMode, d: Point)
    requires d in Directions(mode)
    ensures Point(-d.x, -d.y) in Directions(mode)
  {
  }

  /** The in-grid positions p + d for the offsets d of `mode`, in table order (the filtering of `GetNeighbours`). */
  function NeighbourPositions<T>(g: Grid<T>, p: Point, mode: TouchingMode): seq<Point>
  {
    FilterInBounds(g, p, Directions(mode))
  }

  function FilterInBounds<T>(g: Grid<T>, p: Point, ds: seq<Point>): (r: seq<Point>)
    ensures |r| <= |ds|
    ensures forall k :: 0 <= k < |r| ==> g.InBounds(r[k].x, r[k].y)
  {
    if |ds| == 0 then []
    else if g.InBounds(p.x + ds[0].x, p.y + ds[0].y) then [Add(p, ds[0])] + FilterInBounds(g, p, ds[1..])
    else FilterInBounds(g, p, ds[1..])
  }

  /** Exactly the in-grid translates of the offsets are kept. */
  lemma {:induction false} FilterInBoundsMembers<T>(g: Grid<T>, p: Point, ds: seq<Point>, q: Point)
    ensures q in FilterInBounds(g, p, ds) <==> exists d :: d in ds && q == Add(p, d) && g.InBounds(q.x, q.y)
  {
    if |ds| > 0 {
      FilterInBoundsMembers(g, p, ds[1..], q);
      assert forall d :: d in ds <==> d == ds[0] || d in ds[1..];
    }
  }

  /** An offset whose translate is on the grid contributes that translate. */
  lemma {:induction false} FilterInBoundsKeeps<T>(g: Grid<T>, p: Point, ds: seq<Point>, d: Point)
    requires d in ds && g.InBounds(p.x + d.x, p.y + d.y)
    ensures Add(p, d) in FilterInBounds(g, p, ds)
  {
    if ds[0] != d {
      FilterInBoundsKeeps(g, p, ds[1..], d);
    }
  }

  /** Every kept position is the translate of one of the offsets. */
  lemma {:induction false} FilterInBoundsWitness<T>(g: Grid<T>, p: Point, ds: seq<Point>, q: Point) returns (d: Point)
    requires q in FilterInBounds(g, p, ds)
    ensures d in ds && q == Add(p, d)
  {
    if g.InBounds(p.x + ds[0].x, p.y + ds[0].y) && q == Add(p, ds[0]) {
      d := ds[0];
    } else {
      d := FilterInBoundsWitness(g, p, ds[1..], q);
    }
  }

  /** Scanning one more offset appends its target exactly when it is on the grid (the loop's view of the filter). */
  lemma {:induction false} FilterInBoundsSnoc<T>(g: Grid<T>, p: Point, ds: seq<Point>, d: Point)
    ensures FilterInBounds(g, p, ds + [d]) ==
      FilterInBounds(g, p, ds) + (if g.InBounds(p.x + d.x, p.y + d.y) then [Add(p, d)] else [])
  {
    if |ds| > 0 {
      assert (ds + [d])[1..] == ds[1..] + [d];
      FilterInBoundsSnoc(g, p, ds[1..], d);
    }
  }

  /** `FilterInBoundsSnoc` for the prefixes of one list of offsets. */
  lemma FilterInBoundsPrefix<T>(g: Grid<T>, p: Point, ds: seq<Point>, i: nat)
    requires i < |ds|
    ensures FilterInBounds(g, p, ds[..i + 1]) ==
      FilterInBounds(g, p, ds[..i]) + (if g.InBounds(p.x + ds[i].x, p.y + ds[i].y) then [Add(p, ds[i])] else [])
  {
    assert ds[..i + 1] == ds[..i] + [ds[i]];
    FilterInBoundsSnoc(g, p, ds[..i], ds[i]);
  }

  /** The values at a list of on-grid positions, in that order. */
  function ValuesAt<T>(g: Grid<T>, ps: seq<Point>): (r: seq<T>)
    requires g.Valid() && forall k :: 0 <= k < |ps| ==> g.InBounds(ps[k].x, ps[k].y)
    ensures |r| == |ps| && forall k :: 0 <= k < |ps| ==> r[k] == g.Get(ps[k].x, ps[k].y)
  {
    seq(|ps|, k requires 0 <= k < |ps| => g.Get(ps[k].x, ps[k].y))
  }

  lemma ValuesAtSnoc<T>(g: Grid<T>, ps: seq<Point>, p: Point)
    requires g.Valid() && g.InBounds(p.x, p.y) && forall k :: 0 <= k < |ps| ==> g.InBounds(ps[k].x, ps[k].y)
    ensures ValuesAt(g, ps + [p]) == ValuesAt(g, ps) + [g.Get(p.x, p.y)]
  {
  }

  /** Neighbourhood is symmetric: q touches p exactly when p touches q. */
  lemma NeighboursSymmetric<T>(g: Grid<T>, p: Point, q: Point, mode: TouchingMode)
    requires g.InBounds(p.x, p.y) && g.InBounds(q.x, q.y)
    ensures q in NeighbourPositions(g, p, mode) <==> p in NeighbourPositions(g, q, mode)
  {
    var ds := Directions(mode);
    if q in NeighbourPositions(g, p, mode) {
      var d := FilterInBoundsWitness(g, p, ds, q);
      DirectionsNegation(mode, d);
      FilterInBoundsKeeps(g, q, ds, Point(-d.x, -d.y));
      assert Add(q, Point(-d.x, -d.y)) == p;
    }
    if p in NeighbourPositions(g, q, mode) {
      var d := FilterInBoundsWitness(g, q, ds, p);
      DirectionsNegation(mode, d);
      FilterInBoundsKeeps(g, p, ds, Point(-d.x, -d.y));
      assert Add(p, Point(-d.x, -d.y)) == q;
    }
  }

  /** A corner cell of a grid at least 2 × 2 has exactly three neighbours in mode All. */
  lemma CornerHasThreeNeighbours<T>(g: Grid<T>)
    requires g.cols >= 2 && g.rows >= 2
    ensures NeighbourPositions(g, Point(0, 0), All) == [Point(1, 0), Point(0, 1), Point(1, 1)]
  {
    var ds := Directions(All);
    var o := Point(0, 0);
    assert FilterInBounds(g, o, ds[8..]) == [];
    assert FilterInBounds(g, o, ds[7..]) == [Point(1, 1)];
    assert FilterInBounds(g, o, ds[6..]) == [Point(0, 1), Point(1, 1)];
    assert FilterInBounds(g, o, ds[5..]) == FilterInBounds(g, o, ds[6..]);
    assert FilterInBounds(g, o, ds[4..]) == [Point(1, 0), Point(0, 1), Point(1, 1)];
    assert FilterInBounds(g, o, ds[3..]) == FilterInBounds(g, o, ds[4..]);
    assert FilterInBounds(g, o, ds[2..]) == FilterInBounds(g, o, ds[3..]);
    assert FilterInBounds(g, o, ds[1..]) == FilterInBounds(g, o, ds[2..]);
    assert ds[1..][1..] == ds[2..];
  }
}

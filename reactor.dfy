/**
 * Day 22, "Reactor Reboot" (AdventOfCode2021/Solver/Day22.cs): cuboids of cubes are switched on
 * and off; the lit region is kept as a list of pairwise disjoint ON boxes that every new
 * instruction splits, hollows out and merges.
 */
module Reactor {
  import opened Wrappers

  /** A cube position. */
  datatype Point3 = Point3(x: int, y: int, z: int)
  {
    function At(axis: nat): int
      requires axis < 3
    {
      if axis == 0 then x else if axis == 1 then y else z
    }
  }

  /**
   * `RebootInstructionBox`: a state and the inclusive coordinate range on each axis (axis 0 is
   * x, 1 is y, 2 is z).
   */
  datatype Box = Box(state: bool, xMin: int, xMax: int, yMin: int, yMax: int, zMin: int, zMax: int)
  {
    function Min(axis: nat): int
      requires axis < 3
    {
      if axis == 0 then xMin else if axis == 1 then yMin else zMin
    }

    function Max(axis: nat): int
      requires axis < 3
    {
      if axis == 0 then xMax else if axis == 1 then yMax else zMax
    }
  }

  /** Every range of the box is non-empty, as for every box read from the puzzle. */
  predicate ValidBox(b: Box)
  {
    b.xMin <= b.xMax && b.yMin <= b.yMax && b.zMin <= b.zMax
  }

  predicate Contains(b: Box, p: Point3)
  {
    b.xMin <= p.x <= b.xMax && b.yMin <= p.y <= b.yMax && b.zMin <= p.z <= b.zMax
  }

  /** The box b with the range on one axis replaced. */
  function WithRange(b: Box, axis: nat, lo: int, hi: int): (r: Box)
    requires axis < 3
    ensures r.state == b.state && r.Min(axis) == lo && r.Max(axis) == hi
    ensures forall a :: 0 <= a < 3 && a != axis ==> r.Min(a) == b.Min(a) && r.Max(a) == b.Max(a)
  {
    if axis == 0 then b.(xMin := lo, xMax := hi)
    else if axis == 1 then b.(yMin := lo, yMax := hi)
    else b.(zMin := lo, zMax := hi)
  }

  /** Lines 183-192: the number of cubes in the box. */
  function Units(b: Box): (r: int)
    ensures ValidBox(b) ==> r >= 1
  {
    var dx, dy, dz := b.xMax - b.xMin + 1, b.yMax - b.yMin + 1, b.zMax - b.zMin + 1;
    assert ValidBox(b) ==> dx * dy * dz >= 1 by {
      if ValidBox(b) {
        PositiveProduct(dx, dy);
        PositiveProduct(dx * dy, dz);
      }
    }
    dx * dy * dz
  }

  lemma PositiveProduct(a: int, b: int)
    requires a >= 1 && b >= 1
    ensures a * b >= 1
  {
  }

  /** Lines 246-251: the ranges meet on all three axes. */
  predicate IsOverlapping(b: Box, c: Box)
  {
    !(b.xMax < c.xMin || b.xMin > c.xMax || b.yMax < c.yMin || b.yMin > c.yMax || b.zMax < c.zMin || b.zMin > c.zMax)
  }

  /** Lines 280-285: every range of b lies within the range of c on the same axis. */
  predicate IsFullyInside(b: Box, c: Box)
  {
    b.xMin >= c.xMin && b.xMax <= c.xMax && b.yMin >= c.yMin && b.yMax <= c.yMax && b.zMin >= c.zMin && b.zMax <= c.zMax
  }

  /** Lines 253-259: equality compares the six coordinates and ignores the state. */
  predicate SameExtent(b: Box, c: Box)
  {
    b.xMin == c.xMin && b.xMax == c.xMax && b.yMin == c.yMin && b.yMax == c.yMax && b.zMin == c.zMin && b.zMax == c.zMax
  }

  /** Two non-empty boxes overlap exactly when some cube lies in both. */
  lemma OverlapMeansCommonCube(b: Box, c: Box)
    requires ValidBox(b) && ValidBox(c)
    ensures IsOverlapping(b, c) <==> exists p :: Contains(b, p) && Contains(c, p)
  {
    if IsOverlapping(b, c) {
      var p := Point3(Larger(b.xMin, c.xMin), Larger(b.yMin, c.yMin), Larger(b.zMin, c.zMin));
      assert Contains(b, p) && Contains(c, p);
    }
  }

  /** A non-empty box is fully inside another exactly when each of its cubes is. */
  lemma InsideMeansEveryCube(b: Box, c: Box)
    requires ValidBox(b)
    ensures IsFullyInside(b, c) <==> forall p :: Contains(b, p) ==> Contains(c, p)
  {
    if !IsFullyInside(b, c) {
      var lo := Point3(b.xMin, b.yMin, b.zMin);
      var hi := Point3(b.xMax, b.yMax, b.zMax);
      assert Contains(b, lo) && Contains(b, hi);
      assert !Contains(c, lo) || !Contains(c, hi);
    }
  }

  /** Equal extents hold the same cubes. */
  lemma SameExtentSameCubes(b: Box, c: Box, p: Point3)
    requires SameExtent(b, c)
    ensures Contains(b, p) <==> Contains(c, p)
    ensures Units(b) == Units(c)
  {
  }

  /** The cubes of a box in one layer across an axis: the product of the two other sizes. */
  function Cross(b: Box, axis: nat): int
    requires axis < 3
  {
    if axis == 0 then (b.yMax - b.yMin + 1) * (b.zMax - b.zMin + 1)
    else if axis == 1 then (b.xMax - b.xMin + 1) * (b.zMax - b.zMin + 1)
    else (b.xMax - b.xMin + 1) * (b.yMax - b.yMin + 1)
  }

  /** A box's count is its size along any axis times the layer across it. */
  lemma UnitsAlong(b: Box, axis: nat)
    requires axis < 3
    ensures Units(b) == (b.Max(axis) - b.Min(axis) + 1) * Cross(b, axis)
  {
    var sx, sy, sz := b.xMax - b.xMin + 1, b.yMax - b.yMin + 1, b.zMax - b.zMin + 1;
    assert Units(b) == sx * sy * sz;
    if axis == 1 {
      assert sx * sy * sz == sy * (sx * sz);
    } else if axis == 2 {
      assert sx * sy * sz == sz * (sx * sy);
    }
  }

  /** Changing one axis's range leaves the layer across that axis as it was. */
  lemma CrossOfWithRange(b: Box, axis: nat, lo: int, hi: int)
    requires axis < 3
    ensures Cross(WithRange(b, axis, lo, hi), axis) == Cross(b, axis)
  {
  }

  /** The range of `piece` on the axis lies within the range of `cut` there. */
  predicate AxisInside(piece: Box, cut: Box, axis: nat)
    requires axis < 3
  {
    cut.Min(axis) <= piece.Min(axis) && piece.Max(axis) <= cut.Max(axis)
  }

  /**
   * Lines 194-244: the box cut at the cutting box's two faces across one axis. A box the cut
   * does not overlap comes back whole; otherwise the part below the cut (if any), the part
   * above it (if any) and the part within it, in that order.
   */
  function SplitBox(b: Box, cut: Box, axis: nat): (r: seq<Box>)
    requires axis < 3
    ensures 1 <= |r| <= 3
  {
    if Missed(b, cut, axis) then [b]
    else LowPart(b, cut, axis) + HighPart(b, cut, axis) + [MidPart(b, cut, axis)]
  }

  /** Line 203: the cases in which the box is not cut. */
  predicate Missed(b: Box, cut: Box, axis: nat)
    requires axis < 3
  {
    cut.Max(axis) < b.Min(axis) || cut.Min(axis) > b.Max(axis) || !IsOverlapping(b, cut)
  }

  /** Line 210: the lower face of the cut falls strictly inside the box. */
  predicate CutLow(b: Box, cut: Box, axis: nat)
    requires axis < 3
  {
    cut.Min(axis) > b.Min(axis) && cut.Min(axis) <= b.Max(axis)
  }

  /** Line 219: the lower end of what is left after the lower cut. */
  function MidMin(b: Box, cut: Box, axis: nat): int
    requires axis < 3
  {
    if CutLow(b, cut, axis) then cut.Min(axis) else b.Min(axis)
  }

  /** Line 223: the upper face of the cut falls strictly inside what is left. */
  predicate CutHigh(b: Box, cut: Box, axis: nat)
    requires axis < 3
  {
    cut.Max(axis) >= MidMin(b, cut, axis) && cut.Max(axis) < b.Max(axis)
  }

  /** Line 232: the upper end of what is left after the upper cut. */
  function MidMax(b: Box, cut: Box, axis: nat): int
    requires axis < 3
  {
    if CutHigh(b, cut, axis) then cut.Max(axis) else b.Max(axis)
  }

  /** Lines 210-220: the part below the cut, if the cut's lower face falls inside the box. */
  function LowPart(b: Box, cut: Box, axis: nat): seq<Box>
    requires axis < 3
  {
    if CutLow(b, cut, axis) then [WithRange(b, axis, b.Min(axis), cut.Min(axis) - 1)] else []
  }

  /** Lines 223-233: the part above the cut, if the cut's upper face falls inside the rest. */
  function HighPart(b: Box, cut: Box, axis: nat): seq<Box>
    requires axis < 3
  {
    if CutHigh(b, cut, axis) then [WithRange(b, axis, cut.Max(axis) + 1, b.Max(axis))] else []
  }

  /** Lines 236-243: what is left between the cuts. */
  function MidPart(b: Box, cut: Box, axis: nat): Box
    requires axis < 3
  {
    WithRange(b, axis, MidMin(b, cut, axis), MidMax(b, cut, axis))
  }

  /** The number of cubes over a list of boxes (`InfiniteSpace.NbrOfUnit`, line 51). */
  function TotalUnits(s: seq<Box>): int
  {
    if |s| == 0 then 0 else TotalUnits(s[..|s| - 1]) + Units(s[|s| - 1])
  }

  lemma {:induction false} TotalConcat(s: seq<Box>, t: seq<Box>)
    ensures TotalUnits(s + t) == TotalUnits(s) + TotalUnits(t)
    decreases |t|
  {
    if |t| > 0 {
      assert (s + t)[..|s + t| - 1] == s + t[..|t| - 1];
      assert (s + t)[|s + t| - 1] == t[|t| - 1];
      TotalConcat(s, t[..|t| - 1]);
      assert TotalUnits(s + t) == TotalUnits(s + t[..|t| - 1]) + Units(t[|t| - 1]);
      assert TotalUnits(t) == TotalUnits(t[..|t| - 1]) + Units(t[|t| - 1]);
    } else {
      assert s + t == s;
    }
  }

  /** A box the cut does not overlap is left whole. */
  lemma SplitBoxMissed(b: Box, cut: Box, axis: nat)
    requires axis < 3 && !IsOverlapping(b, cut)
    ensures SplitBox(b, cut, axis) == [b]
  {
  }

  /** A box with one range replaced holds that range's size times the layer across it. */
  lemma PieceUnits(b: Box, axis: nat, lo: int, hi: int)
    requires axis < 3
    ensures Units(WithRange(b, axis, lo, hi)) == (hi - lo + 1) * Cross(b, axis)
  {
    UnitsAlong(WithRange(b, axis, lo, hi), axis);
    CrossOfWithRange(b, axis, lo, hi);
  }

  lemma Distribute(l: int, h: int, m: int, c: int)
    ensures l * c + h * c + m * c == (l + h + m) * c
  {
  }

  /** The pieces of a non-empty box are non-empty. */
  lemma SplitBoxValid(b: Box, cut: Box, axis: nat)
    requires axis < 3 && ValidBox(b) && ValidBox(cut)
    ensures forall i :: 0 <= i < |SplitBox(b, cut, axis)| ==> ValidBox(SplitBox(b, cut, axis)[i])
  {
  }

  /** The pieces of a box hold as many cubes as the box. */
  lemma SplitBoxUnits(b: Box, cut: Box, axis: nat)
    requires axis < 3 && ValidBox(b) && ValidBox(cut)
    ensures TotalUnits(SplitBox(b, cut, axis)) == Units(b)
  {
    if !Missed(b, cut, axis) {
      var low, high, mid := LowPart(b, cut, axis), HighPart(b, cut, axis), MidPart(b, cut, axis);
      var c := Cross(b, axis);
      var l := if CutLow(b, cut, axis) then cut.Min(axis) - b.Min(axis) else 0;
      var h := if CutHigh(b, cut, axis) then b.Max(axis) - cut.Max(axis) else 0;
      var m := MidMax(b, cut, axis) - MidMin(b, cut, axis) + 1;
      PieceUnits(b, axis, MidMin(b, cut, axis), MidMax(b, cut, axis));
      if CutLow(b, cut, axis) {
        PieceUnits(b, axis, b.Min(axis), cut.Min(axis) - 1);
      }
      if CutHigh(b, cut, axis) {
        PieceUnits(b, axis, cut.Max(axis) + 1, b.Max(axis));
      }
      assert TotalUnits(low) == l * c;
      assert TotalUnits(high) == h * c;
      assert TotalUnits([mid]) == m * c;
      TotalConcat(low, high);
      TotalConcat(low + high, [mid]);
      Distribute(l, h, m, c);
      UnitsAlong(b, axis);
    }
  }

  /** Pairwise, the boxes share no cube. */
  predicate Disjoint(s: seq<Box>)
  {
    forall i, j :: 0 <= i < j < |s| ==> !IsOverlapping(s[i], s[j])
  }

  /** The cube lies in one of the boxes. */
  predicate Lit(s: seq<Box>, p: Point3)
  {
    exists i :: 0 <= i < |s| && Contains(s[i], p)
  }

  /** Every piece keeps the box's state and its ranges on the other two axes, within the box. */
  lemma SplitBoxShape(b: Box, cut: Box, axis: nat, i: nat)
    requires axis < 3 && i < |SplitBox(b, cut, axis)|
    ensures SplitBox(b, cut, axis)[i].state == b.state && IsFullyInside(SplitBox(b, cut, axis)[i], b)
    ensures forall a :: 0 <= a < 3 && a != axis ==> SplitBox(b, cut, axis)[i].Min(a) == b.Min(a) && SplitBox(b, cut, axis)[i].Max(a) == b.Max(a)
  {
  }

  /** Every piece overlapping the cut lies, on the split axis, within the cut's range. */
  lemma SplitBoxSeparates(b: Box, cut: Box, axis: nat, i: nat)
    requires axis < 3 && i < |SplitBox(b, cut, axis)|
    ensures IsOverlapping(SplitBox(b, cut, axis)[i], cut) ==> AxisInside(SplitBox(b, cut, axis)[i], cut, axis)
  {
  }

  /** A cube lies in the box exactly when it lies in one of the pieces. */
  lemma SplitBoxCovers(b: Box, cut: Box, axis: nat, p: Point3)
    requires axis < 3 && ValidBox(cut)
    ensures Contains(b, p) <==> Lit(SplitBox(b, cut, axis), p)
  {
    var r := SplitBox(b, cut, axis);
    if Contains(b, p) && !Missed(b, cut, axis) {
      var low, high := LowPart(b, cut, axis), HighPart(b, cut, axis);
      if CutLow(b, cut, axis) && p.At(axis) < cut.Min(axis) {
        assert r[0] == low[0] && Contains(r[0], p);
      } else if CutHigh(b, cut, axis) && p.At(axis) > cut.Max(axis) {
        assert r[|low|] == high[0] && Contains(r[|low|], p);
      } else {
        assert Contains(r[|r| - 1], p);
      }
    }
    if Lit(r, p) {
      var i :| 0 <= i < |r| && Contains(r[i], p);
      SplitBoxShape(b, cut, axis, i);
    }
  }

  /** The pieces of a box share no cube. */
  lemma SplitBoxDisjoint(b: Box, cut: Box, axis: nat)
    requires axis < 3 && ValidBox(cut)
    ensures Disjoint(SplitBox(b, cut, axis))
  {
  }

  predicate AllValid(s: seq<Box>)
  {
    forall i :: 0 <= i < |s| ==> ValidBox(s[i])
  }

  predicate AllOn(s: seq<Box>)
  {
    forall i :: 0 <= i < |s| ==> s[i].state
  }

  /**
   * After cutting along the first k axes: a piece that still meets the cut lies within its
   * range on each of those axes.
   */
  predicate Separated(piece: Box, cut: Box, k: nat)
  {
    IsOverlapping(piece, cut) ==> forall a :: 0 <= a < k && a < 3 ==> AxisInside(piece, cut, a)
  }

  predicate AllSeparated(s: seq<Box>, cut: Box, k: nat)
  {
    forall i :: 0 <= i < |s| ==> Separated(s[i], cut, k)
  }

  /** A piece cut from a box separated on the earlier axes is separated on this one too. */
  lemma SplitBoxSeparated(b: Box, cut: Box, axis: nat, i: nat)
    requires axis < 3 && i < |SplitBox(b, cut, axis)| && Separated(b, cut, axis)
    ensures Separated(SplitBox(b, cut, axis)[i], cut, axis + 1)
  {
    var q := SplitBox(b, cut, axis)[i];
    SplitBoxShape(b, cut, axis, i);
    SplitBoxSeparates(b, cut, axis, i);
    if IsOverlapping(q, cut) {
      assert IsOverlapping(b, cut);
      forall a | 0 <= a < axis + 1 && a < 3
        ensures AxisInside(q, cut, a)
      {
        if a < axis {
          assert AxisInside(b, cut, a);
          assert q.Min(a) == b.Min(a) && q.Max(a) == b.Max(a);
        }
      }
    }
  }

  /** Lines 86-91: every box of the list cut across one axis, the pieces kept in list order. */
  function SplitAll(s: seq<Box>, cut: Box, axis: nat): seq<Box>
    requires axis < 3
  {
    if |s| == 0 then [] else SplitAll(s[..|s| - 1], cut, axis) + SplitBox(s[|s| - 1], cut, axis)
  }

  lemma {:induction false} SplitAllUnits(s: seq<Box>, cut: Box, axis: nat)
    requires axis < 3 && ValidBox(cut) && AllValid(s)
    ensures AllValid(SplitAll(s, cut, axis))
    ensures TotalUnits(SplitAll(s, cut, axis)) == TotalUnits(s)
    decreases |s|
  {
    if |s| > 0 {
      var init, last := s[..|s| - 1], s[|s| - 1];
      SplitAllUnits(init, cut, axis);
      SplitBoxValid(last, cut, axis);
      SplitBoxUnits(last, cut, axis);
      TotalConcat(SplitAll(init, cut, axis), SplitBox(last, cut, axis));
    }
  }

  lemma {:induction false} SplitAllStates(s: seq<Box>, cut: Box, axis: nat)
    requires axis < 3 && AllOn(s)
    ensures AllOn(SplitAll(s, cut, axis))
    decreases |s|
  {
    if |s| > 0 {
      var init, last := s[..|s| - 1], s[|s| - 1];
      SplitAllStates(init, cut, axis);
      var r, pieces := SplitAll(init, cut, axis), SplitBox(last, cut, axis);
      forall i | 0 <= i < |pieces|
        ensures pieces[i].state
      {
        SplitBoxShape(last, cut, axis, i);
      }
      assert SplitAll(s, cut, axis) == r + pieces;
    }
  }

  lemma {:induction false} SplitAllSeparated(s: seq<Box>, cut: Box, axis: nat)
    requires axis < 3 && AllSeparated(s, cut, axis)
    ensures AllSeparated(SplitAll(s, cut, axis), cut, axis + 1)
    decreases |s|
  {
    if |s| > 0 {
      var init, last := s[..|s| - 1], s[|s| - 1];
      SplitAllSeparated(init, cut, axis);
      var r, pieces := SplitAll(init, cut, axis), SplitBox(last, cut, axis);
      forall i | 0 <= i < |pieces|
        ensures Separated(pieces[i], cut, axis + 1)
      {
        SplitBoxSeparated(last, cut, axis, i);
      }
      assert SplitAll(s, cut, axis) == r + pieces;
    }
  }

  /** A cube is in some piece exactly when it was in some box. */
  lemma {:induction false} SplitAllLit(s: seq<Box>, cut: Box, axis: nat, p: Point3)
    requires axis < 3 && ValidBox(cut)
    ensures Lit(SplitAll(s, cut, axis), p) <==> Lit(s, p)
    decreases |s|
  {
    if |s| > 0 {
      var init, last := s[..|s| - 1], s[|s| - 1];
      SplitAllLit(init, cut, axis, p);
      SplitBoxCovers(last, cut, axis, p);
      var r, pieces := SplitAll(init, cut, axis), SplitBox(last, cut, axis);
      LitConcat(r, pieces, p);
      LitLast(s, p);
    }
  }

  /** A cube is lit by a list when it is lit by all but the last box, or by the last. */
  lemma LitLast(s: seq<Box>, p: Point3)
    requires |s| > 0
    ensures Lit(s, p) <==> Lit(s[..|s| - 1], p) || Contains(s[|s| - 1], p)
  {
    if Lit(s[..|s| - 1], p) {
      var i :| 0 <= i < |s| - 1 && Contains(s[..|s| - 1][i], p);
      assert s[i] == s[..|s| - 1][i];
    }
    if Lit(s, p) && !Contains(s[|s| - 1], p) {
      var i :| 0 <= i < |s| && Contains(s[i], p);
      assert s[..|s| - 1][i] == s[i];
    }
  }

  lemma LitConcat(s: seq<Box>, t: seq<Box>, p: Point3)
    ensures Lit(s + t, p) <==> Lit(s, p) || Lit(t, p)
  {
    if Lit(s + t, p) {
      var i :| 0 <= i < |s + t| && Contains((s + t)[i], p);
      if i >= |s| {
        assert Contains(t[i - |s|], p);
      }
    }
    if Lit(t, p) {
      var j :| 0 <= j < |t| && Contains(t[j], p);
      assert (s + t)[|s| + j] == t[j];
    }
    if Lit(s, p) {
      var j :| 0 <= j < |s| && Contains(s[j], p);
      assert (s + t)[j] == s[j];
    }
  }

  /** Every piece lies within some box of the list, so a box missing them all misses every piece. */
  lemma {:induction false} SplitAllAvoids(s: seq<Box>, cut: Box, axis: nat, y: Box)
    requires axis < 3
    requires forall i :: 0 <= i < |s| ==> !IsOverlapping(y, s[i])
    ensures forall j :: 0 <= j < |SplitAll(s, cut, axis)| ==> !IsOverlapping(y, SplitAll(s, cut, axis)[j])
    decreases |s|
  {
    if |s| > 0 {
      var init, last := s[..|s| - 1], s[|s| - 1];
      SplitAllAvoids(init, cut, axis, y);
      var r, pieces := SplitAll(init, cut, axis), SplitBox(last, cut, axis);
      forall i | 0 <= i < |pieces|
        ensures !IsOverlapping(y, pieces[i])
      {
        SplitBoxShape(last, cut, axis, i);
      }
      assert SplitAll(s, cut, axis) == r + pieces;
    }
  }

  lemma {:induction false} SplitAllDisjoint(s: seq<Box>, cut: Box, axis: nat)
    requires axis < 3 && ValidBox(cut) && Disjoint(s)
    ensures Disjoint(SplitAll(s, cut, axis))
    decreases |s|
  {
    if |s| > 0 {
      var init, last := s[..|s| - 1], s[|s| - 1];
      SplitAllDisjoint(init, cut, axis);
      var r, pieces := SplitAll(init, cut, axis), SplitBox(last, cut, axis);
      SplitBoxDisjoint(last, cut, axis);
      forall j | 0 <= j < |pieces|
        ensures forall i :: 0 <= i < |r| ==> !IsOverlapping(pieces[j], r[i])
      {
        SplitBoxShape(last, cut, axis, j);
        assert forall i :: 0 <= i < |init| ==> !IsOverlapping(pieces[j], init[i]) by {
          assert forall i :: 0 <= i < |init| ==> init[i] == s[i];
        }
        SplitAllAvoids(init, cut, axis, pieces[j]);
      }
      assert SplitAll(s, cut, axis) == r + pieces;
      DisjointConcat(r, pieces);
    }
  }

  lemma DisjointConcat(s: seq<Box>, t: seq<Box>)
    requires Disjoint(s) && Disjoint(t)
    requires forall j, i :: 0 <= j < |t| && 0 <= i < |s| ==> !IsOverlapping(t[j], s[i])
    ensures Disjoint(s + t)
  {
    forall i, j | 0 <= i < j < |s + t|
      ensures !IsOverlapping((s + t)[i], (s + t)[j])
    {
      if j < |s| {
        assert (s + t)[i] == s[i] && (s + t)[j] == s[j];
      } else if i < |s| {
        assert (s + t)[i] == s[i] && (s + t)[j] == t[j - |s|];
        assert !IsOverlapping(t[j - |s|], s[i]);
      } else {
        assert (s + t)[i] == t[i - |s|] && (s + t)[j] == t[j - |s|];
      }
    }
  }

  /** Line 95: the boxes that are not fully inside the cut, in order. */
  function RemoveInside(s: seq<Box>, cut: Box): (r: seq<Box>)
    ensures forall i :: 0 <= i < |r| ==> !IsFullyInside(r[i], cut)
  {
    if |s| == 0 then []
    else if IsFullyInside(s[|s| - 1], cut) then RemoveInside(s[..|s| - 1], cut)
    else RemoveInside(s[..|s| - 1], cut) + [s[|s| - 1]]
  }

  /**
   * Removing what lies inside the cut keeps the validity, states and disjointness of the list,
   * and what remains of a list separated on all three axes misses the cut entirely.
   */
  lemma {:induction false} RemoveInsideKeeps(s: seq<Box>, cut: Box)
    requires AllValid(s) && Disjoint(s) && AllSeparated(s, cut, 3)
    ensures AllValid(RemoveInside(s, cut)) && Disjoint(RemoveInside(s, cut))
    ensures AllOn(s) ==> AllOn(RemoveInside(s, cut))
    ensures forall i :: 0 <= i < |RemoveInside(s, cut)| ==> !IsOverlapping(RemoveInside(s, cut)[i], cut)
    ensures forall i :: 0 <= i < |RemoveInside(s, cut)| ==> RemoveInside(s, cut)[i] in s
    decreases |s|
  {
    if |s| > 0 {
      var init, last := s[..|s| - 1], s[|s| - 1];
      assert AllSeparated(init, cut, 3) && Disjoint(init) by {
        assert forall i :: 0 <= i < |init| ==> init[i] == s[i];
      }
      RemoveInsideKeeps(init, cut);
      var r := RemoveInside(init, cut);
      if !IsFullyInside(last, cut) {
        SeparatedMisses(last, cut);
        forall j, i | 0 <= j < 1 && 0 <= i < |r|
          ensures !IsOverlapping([last][j], r[i])
        {
          var k :| 0 <= k < |init| && init[k] == r[i];
          assert s[k] == r[i] && s[|s| - 1] == last;
        }
        DisjointConcat(r, [last]);
      }
    }
  }

  /** A box separated on all three axes that is not inside the cut misses it. */
  lemma SeparatedMisses(b: Box, cut: Box)
    requires Separated(b, cut, 3) && !IsFullyInside(b, cut)
    ensures !IsOverlapping(b, cut)
  {
    assert IsOverlapping(b, cut) ==> AxisInside(b, cut, 0) && AxisInside(b, cut, 1) && AxisInside(b, cut, 2);
  }

  /** A cube remains lit exactly when it was lit and lies outside the cut. */
  lemma {:induction false} RemoveInsideLit(s: seq<Box>, cut: Box, p: Point3)
    requires AllValid(s) && ValidBox(cut) && AllSeparated(s, cut, 3)
    ensures Lit(RemoveInside(s, cut), p) <==> Lit(s, p) && !Contains(cut, p)
    decreases |s|
  {
    if |s| > 0 {
      var init, last := s[..|s| - 1], s[|s| - 1];
      assert AllValid(init) && AllSeparated(init, cut, 3) by {
        assert forall i :: 0 <= i < |init| ==> init[i] == s[i];
      }
      RemoveInsideLit(init, cut, p);
      LitConcat(init, [last], p);
      assert s == init + [last];
      assert Separated(last, cut, 3);
      if IsFullyInside(last, cut) {
        InsideMeansEveryCube(last, cut);
      } else {
        LitConcat(RemoveInside(init, cut), [last], p);
        SeparatedMisses(last, cut);
        OverlapMeansCommonCube(last, cut);
      }
    }
  }

  // ---------------------------------------------------------------------------------------
  // Merging touching boxes (lines 107-174)
  // ---------------------------------------------------------------------------------------

  /** Lines 141-174: the boxes agree on two axes and touch, end to end, along the third. */
  predicate CanBeMerged(b1: Box, b2: Box)
  {
    (b1.yMin == b2.yMin && b1.yMax == b2.yMax && b1.zMin == b2.zMin && b1.zMax == b2.zMax
      && (b1.xMax + 1 == b2.xMin || b2.xMax + 1 == b1.xMin))
    || (b1.xMin == b2.xMin && b1.xMax == b2.xMax && b1.zMin == b2.zMin && b1.zMax == b2.zMax
      && (b1.yMax + 1 == b2.yMin || b2.yMax + 1 == b1.yMin))
    || (b1.xMin == b2.xMin && b1.xMax == b2.xMax && b1.yMin == b2.yMin && b1.yMax == b2.yMax
      && (b1.zMax + 1 == b2.zMin || b2.zMax + 1 == b1.zMin))
  }

  /** Lines 124-131: the ON box spanning both. */
  function Combine(b1: Box, b2: Box): Box
  {
    Box(true, Smaller(b1.xMin, b2.xMin), Larger(b1.xMax, b2.xMax), Smaller(b1.yMin, b2.yMin),
      Larger(b1.yMax, b2.yMax), Smaller(b1.zMin, b2.zMin), Larger(b1.zMax, b2.zMax))
  }

  /** Two mergeable boxes combine into a box holding exactly their cubes. */
  lemma CombineCubes(b1: Box, b2: Box, p: Point3)
    requires ValidBox(b1) && ValidBox(b2) && CanBeMerged(b1, b2)
    ensures ValidBox(Combine(b1, b2))
    ensures Contains(Combine(b1, b2), p) <==> Contains(b1, p) || Contains(b2, p)
  {
  }

  /** Two mergeable boxes are disjoint and the combined box counts the cubes of both. */
  lemma CombineUnits(b1: Box, b2: Box)
    requires ValidBox(b1) && ValidBox(b2) && CanBeMerged(b1, b2)
    ensures !IsOverlapping(b1, b2) && !SameExtent(b1, b2)
    ensures Units(Combine(b1, b2)) == Units(b1) + Units(b2)
  {
    var m := Combine(b1, b2);
    var axis := if b1.xMax + 1 == b2.xMin || b2.xMax + 1 == b1.xMin then 0
      else if b1.yMax + 1 == b2.yMin || b2.yMax + 1 == b1.yMin then 1 else 2;
    UnitsAlong(b1, axis);
    UnitsAlong(b2, axis);
    UnitsAlong(m, axis);
    assert Cross(m, axis) == Cross(b1, axis) == Cross(b2, axis);
    assert m.Max(axis) - m.Min(axis) + 1 == (b1.Max(axis) - b1.Min(axis) + 1) + (b2.Max(axis) - b2.Min(axis) + 1);
    Distribute(b1.Max(axis) - b1.Min(axis) + 1, b2.Max(axis) - b2.Min(axis) + 1, 0, Cross(m, axis));
  }

  /** Line 120: the first box of the list with another extent that can be merged with `box`. */
  function FindMergeable(s: seq<Box>, box: Box): (r: Option<Box>)
    ensures r.Some? ==> exists k :: 0 <= k < |s| && s[k] == r.value && !SameExtent(box, s[k]) && CanBeMerged(box, s[k])
    ensures r.None? ==> forall k :: 0 <= k < |s| ==> SameExtent(box, s[k]) || !CanBeMerged(box, s[k])
  {
    if |s| == 0 then None
    else if !SameExtent(box, s[0]) && CanBeMerged(box, s[0]) then Some(s[0])
    else
      var r := FindMergeable(s[1..], box);
      assert r.Some? ==> exists k :: 0 <= k < |s| && s[k] == r.value && !SameExtent(box, s[k]) && CanBeMerged(box, s[k]) by {
        if r.Some? {
          var k :| 0 <= k < |s[1..]| && s[1..][k] == r.value && !SameExtent(box, s[1..][k]) && CanBeMerged(box, s[1..][k]);
          assert s[k + 1] == s[1..][k];
        }
      }
      r
  }

  /** Lines 132-133: `List.Remove`, which drops the first box with the same extent, if any. */
  function RemoveFirst(s: seq<Box>, x: Box): (r: seq<Box>)
    ensures |r| == |s| || |r| == |s| - 1
  {
    if |s| == 0 then []
    else if SameExtent(x, s[0]) then s[1..]
    else [s[0]] + RemoveFirst(s[1..], x)
  }

  /** The list without its k-th box. */
  function Without(s: seq<Box>, k: nat): (r: seq<Box>)
    requires k < |s|
    ensures |r| == |s| - 1
    ensures forall j :: 0 <= j < |r| ==> r[j] == s[if j < k then j else j + 1]
  {
    s[..k] + s[k + 1..]
  }

  lemma WithoutAppend(s: seq<Box>, k: nat, m: Box)
    requires k < |s|
    ensures Without(s + [m], k) == Without(s, k) + [m]
  {
    assert (s + [m])[..k] == s[..k];
    assert (s + [m])[k + 1..] == s[k + 1..] + [m];
  }

  /** When the k-th box is the first of its extent, `Remove` drops exactly that box. */
  lemma {:induction false} RemoveFirstAt(s: seq<Box>, x: Box, k: nat)
    requires k < |s| && SameExtent(x, s[k])
    requires forall j :: 0 <= j < k ==> !SameExtent(x, s[j])
    ensures RemoveFirst(s, x) == Without(s, k)
    decreases k
  {
    if k > 0 {
      RemoveFirstAt(s[1..], x, k - 1);
      assert [s[0]] + Without(s[1..], k - 1) == Without(s, k);
    }
  }

  /** In a list of disjoint non-empty boxes, a box's extent occurs only at its own position. */
  lemma ExtentUnique(s: seq<Box>, k: nat, j: nat)
    requires AllValid(s) && Disjoint(s) && k < |s| && j < |s| && j != k
    ensures !SameExtent(s[k], s[j])
  {
    ExtentDisjoint(s, k, j);
  }

  lemma LitWithout(s: seq<Box>, k: nat, p: Point3)
    requires k < |s|
    ensures Lit(s, p) <==> Lit(Without(s, k), p) || Contains(s[k], p)
  {
    var r := Without(s, k);
    if Lit(s, p) && !Contains(s[k], p) {
      var i :| 0 <= i < |s| && Contains(s[i], p);
      var j := if i < k then i else i - 1;
      assert r[j] == s[i];
    }
    if Lit(r, p) {
      var j :| 0 <= j < |r| && Contains(r[j], p);
      assert r[j] == s[if j < k then j else j + 1];
    }
  }

  lemma TotalWithout(s: seq<Box>, k: nat)
    requires k < |s|
    ensures TotalUnits(s) == TotalUnits(Without(s, k)) + Units(s[k])
  {
    TotalSplitAt(s, k);
    TotalConcat(s[..k], s[k + 1..]);
  }

  lemma TotalSplitAt(s: seq<Box>, k: nat)
    requires k < |s|
    ensures TotalUnits(s) == TotalUnits(s[..k]) + Units(s[k]) + TotalUnits(s[k + 1..])
  {
    var front, back, one := s[..k], s[k + 1..], [s[k]];
    assert s == (front + one) + back;
    assert one[..0] == [];
    TotalConcat(front + one, back);
    TotalConcat(front, one);
  }

  lemma WithoutKeeps(s: seq<Box>, k: nat)
    requires k < |s|
    ensures AllValid(s) ==> AllValid(Without(s, k))
    ensures AllOn(s) ==> AllOn(Without(s, k))
    ensures Disjoint(s) ==> Disjoint(Without(s, k))
  {
    var r := Without(s, k);
    if Disjoint(s) {
      forall i, j | 0 <= i < j < |r|
        ensures !IsOverlapping(r[i], r[j])
      {
        assert r[i] == s[if i < k then i else i + 1] && r[j] == s[if j < k then j else j + 1];
      }
    }
  }

  /** The list once the boxes at pos and k are replaced by their combination at the end. */
  function Merged(s: seq<Box>, pos: nat, k: nat): seq<Box>
    requires pos < |s| && k < |s| && pos != k
  {
    Without(Without(s, pos), if k < pos then k else k - 1) + [Combine(s[pos], s[k])]
  }

  /** Lines 124-133: appending the combination and removing both boxes gives `Merged`. */
  lemma MergeRemoves(s: seq<Box>, pos: nat, k: nat)
    requires AllValid(s) && Disjoint(s) && pos < |s| && k < |s| && pos != k
    requires CanBeMerged(s[pos], s[k])
    ensures RemoveFirst(RemoveFirst(s + [Combine(s[pos], s[k])], s[pos]), s[k]) == Merged(s, pos, k)
  {
    var m := Combine(s[pos], s[k]);
    RemoveFirstOf(s, pos, m);
    SecondRemoval(s, pos, k, m);
  }

  /** After the box at pos is gone, removing the extent of the box at k removes that box. */
  lemma SecondRemoval(s: seq<Box>, pos: nat, k: nat, m: Box)
    requires AllValid(s) && Disjoint(s) && pos < |s| && k < |s| && pos != k
    ensures RemoveFirst(Without(s, pos) + [m], s[k])
      == Without(Without(s, pos), if k < pos then k else k - 1) + [m]
  {
    var u := Without(s, pos);
    WithoutKeeps(s, pos);
    var k' := if k < pos then k else k - 1;
    assert u[k'] == s[k];
    RemoveFirstOf(u, k', m);
  }

  /** In a disjoint list, removing the extent of the box at pos removes that box. */
  lemma RemoveFirstOf(s: seq<Box>, pos: nat, m: Box)
    requires AllValid(s) && Disjoint(s) && pos < |s|
    ensures RemoveFirst(s + [m], s[pos]) == Without(s, pos) + [m]
  {
    var sm := s + [m];
    forall j | 0 <= j < pos
      ensures !SameExtent(s[pos], sm[j])
    {
      ExtentUnique(s, pos, j);
    }
    RemoveFirstAt(sm, s[pos], pos);
    WithoutAppend(s, pos, m);
  }

  /** The combined box misses every other box of a disjoint list. */
  lemma CombineMisses(s: seq<Box>, pos: nat, k: nat, i: nat)
    requires AllValid(s) && Disjoint(s) && pos < |s| && k < |s| && pos != k && i < |s| && i != pos && i != k
    requires CanBeMerged(s[pos], s[k])
    ensures !IsOverlapping(Combine(s[pos], s[k]), s[i])
  {
    var m := Combine(s[pos], s[k]);
    CombineCubes(s[pos], s[k], Point3(0, 0, 0));
    ExtentDisjoint(s, pos, i);
    ExtentDisjoint(s, k, i);
    if IsOverlapping(m, s[i]) {
      OverlapMeansCommonCube(m, s[i]);
      var p :| Contains(m, p) && Contains(s[i], p);
      CombineCubes(s[pos], s[k], p);
      OverlapMeansCommonCube(s[pos], s[i]);
      OverlapMeansCommonCube(s[k], s[i]);
    }
  }

  /** Merging keeps the list valid, disjoint and ON, and keeps the count of its cubes. */
  lemma MergedKeeps(s: seq<Box>, pos: nat, k: nat)
    requires AllValid(s) && Disjoint(s) && pos < |s| && k < |s| && pos != k
    requires CanBeMerged(s[pos], s[k])
    ensures AllValid(Merged(s, pos, k)) && Disjoint(Merged(s, pos, k))
    ensures AllOn(s) ==> AllOn(Merged(s, pos, k))
    ensures TotalUnits(Merged(s, pos, k)) == TotalUnits(s)
  {
    MergedValid(s, pos, k);
    MergedDisjoint(s, pos, k);
    MergedTotal(s, pos, k);
  }

  lemma MergedValid(s: seq<Box>, pos: nat, k: nat)
    requires AllValid(s) && pos < |s| && k < |s| && pos != k
    requires CanBeMerged(s[pos], s[k])
    ensures AllValid(Merged(s, pos, k))
    ensures AllOn(s) ==> AllOn(Merged(s, pos, k))
  {
    var u := Without(s, pos);
    var k' := if k < pos then k else k - 1;
    CombineCubes(s[pos], s[k], Point3(0, 0, 0));
    WithoutKeeps(s, pos);
    WithoutKeeps(u, k');
  }

  lemma MergedDisjoint(s: seq<Box>, pos: nat, k: nat)
    requires AllValid(s) && Disjoint(s) && pos < |s| && k < |s| && pos != k
    requires CanBeMerged(s[pos], s[k])
    ensures Disjoint(Merged(s, pos, k))
  {
    var u := Without(s, pos);
    var k' := if k < pos then k else k - 1;
    WithoutKeeps(s, pos);
    WithoutKeeps(u, k');
    MergedMisses(s, pos, k);
    DisjointConcat(Without(u, k'), [Combine(s[pos], s[k])]);
  }

  lemma MergedMisses(s: seq<Box>, pos: nat, k: nat)
    requires AllValid(s) && Disjoint(s) && pos < |s| && k < |s| && pos != k
    requires CanBeMerged(s[pos], s[k])
    ensures var w := Without(Without(s, pos), if k < pos then k else k - 1);
      forall j, i :: 0 <= j < 1 && 0 <= i < |w| ==> !IsOverlapping([Combine(s[pos], s[k])][j], w[i])
  {
    var m := Combine(s[pos], s[k]);
    var u := Without(s, pos);
    var k' := if k < pos then k else k - 1;
    var w := Without(u, k');
    forall j | 0 <= j < |w|
      ensures !IsOverlapping(m, w[j])
    {
      var i := if j < k' then j else j + 1;
      var i0 := if i < pos then i else i + 1;
      assert w[j] == u[i];
      assert u[i] == s[i0];
      CombineMisses(s, pos, k, i0);
    }
  }

  lemma MergedTotal(s: seq<Box>, pos: nat, k: nat)
    requires AllValid(s) && pos < |s| && k < |s| && pos != k
    requires CanBeMerged(s[pos], s[k])
    ensures TotalUnits(Merged(s, pos, k)) == TotalUnits(s)
  {
    var m := Combine(s[pos], s[k]);
    var u := Without(s, pos);
    var k' := if k < pos then k else k - 1;
    assert u[k'] == s[k];
    CombineUnits(s[pos], s[k]);
    TotalWithout(s, pos);
    TotalWithout(u, k');
    TotalConcat(Without(u, k'), [m]);
    assert [m][..0] == [];
  }

  /** Merging keeps exactly the lit cubes. */
  lemma MergedLit(s: seq<Box>, pos: nat, k: nat, p: Point3)
    requires AllValid(s) && pos < |s| && k < |s| && pos != k
    requires CanBeMerged(s[pos], s[k])
    ensures Lit(Merged(s, pos, k), p) <==> Lit(s, p)
  {
    var u := Without(s, pos);
    var k' := if k < pos then k else k - 1;
    assert u[k'] == s[k];
    LitWithout(s, pos, p);
    LitWithout(u, k', p);
    var m := Combine(s[pos], s[k]);
    LitConcat(Without(u, k'), [m], p);
    assert Lit([m], p) <==> Contains(m, p) by {
      assert [m][0] == m;
    }
    CombineCubes(s[pos], s[k], p);
  }

  /** No two boxes of the list with different extents can be merged. */
  predicate Settled(s: seq<Box>)
  {
    forall i, j :: 0 <= i < |s| && 0 <= j < |s| ==> SameExtent(s[i], s[j]) || !CanBeMerged(s[i], s[j])
  }

  /**
   * Lines 107-139: passes over the list, each box merged with the first box it can be merged
   * with, until a whole pass merges nothing. The lit cubes, their count, validity,
   * disjointness and states are kept, and no mergeable pair is left.
   */
  method Merge(boxes: seq<Box>) returns (merged: seq<Box>)
    requires AllValid(boxes) && Disjoint(boxes)
    ensures AllValid(merged) && Disjoint(merged) && (AllOn(boxes) ==> AllOn(merged))
    ensures forall p :: Lit(merged, p) <==> Lit(boxes, p)
    ensures TotalUnits(merged) == TotalUnits(boxes)
    ensures Settled(merged)
  {
    merged := boxes;
    var loopAgain := true;
    while loopAgain
      invariant Keeps(merged, boxes)
      invariant !loopAgain ==> SettledBelow(merged, |merged|)
      decreases |merged| + (if loopAgain then 1 else 0)
    {
      loopAgain := false;
      ghost var before := merged;
      var pos := 0;
      while pos < |merged|
        invariant 0 <= pos <= |merged| + 1
        invariant Keeps(merged, boxes)
        invariant loopAgain ==> |merged| < |before|
        invariant !loopAgain ==> merged == before && pos <= |merged| && SettledBelow(merged, pos)
        decreases |merged| + 1 - pos
      {
        var box := merged[pos];
        var canBeMerged := FindMergeable(merged, box);
        if canBeMerged.Some? {
          var c := canBeMerged.value;
          ghost var k :| 0 <= k < |merged| && merged[k] == c && !SameExtent(box, merged[k]) && CanBeMerged(box, merged[k]);
          MergeStep(merged, boxes, pos, k);
          merged := merged + [Combine(box, c)];
          merged := RemoveFirst(merged, box);
          merged := RemoveFirst(merged, c);
          loopAgain := true;
        }
        pos := pos + 1;
      }
    }
  }

  /** The invariant of the merge passes: a valid, disjoint list lighting what `boxes` lights. */
  ghost predicate Keeps(s: seq<Box>, boxes: seq<Box>)
  {
    && AllValid(s) && Disjoint(s) && (AllOn(boxes) ==> AllOn(s))
    && (forall p :: Lit(s, p) <==> Lit(boxes, p))
    && TotalUnits(s) == TotalUnits(boxes)
  }

  /** No box before pos can be merged with a box of a different extent. */
  predicate SettledBelow(s: seq<Box>, pos: nat)
  {
    forall i, j :: 0 <= i < pos && i < |s| && 0 <= j < |s| ==> SameExtent(s[i], s[j]) || !CanBeMerged(s[i], s[j])
  }

  /** One merge (lines 124-133) keeps the invariant and shortens the list. */
  lemma MergeStep(s: seq<Box>, boxes: seq<Box>, pos: nat, k: nat)
    requires Keeps(s, boxes) && pos < |s| && k < |s| && pos != k
    requires CanBeMerged(s[pos], s[k])
    ensures RemoveFirst(RemoveFirst(s + [Combine(s[pos], s[k])], s[pos]), s[k]) == Merged(s, pos, k)
    ensures Keeps(Merged(s, pos, k), boxes) && |Merged(s, pos, k)| < |s|
  {
    MergeRemoves(s, pos, k);
    MergedKeeps(s, pos, k);
    forall p
      ensures Lit(Merged(s, pos, k), p) <==> Lit(s, p)
    {
      MergedLit(s, pos, k, p);
    }
  }

  /** Distinct positions of a disjoint list hold boxes that do not overlap, either way round. */
  lemma ExtentDisjoint(s: seq<Box>, i: nat, j: nat)
    requires Disjoint(s) && i < |s| && j < |s| && i != j
    ensures !IsOverlapping(s[i], s[j])
  {
    if j < i {
      assert !IsOverlapping(s[j], s[i]);
    }
  }

  // ---------------------------------------------------------------------------------------
  // One instruction (lines 53-105)
  // ---------------------------------------------------------------------------------------

  /**
   * Lines 83-92: every box cut across the three axes in turn by the new box. The lit cubes,
   * their count, validity, disjointness and states are kept, and afterwards each piece either
   * misses the new box or lies fully inside it.
   */
  method SplitAcross(boxes: seq<Box>, cut: Box) returns (r: seq<Box>)
    requires AllValid(boxes) && Disjoint(boxes) && ValidBox(cut)
    ensures AllValid(r) && Disjoint(r) && (AllOn(boxes) ==> AllOn(r))
    ensures forall p :: Lit(r, p) <==> Lit(boxes, p)
    ensures TotalUnits(r) == TotalUnits(boxes)
    ensures AllSeparated(r, cut, 3)
    ensures forall i :: 0 <= i < |r| ==> !IsOverlapping(r[i], cut) || IsFullyInside(r[i], cut)
  {
    r := boxes;
    for axisId := 0 to 3
      invariant AllValid(r) && Disjoint(r) && (AllOn(boxes) ==> AllOn(r))
      invariant forall p :: Lit(r, p) <==> Lit(boxes, p)
      invariant TotalUnits(r) == TotalUnits(boxes)
      invariant AllSeparated(r, cut, axisId)
    {
      var newRebootInstructions: seq<Box> := [];
      for i := 0 to |r|
        invariant newRebootInstructions == SplitAll(r[..i], cut, axisId)
      {
        assert r[..i + 1][..i] == r[..i];
        newRebootInstructions := newRebootInstructions + SplitBox(r[i], cut, axisId);
      }
      assert r[..|r|] == r;
      SplitAllUnits(r, cut, axisId);
      SplitAllDisjoint(r, cut, axisId);
      SplitAllSeparated(r, cut, axisId);
      if AllOn(boxes) {
        SplitAllStates(r, cut, axisId);
      }
      forall p
        ensures Lit(newRebootInstructions, p) <==> Lit(r, p)
      {
        SplitAllLit(r, cut, axisId, p);
      }
      r := newRebootInstructions;
    }
    forall i | 0 <= i < |r|
      ensures !IsOverlapping(r[i], cut) || IsFullyInside(r[i], cut)
    {
      assert Separated(r[i], cut, 3);
      if !IsFullyInside(r[i], cut) {
        SeparatedMisses(r[i], cut);
      }
    }
  }

  /** The region part 1 keeps: every coordinate in -50..50. */
  predicate InRegion(p: Point3)
  {
    -50 <= p.x <= 50 && -50 <= p.y <= 50 && -50 <= p.z <= 50
  }

  /** Lines 55-74: a box wholly outside -50..50 on some axis is ignored, any other is clamped. */
  function Clip(b: Box): (r: Option<Box>)
    ensures r.Some? ==> r.value.state == b.state
  {
    if b.xMax < -50 || b.xMin > 50 || b.yMax < -50 || b.yMin > 50 || b.zMax < -50 || b.zMin > 50 then None
    else Some(Box(b.state, Larger(-50, b.xMin), Smaller(50, b.xMax), Larger(-50, b.yMin), Smaller(50, b.yMax),
      Larger(-50, b.zMin), Smaller(50, b.zMax)))
  }

  /** Clipping keeps exactly the box's cubes within the region; an ignored box has none there. */
  lemma ClipCubes(b: Box, p: Point3)
    requires ValidBox(b)
    ensures Clip(b).Some? ==> ValidBox(Clip(b).value)
    ensures Clip(b).Some? ==> (Contains(Clip(b).value, p) <==> Contains(b, p) && InRegion(p))
    ensures Clip(b).None? ==> !(Contains(b, p) && InRegion(p))
  {
  }

  /** The box an instruction acts with: clipped for part 1, as given for part 2. */
  function Effective(b: Box, clipBox: bool): Option<Box>
  {
    if clipBox then Clip(b) else Some(b)
  }

  /**
   * The intended meaning of the reboot: a cube is on exactly when the last instruction whose
   * (clipped) box holds it is "on"; a cube no instruction reaches is off.
   */
  function LastSwitch(instructions: seq<Box>, clipBox: bool, p: Point3): bool
  {
    if |instructions| == 0 then false
    else
      var before := LastSwitch(instructions[..|instructions| - 1], clipBox, p);
      match Effective(instructions[|instructions| - 1], clipBox)
      case None => before
      case Some(e) => if Contains(e, p) then e.state else before
  }

  /**
   * Lines 76-81, as written: the first box of an empty space is stored whatever its state, so a
   * first "off" instruction is counted as lit.
   */
  function StoreFirstAsWritten(box: Box): (r: seq<Box>)
    ensures |r| == 1 && r[0] == box
  {
    [box]
  }

  /** Lines 76-81, corrected: the first box of an empty space is stored only when it is ON. */
  function StoreFirst(box: Box): (r: seq<Box>)
    ensures ValidBox(box) ==> AllValid(r) && AllOn(r) && Disjoint(r)
    ensures forall p :: Lit(r, p) <==> box.state && Contains(box, p)
  {
    var r := if box.state then [box] else [];
    assert forall p :: Lit(r, p) <==> box.state && Contains(box, p) by {
      if box.state {
        assert r[0] == box;
      }
    }
    r
  }

  /**
   * "off x=0..0,y=0..0,z=0..0" as the first instruction: the list stored as written counts one
   * lit cube where the reboot leaves none, while the corrected first step stores nothing.
   */
  lemma FirstOffBoxCounted()
    ensures var off := Box(false, 0, 0, 0, 0, 0, 0);
      && TotalUnits(StoreFirstAsWritten(off)) == 1 && Lit(StoreFirstAsWritten(off), Point3(0, 0, 0))
      && !LastSwitch([off], false, Point3(0, 0, 0))
      && StoreFirst(off) == [] && TotalUnits(StoreFirst(off)) == 0
  {
    var off := Box(false, 0, 0, 0, 0, 0, 0);
    assert StoreFirstAsWritten(off)[0] == off;
    assert [off][..0] == [];
  }

  /** `InfiniteSpace`: the lit region as a list of boxes. */
  class InfiniteSpace {
    var boxes: seq<Box>

    /** Line 110: only ON boxes are kept, and they never overlap. */
    ghost predicate Valid()
      reads this
    {
      AllValid(boxes) && AllOn(boxes) && Disjoint(boxes)
    }

    constructor ()
      ensures boxes == [] && Valid()
    {
      boxes := [];
    }

    /** Line 51: the number of cubes over the stored boxes. */
    function NbrOfUnit(): (r: int)
      reads this
      ensures Valid() ==> r >= 0
    {
      UnitsNonNegative(boxes);
      TotalUnits(boxes)
    }

    /**
     * Lines 53-105, with the first-box step corrected (see `StoreFirst`): afterwards a cube is
     * lit exactly when the instruction's (clipped) box switches it on, or it was lit before
     * and the box does not reach it.
     */
    method AddInstruction(newBox: Box, clipBox: bool)
      requires Valid() && ValidBox(newBox)
      modifies this
      ensures Valid()
      ensures forall p :: Lit(boxes, p) <==> match Effective(newBox, clipBox)
        case None => old(Lit(boxes, p))
        case Some(e) => if Contains(e, p) then e.state else old(Lit(boxes, p))
    {
      var box := newBox;
      if clipBox {
        ClipCubes(newBox, Point3(0, 0, 0));
        var clipped := Clip(newBox);
        if clipped.None? {
          return;
        }
        box := clipped.value;
      }
      assert Effective(newBox, clipBox) == Some(box);
      if |boxes| == 0 {
        boxes := StoreFirst(box);
        return;
      }
      var split := SplitAcross(boxes, box);
      var kept := RemoveInside(split, box);
      RemoveInsideKeeps(split, box);
      forall p
        ensures Lit(kept, p) <==> Lit(split, p) && !Contains(box, p)
      {
        RemoveInsideLit(split, box, p);
      }
      if box.state {
        AppendBox(kept, box);
        kept := kept + [box];
      }
      boxes := Merge(kept);
    }
  }

  /** Lines 95-103: an ON box added after every box it overlapped was cut away. */
  lemma AppendBox(kept: seq<Box>, box: Box)
    requires AllValid(kept) && AllOn(kept) && Disjoint(kept) && ValidBox(box) && box.state
    requires forall i :: 0 <= i < |kept| ==> !IsOverlapping(kept[i], box)
    ensures AllValid(kept + [box]) && AllOn(kept + [box]) && Disjoint(kept + [box])
    ensures forall p :: Lit(kept + [box], p) <==> Lit(kept, p) || Contains(box, p)
  {
    forall p
      ensures Lit(kept + [box], p) <==> Lit(kept, p) || Contains(box, p)
    {
      LitConcat(kept, [box], p);
      assert Lit([box], p) <==> Contains(box, p) by {
        assert [box][0] == box;
      }
    }
    DisjointConcat(kept, [box]);
  }

  lemma {:induction false} UnitsNonNegative(s: seq<Box>)
    ensures AllValid(s) ==> TotalUnits(s) >= 0
    decreases |s|
  {
    if |s| > 0 {
      UnitsNonNegative(s[..|s| - 1]);
      assert AllValid(s) ==> AllValid(s[..|s| - 1]) && ValidBox(s[|s| - 1]);
    }
  }

  // ---------------------------------------------------------------------------------------
  // Counting (lines 23-31 and 51): the sum over disjoint boxes is the number of lit cubes
  // ---------------------------------------------------------------------------------------

  /** The cubes x, y, lo..hi. */
  function Row(x: int, y: int, lo: int, hi: int): set<Point3>
  {
    set z | lo <= z <= hi :: Point3(x, y, z)
  }

  lemma {:induction false} RowCount(x: int, y: int, lo: int, hi: int)
    requires lo <= hi + 1
    ensures |Row(x, y, lo, hi)| == hi - lo + 1
    decreases hi - lo
  {
    if lo <= hi {
      RowCount(x, y, lo, hi - 1);
      assert Row(x, y, lo, hi) == Row(x, y, lo, hi - 1) + {Point3(x, y, hi)};
    } else {
      assert Row(x, y, lo, hi) == {};
    }
  }

  /** The cubes x, yLo..yHi, zLo..zHi. */
  function Layer(x: int, yLo: int, yHi: int, zLo: int, zHi: int): set<Point3>
  {
    set y, z | yLo <= y <= yHi && zLo <= z <= zHi :: Point3(x, y, z)
  }

  lemma {:induction false} LayerCount(x: int, yLo: int, yHi: int, zLo: int, zHi: int)
    requires yLo <= yHi + 1 && zLo <= zHi + 1
    ensures |Layer(x, yLo, yHi, zLo, zHi)| == (yHi - yLo + 1) * (zHi - zLo + 1)
    decreases yHi - yLo
  {
    if yLo <= yHi {
      LayerCount(x, yLo, yHi - 1, zLo, zHi);
      RowCount(x, yHi, zLo, zHi);
      assert Layer(x, yLo, yHi, zLo, zHi) == Layer(x, yLo, yHi - 1, zLo, zHi) + Row(x, yHi, zLo, zHi);
      assert Layer(x, yLo, yHi - 1, zLo, zHi) * Row(x, yHi, zLo, zHi) == {};
      assert (yHi - yLo) * (zHi - zLo + 1) + (zHi - zLo + 1) == (yHi - yLo + 1) * (zHi - zLo + 1);
    } else {
      assert Layer(x, yLo, yHi, zLo, zHi) == {};
    }
  }

  /** The cubes xLo..xHi, yLo..yHi, zLo..zHi. */
  function Block(xLo: int, xHi: int, yLo: int, yHi: int, zLo: int, zHi: int): set<Point3>
  {
    set x, y, z | xLo <= x <= xHi && yLo <= y <= yHi && zLo <= z <= zHi :: Point3(x, y, z)
  }

  lemma {:induction false} BlockCount(xLo: int, xHi: int, yLo: int, yHi: int, zLo: int, zHi: int)
    requires xLo <= xHi + 1 && yLo <= yHi + 1 && zLo <= zHi + 1
    ensures |Block(xLo, xHi, yLo, yHi, zLo, zHi)| == (xHi - xLo + 1) * ((yHi - yLo + 1) * (zHi - zLo + 1))
    decreases xHi - xLo
  {
    if xLo <= xHi {
      BlockCount(xLo, xHi - 1, yLo, yHi, zLo, zHi);
      LayerCount(xHi, yLo, yHi, zLo, zHi);
      BlockSplit(xLo, xHi, yLo, yHi, zLo, zHi);
      var area := (yHi - yLo + 1) * (zHi - zLo + 1);
      assert (xHi - xLo) * area + area == (xHi - xLo + 1) * area;
    } else {
      forall p
        ensures p !in Block(xLo, xHi, yLo, yHi, zLo, zHi)
      {
        BlockMembers(xLo, xHi, yLo, yHi, zLo, zHi, p);
      }
      assert Block(xLo, xHi, yLo, yHi, zLo, zHi) == {};
    }
  }

  lemma LayerMembers(x: int, yLo: int, yHi: int, zLo: int, zHi: int, p: Point3)
    ensures p in Layer(x, yLo, yHi, zLo, zHi) <==> p.x == x && yLo <= p.y <= yHi && zLo <= p.z <= zHi
  {
    if p.x == x && yLo <= p.y <= yHi && zLo <= p.z <= zHi {
      assert p == Point3(x, p.y, p.z);
    }
  }

  lemma BlockMembers(xLo: int, xHi: int, yLo: int, yHi: int, zLo: int, zHi: int, p: Point3)
    ensures p in Block(xLo, xHi, yLo, yHi, zLo, zHi)
      <==> xLo <= p.x <= xHi && yLo <= p.y <= yHi && zLo <= p.z <= zHi
  {
    if xLo <= p.x <= xHi && yLo <= p.y <= yHi && zLo <= p.z <= zHi {
      assert p == Point3(p.x, p.y, p.z);
    }
  }

  /** The block's last layer split off. */
  lemma BlockSplit(xLo: int, xHi: int, yLo: int, yHi: int, zLo: int, zHi: int)
    requires xLo <= xHi
    ensures Block(xLo, xHi, yLo, yHi, zLo, zHi)
      == Block(xLo, xHi - 1, yLo, yHi, zLo, zHi) + Layer(xHi, yLo, yHi, zLo, zHi)
    ensures Block(xLo, xHi - 1, yLo, yHi, zLo, zHi) * Layer(xHi, yLo, yHi, zLo, zHi) == {}
  {
    forall p
      ensures p in Block(xLo, xHi, yLo, yHi, zLo, zHi)
        <==> p in Block(xLo, xHi - 1, yLo, yHi, zLo, zHi) || p in Layer(xHi, yLo, yHi, zLo, zHi)
      ensures !(p in Block(xLo, xHi - 1, yLo, yHi, zLo, zHi) && p in Layer(xHi, yLo, yHi, zLo, zHi))
    {
      BlockMembers(xLo, xHi, yLo, yHi, zLo, zHi, p);
      BlockMembers(xLo, xHi - 1, yLo, yHi, zLo, zHi, p);
      LayerMembers(xHi, yLo, yHi, zLo, zHi, p);
    }
  }

  /** The cubes of a box. */
  function Cubes(b: Box): (r: set<Point3>)
    ensures forall p :: p in r <==> Contains(b, p)
  {
    var r := Block(b.xMin, b.xMax, b.yMin, b.yMax, b.zMin, b.zMax);
    assert forall p :: Contains(b, p) ==> p in r by {
      forall p | Contains(b, p)
        ensures p in r
      {
        assert p == Point3(p.x, p.y, p.z);
      }
    }
    r
  }

  /** A valid box holds exactly `Units` cubes. */
  lemma CubesCount(b: Box)
    requires ValidBox(b)
    ensures |Cubes(b)| == Units(b)
  {
    BlockCount(b.xMin, b.xMax, b.yMin, b.yMax, b.zMin, b.zMax);
    var dx, dy, dz := b.xMax - b.xMin + 1, b.yMax - b.yMin + 1, b.zMax - b.zMin + 1;
    assert dx * (dy * dz) == dx * dy * dz;
  }

  /** The cubes lit by a list of boxes. */
  function LitCubes(s: seq<Box>): (r: set<Point3>)
    ensures forall p :: p in r <==> Lit(s, p)
  {
    if |s| == 0 then {}
    else
      var r := LitCubes(s[..|s| - 1]) + Cubes(s[|s| - 1]);
      assert forall p :: Lit(s, p) ==> p in r by {
        forall p | Lit(s, p)
          ensures p in r
        {
          var i :| 0 <= i < |s| && Contains(s[i], p);
          if i < |s| - 1 {
            assert s[..|s| - 1][i] == s[i];
          }
        }
      }
      r
  }

  lemma NoCommonCube(b: Box, c: Box, p: Point3)
    requires !IsOverlapping(b, c)
    ensures !(Contains(b, p) && Contains(c, p))
  {
  }

  /** Over valid, pairwise disjoint boxes, `TotalUnits` is the number of lit cubes. */
  lemma {:induction false} LitCubesCount(s: seq<Box>)
    requires AllValid(s) && Disjoint(s)
    ensures |LitCubes(s)| == TotalUnits(s)
    decreases |s|
  {
    if |s| > 0 {
      var init := s[..|s| - 1];
      var last := s[|s| - 1];
      assert AllValid(init) && Disjoint(init);
      LitCubesCount(init);
      CubesCount(last);
      forall p | p in LitCubes(init)
        ensures p !in Cubes(last)
      {
        var i :| 0 <= i < |init| && Contains(init[i], p);
        NoCommonCube(s[i], last, p);
      }
      assert LitCubes(init) * Cubes(last) == {};
    }
  }

  /**
   * Lines 23-31: all instructions applied to an empty space, counting what is lit. The count is
   * the number of cubes whose last (clipped) instruction is "on".
   */
  method ExecuteAllRebootInstructionAndCountOnBox(instructions: seq<Box>, clipBox: bool)
    returns (count: int, ghost lit: set<Point3>)
    requires AllValid(instructions)
    ensures count == |lit|
    ensures forall p :: p in lit <==> LastSwitch(instructions, clipBox, p)
  {
    var result := new InfiniteSpace();
    for i := 0 to |instructions|
      invariant result.Valid()
      invariant forall p :: Lit(result.boxes, p) <==> LastSwitch(instructions[..i], clipBox, p)
    {
      result.AddInstruction(instructions[i], clipBox);
      assert instructions[..i + 1][..i] == instructions[..i];
    }
    assert instructions[..|instructions|] == instructions;
    count := result.NbrOfUnit();
    lit := LitCubes(result.boxes);
    LitCubesCount(result.boxes);
  }

  function Larger(a: int, b: int): int { if a >= b then a else b }

  function Smaller(a: int, b: int): int { if a <= b then a else b }
}

/**
 * Day 18, "Snailfish" (AdventOfCode2021/Solver/Day18.cs): numbers are binary trees whose leaves
 * are regular numbers. Adding two numbers pairs them and reduces the pair: the leftmost pair
 * nested inside four pairs explodes, and when none is left the leftmost regular number of 10
 * or more splits, until neither applies.
 *
 * The source keeps each pair as an object with a parent pointer and rewrites children in
 * place; here a number is a value and every in-place rewrite is a function from the tree
 * before to the tree after. Positions in a tree are paths of sides from the root.
 */
module Snailfish {
  import opened Wrappers
  import Text
  import CSharpInt

  /** An item of a pair: a regular number (`int`) or a nested pair (`Snailfish`). */
  datatype Item = Regular(value: int) | Pair(left: Item, right: Item)

  datatype Side = Left | Right

  /** The regular numbers of the tree, left to right. */
  function Leaves(t: Item): (r: seq<int>)
    ensures |r| >= 1
  {
    match t
    case Regular(v) => [v]
    case Pair(l, r) => Leaves(l) + Leaves(r)
  }

  function PairCount(t: Item): nat
  {
    match t
    case Regular(_) => 0
    case Pair(l, r) => 1 + PairCount(l) + PairCount(r)
  }

  /** The tree with every regular number set to 0: its shape alone. */
  function Shape(t: Item): Item
  {
    match t
    case Regular(_) => Regular(0)
    case Pair(l, r) => Pair(Shape(l), Shape(r))
  }

  // ---------------------------------------------------------------------------------------
  // Magnitude (lines 47-49)
  // ---------------------------------------------------------------------------------------

  /** Lines 47-49: three times the magnitude of the left item plus twice that of the right. */
  function Magnitude(t: Item): int
  {
    match t
    case Regular(v) => v
    case Pair(l, r) => 3 * Magnitude(l) + 2 * Magnitude(r)
  }

  /**
   * The weight of each regular number in the magnitude: 3 for every left turn and 2 for every
   * right turn on its way from the root.
   */
  function Weights(t: Item): (r: seq<int>)
    ensures |r| == |Leaves(t)|
  {
    match t
    case Regular(_) => [1]
    case Pair(l, r) => Scale(3, Weights(l)) + Scale(2, Weights(r))
  }

  function Scale(k: int, s: seq<int>): (r: seq<int>)
    ensures |r| == |s|
  {
    if |s| == 0 then [] else Scale(k, s[..|s| - 1]) + [k * s[|s| - 1]]
  }

  function Dot(a: seq<int>, b: seq<int>): int
    requires |a| == |b|
  {
    if |a| == 0 then 0 else Dot(a[..|a| - 1], b[..|b| - 1]) + a[|a| - 1] * b[|b| - 1]
  }

  lemma {:induction false} DotConcat(a: seq<int>, b: seq<int>, c: seq<int>, d: seq<int>)
    requires |a| == |c| && |b| == |d|
    ensures Dot(a + b, c + d) == Dot(a, c) + Dot(b, d)
    decreases |b|
  {
    if |b| == 0 {
      assert a + b == a && c + d == c;
    } else {
      DotConcat(a, b[..|b| - 1], c, d[..|d| - 1]);
      assert (a + b)[..|a + b| - 1] == a + b[..|b| - 1];
      assert (c + d)[..|c + d| - 1] == c + d[..|d| - 1];
    }
  }

  lemma {:induction false} DotScale(k: int, a: seq<int>, w: seq<int>)
    requires |a| == |w|
    ensures Dot(a, Scale(k, w)) == k * Dot(a, w)
    decreases |a|
  {
    if |a| > 0 {
      DotScale(k, a[..|a| - 1], w[..|w| - 1]);
      assert Scale(k, w)[..|w| - 1] == Scale(k, w[..|w| - 1]);
      var x, y := a[|a| - 1], w[|w| - 1];
      assert x * (k * y) == k * (x * y);
    }
  }

  /**
   * The magnitude is the sum of the regular numbers, each times its weight; with regular
   * numbers of at least 0 it is at least their sum.
   */
  lemma {:induction false} MagnitudeIsWeightedSum(t: Item)
    ensures Magnitude(t) == Dot(Leaves(t), Weights(t))
  {
    match t
    case Regular(v) =>
      assert Dot([v], [1]) == Dot([], []) + v * 1;
    case Pair(l, r) =>
      var Ll, Lr, Wl, Wr := Leaves(l), Leaves(r), Weights(l), Weights(r);
      MagnitudeIsWeightedSum(l);
      MagnitudeIsWeightedSum(r);
      DotConcat(Ll, Lr, Scale(3, Wl), Scale(2, Wr));
      DotScale(3, Ll, Wl);
      DotScale(2, Lr, Wr);
  }

  /** Every weight is at least 1. */
  lemma {:induction false} WeightsPositive(t: Item)
    ensures forall k :: 0 <= k < |Weights(t)| ==> Weights(t)[k] >= 1
  {
    if t.Pair? {
      WeightsPositive(t.left);
      WeightsPositive(t.right);
      ScalePositive(3, Weights(t.left));
      ScalePositive(2, Weights(t.right));
    }
  }

  lemma {:induction false} ScalePositive(k: int, w: seq<int>)
    requires k >= 1 && forall i :: 0 <= i < |w| ==> w[i] >= 1
    ensures forall i :: 0 <= i < |w| ==> Scale(k, w)[i] >= 1
    decreases |w|
  {
    if |w| > 0 {
      ScalePositive(k, w[..|w| - 1]);
      var x := w[|w| - 1];
      assert k * x >= 1;
    }
  }

  function Sum(s: seq<int>): int
  {
    if |s| == 0 then 0 else Sum(s[..|s| - 1]) + s[|s| - 1]
  }

  /** With no negative regular number, the magnitude is at least the sum of the numbers. */
  lemma {:induction false} MagnitudeAtLeastSum(t: Item)
    requires forall k :: 0 <= k < |Leaves(t)| ==> Leaves(t)[k] >= 0
    ensures Magnitude(t) >= Sum(Leaves(t))
  {
    MagnitudeIsWeightedSum(t);
    WeightsPositive(t);
    DotAtLeastSum(Leaves(t), Weights(t));
  }

  lemma {:induction false} DotAtLeastSum(a: seq<int>, w: seq<int>)
    requires |a| == |w|
    requires forall k :: 0 <= k < |a| ==> a[k] >= 0 && w[k] >= 1
    ensures Dot(a, w) >= Sum(a)
    decreases |a|
  {
    if |a| > 0 {
      DotAtLeastSum(a[..|a| - 1], w[..|w| - 1]);
      var x, y := a[|a| - 1], w[|w| - 1];
      assert x * y >= x * 1;
    }
  }

  // ---------------------------------------------------------------------------------------
  // Positions in a tree
  // ---------------------------------------------------------------------------------------

  predicate ValidPath(t: Item, path: seq<Side>)
  {
    |path| == 0 || (t.Pair? && ValidPath(if path[0] == Left then t.left else t.right, path[1..]))
  }

  /** The item at the end of the path. */
  function At(t: Item, path: seq<Side>): Item
    requires ValidPath(t, path)
  {
    if |path| == 0 then t
    else if path[0] == Left then At(t.left, path[1..])
    else At(t.right, path[1..])
  }

  /** The tree with the item at the end of the path replaced by x. */
  function ReplaceAt(t: Item, path: seq<Side>, x: Item): Item
    requires ValidPath(t, path)
  {
    if |path| == 0 then x
    else if path[0] == Left then Pair(ReplaceAt(t.left, path[1..], x), t.right)
    else Pair(t.left, ReplaceAt(t.right, path[1..], x))
  }

  /** The number of regular numbers left of the item at the end of the path. */
  function LeavesBefore(t: Item, path: seq<Side>): nat
    requires ValidPath(t, path)
  {
    if |path| == 0 then 0
    else if path[0] == Left then LeavesBefore(t.left, path[1..])
    else |Leaves(t.left)| + LeavesBefore(t.right, path[1..])
  }

  /** The regular numbers of the item at the end of a path are a run of those of the tree. */
  lemma {:induction false} LeavesAt(t: Item, path: seq<Side>)
    requires ValidPath(t, path)
    ensures LeavesBefore(t, path) + |Leaves(At(t, path))| <= |Leaves(t)|
    ensures Leaves(t)[LeavesBefore(t, path)..LeavesBefore(t, path) + |Leaves(At(t, path))|]
      == Leaves(At(t, path))
    decreases |path|
  {
    if |path| > 0 {
      var rest := path[1..];
      var L, R := Leaves(t.left), Leaves(t.right);
      if path[0] == Left {
        LeavesAt(t.left, rest);
        SliceLeft(L, R, LeavesBefore(t.left, rest), |Leaves(At(t.left, rest))|);
      } else {
        LeavesAt(t.right, rest);
        SliceRight(L, R, LeavesBefore(t.right, rest), |Leaves(At(t.right, rest))|);
      }
    }
  }

  lemma SliceLeft(L: seq<int>, R: seq<int>, i: nat, m: nat)
    requires i + m <= |L|
    ensures (L + R)[i..i + m] == L[i..i + m]
  {
  }

  lemma SliceRight(L: seq<int>, R: seq<int>, i: nat, m: nat)
    requires i + m <= |R|
    ensures (L + R)[|L| + i..|L| + i + m] == R[i..i + m]
  {
  }

  /** Replacing the item at the end of a path replaces its run of regular numbers. */
  predicate ReplacesRun(t: Item, path: seq<Side>, x: Item)
    requires ValidPath(t, path)
  {
    var i, m := LeavesBefore(t, path), |Leaves(At(t, path))|;
    && i + m <= |Leaves(t)|
    && Leaves(ReplaceAt(t, path, x)) == Leaves(t)[..i] + Leaves(x) + Leaves(t)[i + m..]
  }

  lemma {:induction false} LeavesReplace(t: Item, path: seq<Side>, x: Item)
    requires ValidPath(t, path)
    ensures ReplacesRun(t, path, x)
    decreases |path|
  {
    if |path| > 0 {
      LeavesReplace(if path[0] == Left then t.left else t.right, path[1..], x);
      ReplaceStep(t, path, x);
    }
  }

  lemma ReplaceStep(t: Item, path: seq<Side>, x: Item)
    requires ValidPath(t, path) && |path| > 0
    requires ReplacesRun(if path[0] == Left then t.left else t.right, path[1..], x)
    ensures ReplacesRun(t, path, x)
  {
    if path[0] == Left {
      ReplaceLeftStep(t, path, x);
    } else {
      ReplaceRightStep(t, path, x);
    }
  }

  lemma ReplaceLeftStep(t: Item, path: seq<Side>, x: Item)
    requires ValidPath(t, path) && |path| > 0 && path[0] == Left
    requires ReplacesRun(t.left, path[1..], x)
    ensures ReplacesRun(t, path, x)
  {
    var rest := path[1..];
    var L, R, X := Leaves(t.left), Leaves(t.right), Leaves(x);
    var i, m := LeavesBefore(t.left, rest), |Leaves(At(t.left, rest))|;
    var Z := Leaves(ReplaceAt(t, path, x));
    assert Z == Leaves(ReplaceAt(t.left, rest, x)) + R by {
      assert ReplaceAt(t, path, x) == Pair(ReplaceAt(t.left, rest, x), t.right);
    }
    ReplaceLeft(L, R, i, m, X, Z);
    ReplacesRunIntro(t, path, x, i, m, Z);
  }

  lemma ReplaceRightStep(t: Item, path: seq<Side>, x: Item)
    requires ValidPath(t, path) && |path| > 0 && path[0] == Right
    requires ReplacesRun(t.right, path[1..], x)
    ensures ReplacesRun(t, path, x)
  {
    var rest := path[1..];
    var L, R, X := Leaves(t.left), Leaves(t.right), Leaves(x);
    var i, m := LeavesBefore(t.right, rest), |Leaves(At(t.right, rest))|;
    var Z := Leaves(ReplaceAt(t, path, x));
    assert Z == L + Leaves(ReplaceAt(t.right, rest, x)) by {
      assert ReplaceAt(t, path, x) == Pair(t.left, ReplaceAt(t.right, rest, x));
    }
    ReplaceRight(L, R, i, m, X, Z);
    assert LeavesBefore(t, path) == |L| + i;
    ReplacesRunIntro(t, path, x, |L| + i, m, Z);
  }

  lemma ReplacesRunIntro(t: Item, path: seq<Side>, x: Item, i: nat, m: nat, Z: seq<int>)
    requires ValidPath(t, path) && |path| > 0 && t.Pair?
    requires i == LeavesBefore(t, path) && m == |Leaves(At(if path[0] == Left then t.left else t.right, path[1..]))|
    requires Z == Leaves(ReplaceAt(t, path, x))
    requires var S := Leaves(t.left) + Leaves(t.right); i + m <= |S| && Z == S[..i] + Leaves(x) + S[i + m..]
    ensures ReplacesRun(t, path, x)
  {
  }

  lemma ReplaceLeft(L: seq<int>, R: seq<int>, i: nat, m: nat, X: seq<int>, Z: seq<int>)
    requires i + m <= |L| && Z == (L[..i] + X + L[i + m..]) + R
    ensures i + m <= |L + R| && Z == (L + R)[..i] + X + (L + R)[i + m..]
  {
    assert (L + R)[..i] == L[..i];
    assert (L + R)[i + m..] == L[i + m..] + R;
  }

  lemma ReplaceRight(L: seq<int>, R: seq<int>, i: nat, m: nat, X: seq<int>, Z: seq<int>)
    requires i + m <= |R| && Z == L + (R[..i] + X + R[i + m..])
    ensures |L| + i + m <= |L + R| && Z == (L + R)[..|L| + i] + X + (L + R)[|L| + i + m..]
  {
    assert (L + R)[..|L| + i] == L + R[..i];
    assert (L + R)[|L| + i + m..] == R[i + m..];
  }

  /** Left before right, and a pair before the items inside it: the order of the searches. */
  predicate Before(p: seq<Side>, q: seq<Side>)
  {
    |q| > 0 && (|p| == 0 || (p[0] == q[0] && Before(p[1..], q[1..])) || (p[0] == Left && q[0] == Right))
  }

  // ---------------------------------------------------------------------------------------
  // Explosion (lines 147-292)
  // ---------------------------------------------------------------------------------------

  /**
   * The pair at the end of the path holds two regular numbers and lies inside more than four
   * pairs, counting from a search started at `level` (the root is level 1).
   */
  predicate Explodable(t: Item, path: seq<Side>, level: int)
  {
    && ValidPath(t, path)
    && At(t, path).Pair? && At(t, path).left.Regular? && At(t, path).right.Regular?
    && level + |path| > 4
  }

  /** Lines 262-292: `GetPairToExplode`, searching the pair first, then its left and right items. */
  function PairToExplode(t: Item, level: int): (r: Option<seq<Side>>)
    ensures r.Some? ==> Explodable(t, r.value, level)
  {
    if t.Regular? then None
    else if level > 4 && t.left.Regular? && t.right.Regular? then Some([])
    else
      match PairToExplode(t.left, level + 1)
      case Some(p) => Some([Left] + p)
      case None =>
        match PairToExplode(t.right, level + 1)
        case Some(p) => Some([Right] + p)
        case None => None
  }

  lemma ExplodableStep(t: Item, q: seq<Side>, level: int)
    requires t.Pair? && |q| > 0
    ensures Explodable(t, q, level) <==> Explodable(if q[0] == Left then t.left else t.right, q[1..], level + 1)
  {
  }

  /** The pair found is the first explodable pair, and none is found only when there is none. */
  lemma {:induction false} PairToExplodeFirst(t: Item, level: int)
    ensures PairToExplode(t, level).None? ==> forall q :: !Explodable(t, q, level)
    ensures PairToExplode(t, level).Some? ==>
      forall q :: Explodable(t, q, level) ==> q == PairToExplode(t, level).value || Before(PairToExplode(t, level).value, q)
  {
    if t.Pair? && !(level > 4 && t.left.Regular? && t.right.Regular?) {
      PairToExplodeFirst(t.left, level + 1);
      PairToExplodeFirst(t.right, level + 1);
      var r := PairToExplode(t, level);
      forall q | Explodable(t, q, level)
        ensures r.Some? && (q == r.value || Before(r.value, q))
      {
        if |q| == 0 {
          assert false;
        }
        ExplodableStep(t, q, level);
        var pl := PairToExplode(t.left, level + 1);
        if q[0] == Left {
          assert q == [Left] + q[1..];
        } else if pl.Some? {
          assert Before(r.value, q);
        } else {
          assert q == [Right] + q[1..];
        }
      }
    }
  }

  /** The tree after an explosion, and the values still to be added left and right of it. */
  datatype Exploded = Exploded(tree: Item, toLeft: Option<int>, toRight: Option<int>)

  /** The first regular number of the tree increased by v. */
  function AddLeftmost(t: Item, v: int): (r: Item)
    ensures Leaves(r) == [Leaves(t)[0] + v] + Leaves(t)[1..]
    ensures Shape(r) == Shape(t) && PairCount(r) == PairCount(t)
  {
    match t
    case Regular(x) => Regular(x + v)
    case Pair(l, r) =>
      var l' := AddLeftmost(l, v);
      assert Leaves(l') + Leaves(r) == [Leaves(l)[0] + v] + (Leaves(l) + Leaves(r))[1..];
      Pair(l', r)
  }

  /** The last regular number of the tree increased by v. */
  function AddRightmost(t: Item, v: int): (r: Item)
    ensures |Leaves(r)| == |Leaves(t)|
    ensures Leaves(r) == Leaves(t)[..|Leaves(t)| - 1] + [Leaves(t)[|Leaves(t)| - 1] + v]
    ensures Shape(r) == Shape(t) && PairCount(r) == PairCount(t)
  {
    match t
    case Regular(x) => Regular(x + v)
    case Pair(l, r) =>
      var r' := AddRightmost(r, v);
      var L, R := Leaves(l), Leaves(r);
      assert (L + R)[..|L + R| - 1] == L + R[..|R| - 1];
      Pair(l, r')
  }

  /**
   * Lines 147-260: the pair at the end of the path becomes 0; its left value goes to the
   * nearest regular number on its left and its right value to the nearest on its right.
   * Climbing through the parents until the path turns is the way back up the recursion; a
   * value that reaches the root has no neighbour and is dropped.
   */
  function ExplodeAt(t: Item, path: seq<Side>): Exploded
    requires ValidPath(t, path) && At(t, path).Pair?
    requires At(t, path).left.Regular? && At(t, path).right.Regular?
  {
    if |path| == 0 then Exploded(Regular(0), Some(t.left.value), Some(t.right.value))
    else if path[0] == Left then
      var e := ExplodeAt(t.left, path[1..]);
      var right := if e.toRight.Some? then AddLeftmost(t.right, e.toRight.value) else t.right;
      Exploded(Pair(e.tree, right), e.toLeft, None)
    else
      var e := ExplodeAt(t.right, path[1..]);
      var left := if e.toLeft.Some? then AddRightmost(t.left, e.toLeft.value) else t.left;
      Exploded(Pair(left, e.tree), None, e.toRight)
  }

  function Explode(t: Item, path: seq<Side>): Item
    requires ValidPath(t, path) && At(t, path).Pair?
    requires At(t, path).left.Regular? && At(t, path).right.Regular?
  {
    ExplodeAt(t, path).tree
  }

  /**
   * The regular numbers after the pair at leaves i and i + 1 explodes: the one before gains
   * the left value, the pair becomes 0, the one after gains the right value.
   */
  function ExplodedLeaves(s: seq<int>, i: nat): seq<int>
    requires i + 1 < |s|
  {
    (if i > 0 then s[..i - 1] + [s[i - 1] + s[i]] else [])
    + [0]
    + (if i + 2 < |s| then [s[i + 2] + s[i + 1]] + s[i + 3..] else [])
  }

  /**
   * The explosion at the end of the path seen on the regular numbers: with i the number of
   * them left of the pair, the tree's numbers become `ExplodedLeaves(Leaves(t), i)`, and a
   * value is still to be added on a side exactly when the pair has no neighbour there.
   */
  predicate ExplodesAsLeaves(t: Item, path: seq<Side>)
    requires ValidPath(t, path) && At(t, path).Pair?
    requires At(t, path).left.Regular? && At(t, path).right.Regular?
  {
    var i, L, e := LeavesBefore(t, path), Leaves(t), ExplodeAt(t, path);
    && i + 1 < |L|
    && Leaves(e.tree) == ExplodedLeaves(L, i)
    && (e.toLeft.Some? <==> i == 0) && (e.toLeft.Some? ==> e.toLeft.value == L[i])
    && (e.toRight.Some? <==> i + 2 == |L|) && (e.toRight.Some? ==> e.toRight.value == L[i + 1])
  }

  lemma {:induction false} ExplodeAtLeaves(t: Item, path: seq<Side>)
    requires ValidPath(t, path) && At(t, path).Pair?
    requires At(t, path).left.Regular? && At(t, path).right.Regular?
    ensures ExplodesAsLeaves(t, path)
    decreases |path|
  {
    if |path| == 0 {
      assert Leaves(t) == [t.left.value, t.right.value];
      assert ExplodedLeaves(Leaves(t), 0) == [0];
    } else if path[0] == Left {
      ExplodeAtLeaves(t.left, path[1..]);
      ExplodeLeftStep(t, path);
    } else {
      ExplodeAtLeaves(t.right, path[1..]);
      ExplodeRightStep(t, path);
    }
  }

  lemma ExplodeLeftStep(t: Item, path: seq<Side>)
    requires ValidPath(t, path) && At(t, path).Pair?
    requires At(t, path).left.Regular? && At(t, path).right.Regular?
    requires |path| > 0 && path[0] == Left && ExplodesAsLeaves(t.left, path[1..])
    ensures ExplodesAsLeaves(t, path)
  {
    var rest := path[1..];
    var L, R := Leaves(t.left), Leaves(t.right);
    assert Leaves(t) == L + R;
    var e, j := ExplodeAt(t.left, rest), LeavesBefore(t.left, rest);
    var right := if e.toRight.Some? then AddLeftmost(t.right, e.toRight.value) else t.right;
    assert ExplodeAt(t, path) == Exploded(Pair(e.tree, right), e.toLeft, None);
    assert LeavesBefore(t, path) == j;
    assert Leaves(right) == (if j + 2 == |L| then [R[0] + L[j + 1]] + R[1..] else R);
    ExplodeLeftCase(L, R, j);
    assert Leaves(ExplodeAt(t, path).tree) == Leaves(e.tree) + Leaves(right);
  }

  lemma ExplodeRightStep(t: Item, path: seq<Side>)
    requires ValidPath(t, path) && At(t, path).Pair?
    requires At(t, path).left.Regular? && At(t, path).right.Regular?
    requires |path| > 0 && path[0] == Right && ExplodesAsLeaves(t.right, path[1..])
    ensures ExplodesAsLeaves(t, path)
  {
    var rest := path[1..];
    var L, R := Leaves(t.left), Leaves(t.right);
    assert Leaves(t) == L + R;
    var e, j := ExplodeAt(t.right, rest), LeavesBefore(t.right, rest);
    var left := if e.toLeft.Some? then AddRightmost(t.left, e.toLeft.value) else t.left;
    assert ExplodeAt(t, path) == Exploded(Pair(left, e.tree), None, e.toRight);
    assert LeavesBefore(t, path) == |L| + j;
    assert Leaves(left) == (if j == 0 then L[..|L| - 1] + [L[|L| - 1] + R[0]] else L);
    ExplodeRightCase(L, R, j);
    assert Leaves(ExplodeAt(t, path).tree) == Leaves(left) + Leaves(e.tree);
  }

  lemma ExplodeLeftCase(L: seq<int>, R: seq<int>, i: nat)
    requires i + 1 < |L| && |R| >= 1
    ensures ExplodedLeaves(L + R, i)
      == ExplodedLeaves(L, i) + (if i + 2 == |L| then [R[0] + L[i + 1]] + R[1..] else R)
  {
    var S := L + R;
    var P := if i > 0 then L[..i - 1] + [L[i - 1] + L[i]] else [];
    if i > 0 {
      assert S[..i - 1] == L[..i - 1];
    }
    assert (if i > 0 then S[..i - 1] + [S[i - 1] + S[i]] else []) == P;
    if i + 2 < |L| {
      var T := [L[i + 2] + L[i + 1]] + L[i + 3..];
      assert S[i + 3..] == L[i + 3..] + R;
      assert ExplodedLeaves(S, i) == P + [0] + (T + R);
      assert ExplodedLeaves(L, i) == P + [0] + T;
    } else {
      var T := [R[0] + L[i + 1]] + R[1..];
      assert S[i + 3..] == R[1..];
      assert ExplodedLeaves(S, i) == P + [0] + T;
      assert ExplodedLeaves(L, i) == P + [0];
    }
  }

  lemma ExplodeRightCase(L: seq<int>, R: seq<int>, i: nat)
    requires i + 1 < |R| && |L| >= 1
    ensures ExplodedLeaves(L + R, |L| + i)
      == (if i == 0 then L[..|L| - 1] + [L[|L| - 1] + R[0]] else L) + ExplodedLeaves(R, i)
  {
    var S := L + R;
    if i + 2 < |R| {
      assert S[|L| + i + 3..] == R[i + 3..];
    }
    if i > 0 {
      assert S[..|L| + i - 1] == L + R[..i - 1];
    } else {
      assert S[..|L| - 1] == L[..|L| - 1];
    }
  }

  /** The explosion keeps the shape of the tree apart from the pair, which becomes one number. */
  lemma {:induction false} ExplodeAtShape(t: Item, path: seq<Side>)
    requires ValidPath(t, path) && At(t, path).Pair?
    requires At(t, path).left.Regular? && At(t, path).right.Regular?
    ensures Shape(ExplodeAt(t, path).tree) == Shape(ReplaceAt(t, path, Regular(0)))
    ensures PairCount(ExplodeAt(t, path).tree) == PairCount(t) - 1
    decreases |path|
  {
    if |path| > 0 {
      ExplodeAtShape(if path[0] == Left then t.left else t.right, path[1..]);
    }
  }

  // ---------------------------------------------------------------------------------------
  // Split (lines 95-145)
  // ---------------------------------------------------------------------------------------

  /** Lines 113-145: `GetPairToSplit`, the left item, the left pair, the right item, the right pair. */
  function PairToSplit(t: Item): (r: Option<seq<Side>>)
    ensures r.Some? ==> ValidPath(t, r.value) && At(t, r.value).Pair?
  {
    if t.Regular? then None
    else if t.left.Regular? && t.left.value >= 10 then Some([])
    else
      match PairToSplit(t.left)
      case Some(p) => Some([Left] + p)
      case None =>
        if t.right.Regular? && t.right.value >= 10 then Some([])
        else
          match PairToSplit(t.right)
          case Some(p) => Some([Right] + p)
          case None => None
  }

  /** A regular number of 10 or more becomes a pair of its halves, rounded down then up. */
  function Halves(v: int): (r: Item)
    requires v >= 10
    ensures r.Pair? && r.left.Regular? && r.right.Regular?
    ensures r.left.value + r.right.value == v && 0 <= r.right.value - r.left.value <= 1
  {
    Pair(Regular(v / 2), Regular((v + 1) / 2))
  }

  /** Lines 95-111: the left item splits if it can, otherwise the right one. */
  function SplitChildren(x: Item): Item
    requires x.Pair?
  {
    if x.left.Regular? && x.left.value >= 10 then Pair(Halves(x.left.value), x.right)
    else if x.right.Regular? && x.right.value >= 10 then Pair(x.left, Halves(x.right.value))
    else x
  }

  function SplitPair(t: Item, path: seq<Side>): Item
    requires ValidPath(t, path) && At(t, path).Pair?
  {
    ReplaceAt(t, path, SplitChildren(At(t, path)))
  }

  /** The index of the first number of 10 or more, or the length when there is none. */
  function FirstBig(s: seq<int>): (i: nat)
    ensures i <= |s| && (i < |s| ==> s[i] >= 10)
    ensures forall k :: 0 <= k < i ==> s[k] < 10
  {
    if |s| == 0 then 0
    else if s[0] >= 10 then 0
    else 1 + FirstBig(s[1..])
  }

  lemma {:induction false} FirstBigConcat(a: seq<int>, b: seq<int>)
    ensures FirstBig(a + b) == if FirstBig(a) < |a| then FirstBig(a) else |a| + FirstBig(b)
    decreases |a|
  {
    if |a| > 0 {
      assert (a + b)[0] == a[0];
      assert (a + b)[1..] == a[1..] + b;
      FirstBigConcat(a[1..], b);
    } else {
      assert a + b == b;
    }
  }

  /** The regular numbers after the number at index i splits. */
  function SplitLeaves(s: seq<int>, i: nat): seq<int>
    requires i < |s|
  {
    s[..i] + [s[i] / 2, (s[i] + 1) / 2] + s[i + 1..]
  }

  /**
   * In a pair, the search for a pair to split fails exactly when every regular number is
   * below 10; otherwise splitting the pair it finds splits the leftmost number of 10 or more.
   */
  predicate SplitsFirstBig(t: Item)
  {
    var L := Leaves(t);
    match PairToSplit(t)
    case None => FirstBig(L) == |L|
    case Some(p) => FirstBig(L) < |L| && Leaves(SplitPair(t, p)) == SplitLeaves(L, FirstBig(L))
  }

  lemma {:induction false} PairToSplitFirst(t: Item)
    requires t.Pair?
    ensures SplitsFirstBig(t)
  {
    var l, r := t.left, t.right;
    var L, R := Leaves(l), Leaves(r);
    assert Leaves(t) == L + R;
    FirstBigConcat(L, R);
    if l.Regular? && l.value >= 10 {
      SplitLeftHere(t);
    } else {
      if l.Pair? {
        PairToSplitFirst(l);
      }
      match PairToSplit(l)
      case Some(p) =>
        SplitLeftInside(t, p);
      case None =>
        assert FirstBig(L) == |L|;
        if r.Regular? && r.value >= 10 {
          SplitRightHere(t);
        } else {
          if r.Pair? {
            PairToSplitFirst(r);
          }
          match PairToSplit(r)
          case Some(p) =>
            SplitRightInside(t, p);
          case None =>
            assert FirstBig(R) == |R|;
        }
    }
  }

  lemma SplitLeftHere(t: Item)
    requires t.Pair? && t.left.Regular? && t.left.value >= 10
    ensures SplitsFirstBig(t)
  {
    var L, R := Leaves(t.left), Leaves(t.right);
    assert Leaves(t) == L + R;
    assert FirstBig(L + R) == 0;
    var v := t.left.value;
    assert L == [v];
    assert (L + R)[1..] == R && (L + R)[..0] == [];
    assert SplitLeaves(L + R, 0) == [v / 2, (v + 1) / 2] + R;
    assert Leaves(Halves(v)) == [v / 2, (v + 1) / 2];
    assert SplitPair(t, []) == Pair(Halves(v), t.right);
  }

  lemma SplitLeftInside(t: Item, p: seq<Side>)
    requires t.Pair? && t.left.Pair? && !(t.left.Regular? && t.left.value >= 10)
    requires PairToSplit(t.left) == Some(p) && SplitsFirstBig(t.left)
    ensures SplitsFirstBig(t)
  {
    var L, R := Leaves(t.left), Leaves(t.right);
    assert Leaves(t) == L + R;
    FirstBigConcat(L, R);
    var j := FirstBig(L);
    var q := [Left] + p;
    assert q[1..] == p;
    var Z := Leaves(SplitPair(t, q));
    assert Z == Leaves(SplitPair(t.left, p)) + R by {
      assert SplitPair(t, q) == Pair(SplitPair(t.left, p), t.right);
    }
    SplitLeavesLeft(L, R, j, Z);
  }

  lemma SplitRightHere(t: Item)
    requires t.Pair? && t.right.Regular? && t.right.value >= 10
    requires !(t.left.Regular? && t.left.value >= 10) && PairToSplit(t.left).None?
    requires FirstBig(Leaves(t.left)) == |Leaves(t.left)|
    ensures SplitsFirstBig(t)
  {
    var L, R := Leaves(t.left), Leaves(t.right);
    assert Leaves(t) == L + R;
    FirstBigConcat(L, R);
    assert FirstBig(L + R) == |L|;
    var v := t.right.value;
    assert R == [v];
    assert (L + R)[..|L|] == L && (L + R)[|L| + 1..] == [];
    assert SplitLeaves(L + R, |L|) == L + [v / 2, (v + 1) / 2];
    assert Leaves(Halves(v)) == [v / 2, (v + 1) / 2];
    assert SplitPair(t, []) == Pair(t.left, Halves(v));
  }

  lemma SplitRightInside(t: Item, p: seq<Side>)
    requires t.Pair? && t.right.Pair? && !(t.right.Regular? && t.right.value >= 10)
    requires !(t.left.Regular? && t.left.value >= 10) && PairToSplit(t.left).None?
    requires FirstBig(Leaves(t.left)) == |Leaves(t.left)|
    requires PairToSplit(t.right) == Some(p) && SplitsFirstBig(t.right)
    ensures SplitsFirstBig(t)
  {
    var L, R := Leaves(t.left), Leaves(t.right);
    assert Leaves(t) == L + R;
    FirstBigConcat(L, R);
    var j := FirstBig(R);
    var q := [Right] + p;
    assert q[1..] == p;
    var Z := Leaves(SplitPair(t, q));
    assert Z == L + Leaves(SplitPair(t.right, p)) by {
      assert SplitPair(t, q) == Pair(t.left, SplitPair(t.right, p));
    }
    SplitLeavesRight(L, R, j, Z);
  }

  lemma SplitLeavesLeft(L: seq<int>, R: seq<int>, j: nat, Z: seq<int>)
    requires j < |L| && Z == SplitLeaves(L, j) + R
    ensures Z == SplitLeaves(L + R, j)
  {
    assert (L + R)[..j] == L[..j];
    assert (L + R)[j + 1..] == L[j + 1..] + R;
  }

  lemma SplitLeavesRight(L: seq<int>, R: seq<int>, j: nat, Z: seq<int>)
    requires j < |R| && Z == L + SplitLeaves(R, j)
    ensures Z == SplitLeaves(L + R, |L| + j)
  {
    assert (L + R)[..|L| + j] == L + R[..j];
    assert (L + R)[|L| + j + 1..] == R[j + 1..];
  }

  // ---------------------------------------------------------------------------------------
  // Reduction and addition (lines 58-93)
  // ---------------------------------------------------------------------------------------

  /** No pair is nested inside four pairs and every regular number is below 10. */
  ghost predicate Reduced(t: Item)
  {
    && (forall q :: !Explodable(t, q, 1))
    && (forall k :: 0 <= k < |Leaves(t)| ==> Leaves(t)[k] < 10)
  }

  /** Lines 77-83: explode the first explodable pair until none is left. */
  function ExplodeAll(t: Item): (r: Item)
    ensures forall q :: !Explodable(r, q, 1)
    ensures t.Pair? ==> r.Pair?
    decreases PairCount(t)
  {
    match PairToExplode(t, 1)
    case None =>
      PairToExplodeFirst(t, 1);
      t
    case Some(p) =>
      ExplodeAtShape(t, p);
      ExplodeAll(Explode(t, p))
  }

  /**
   * Lines 70-93: explosions, then one split, then explosions again, until neither applies.
   * Whether this ends for every input is not established here, so at most `fuel` splits are
   * made and `None` means the fuel ran out.
   */
  function ReduceSpec(t: Item, fuel: nat): Option<Item>
    decreases fuel
  {
    var e := ExplodeAll(t);
    match PairToSplit(e)
    case None => Some(e)
    case Some(p) => if fuel == 0 then None else ReduceSpec(SplitPair(e, p), fuel - 1)
  }

  /** Splitting inside a pair leaves a pair. */
  lemma SplitPairIsPair(t: Item, path: seq<Side>)
    requires t.Pair? && ValidPath(t, path) && At(t, path).Pair?
    ensures SplitPair(t, path).Pair?
  {
  }

  /** A reduction that ends leaves a reduced pair. */
  lemma {:induction false} ReduceSpecReduced(t: Item, fuel: nat)
    requires t.Pair?
    ensures ReduceSpec(t, fuel).Some? ==> Reduced(ReduceSpec(t, fuel).value) && ReduceSpec(t, fuel).value.Pair?
    decreases fuel
  {
    var e := ExplodeAll(t);
    PairToSplitFirst(e);
    match PairToSplit(e)
    case None =>
    case Some(p) =>
      if fuel > 0 {
        SplitPairIsPair(e, p);
        ReduceSpecReduced(SplitPair(e, p), fuel - 1);
      }
  }

  /** A reduced pair is left as it is, whatever the fuel. */
  lemma ReducedIsFixpoint(t: Item, fuel: nat)
    requires t.Pair? && Reduced(t)
    ensures ReduceSpec(t, fuel) == Some(t)
  {
    assert PairToExplode(t, 1).None?;
    assert ExplodeAll(t) == t;
    PairToSplitFirst(t);
  }

  /** Lines 70-93, the loops of `Reduce`, with at most `fuel` splits. */
  method Reduce(t: Item, fuel: nat) returns (r: Option<Item>)
    ensures r == ReduceSpec(t, fuel)
  {
    var current := t;
    var fuelLeft := fuel;
    while true
      invariant ReduceSpec(current, fuelLeft) == ReduceSpec(t, fuel)
      decreases fuelLeft
    {
      ghost var start := current;
      var pairToExplode := PairToExplode(current, 1);
      while pairToExplode.Some?
        invariant pairToExplode == PairToExplode(current, 1)
        invariant ExplodeAll(current) == ExplodeAll(start)
        decreases PairCount(current)
      {
        ExplodeAtShape(current, pairToExplode.value);
        current := Explode(current, pairToExplode.value);
        pairToExplode := PairToExplode(current, 1);
      }
      var pairToSplit := PairToSplit(current);
      if pairToSplit.None? {
        return Some(current);
      }
      if fuelLeft == 0 {
        return None;
      }
      current := SplitPair(current, pairToSplit.value);
      fuelLeft := fuelLeft - 1;
    }
  }

  // ---------------------------------------------------------------------------------------
  // Parsing and printing (lines 51-56, 294-330)
  // ---------------------------------------------------------------------------------------

  /** `int.TryParse`: an optional sign and digits whose value fits in 32 bits. */
  function TryParseInt32(s: string): (r: Option<int>)
    ensures r.Some? ==> CSharpInt.IsInt32(r.value)
  {
    match Text.ParseInt(s)
    case Some(v) => if CSharpInt.IsInt32(v) then Some(v) else None
    case None => None
  }

  /**
   * Lines 297-316: from index i, with `open` brackets open, the first comma at depth 0,
   * never looking at the first or the last character of the text.
   */
  function FindComma(s: string, i: nat, open: int): (r: Option<nat>)
    ensures r.Some? ==> i <= r.value && 1 <= i ==> 1 <= r.value
    ensures r.Some? ==> i <= r.value < |s| - 1 && s[r.value] == ','
    decreases |s| - i
  {
    if i + 1 >= |s| then None
    else
      var open' := if s[i] == '[' then open + 1 else if s[i] == ']' then open - 1 else open;
      if s[i] == ',' && open' == 0 then Some(i) else FindComma(s, i + 1, open')
  }

  /** An item: a 32-bit number, or else a pair. */
  function ParseItem(s: string): Option<Item>
    decreases |s|, 1
  {
    match TryParseInt32(s)
    case Some(v) => Some(Regular(v))
    case None => ParseSnail(s)
  }

  /**
   * Lines 51-56 and 294-318: a pair is split at its first comma at depth 0 into the text
   * after the first character and the text before the last one; no comma is an error.
   */
  function ParseSnail(s: string): (r: Option<Item>)
    ensures r.Some? ==> r.value.Pair?
    decreases |s|, 0
  {
    match FindComma(s, 1, 0)
    case None => None
    case Some(c) =>
      match ParseItem(s[1..c])
      case None => None
      case Some(left) =>
        match ParseItem(s[c + 1..|s| - 1])
        case None => None
        case Some(right) => Some(Pair(left, right))
  }

  /** Lines 51-56 and 294-318: the constructor from text and its `SplitString` loop. */
  method SplitString(s: string) returns (r: Option<Item>)
    ensures r == ParseSnail(s)
    decreases |s|
  {
    var nbrOpen := 0;
    var i := 1;
    while i < |s| - 1
      invariant 1 <= i && FindComma(s, 1, 0) == FindComma(s, i, nbrOpen)
      decreases |s| - i
    {
      if s[i] == '[' {
        nbrOpen := nbrOpen + 1;
      }
      if s[i] == ']' {
        nbrOpen := nbrOpen - 1;
      }
      if s[i] == ',' && nbrOpen == 0 {
        var left, right := s[1..i], s[i + 1..|s| - 1];
        var leftItem, rightItem;
        var leftValue := TryParseInt32(left);
        if leftValue.Some? {
          leftItem := Regular(leftValue.value);
        } else {
          var l := SplitString(left);
          if l.None? {
            return None;
          }
          leftItem := l.value;
        }
        var rightValue := TryParseInt32(right);
        if rightValue.Some? {
          rightItem := Regular(rightValue.value);
        } else {
          var q := SplitString(right);
          if q.None? {
            return None;
          }
          rightItem := q.value;
        }
        return Some(Pair(leftItem, rightItem));
      }
      i := i + 1;
    }
    return None;
  }

  /** Lines 320-330: `ToString`. */
  function Print(t: Item): string
  {
    match t
    case Regular(v) => NumberText(v)
    case Pair(l, r) => "[" + Print(l) + "," + Print(r) + "]"
  }

  predicate AllInt32(t: Item)
  {
    match t
    case Regular(v) => CSharpInt.IsInt32(v)
    case Pair(l, r) => AllInt32(l) && AllInt32(r)
  }

  /** `int.ToString()`: an optional minus sign and the decimal digits, most significant first. */
  function NumberText(v: int): string
  {
    if v < 0 then "-" + DigitsText(-v) else DigitsText(v)
  }

  function DigitsText(n: nat): string
    decreases n
  {
    if n < 10 then [Text.DigitChar(n)] else DigitsText(n / 10) + [Text.DigitChar(n % 10)]
  }

  /** The printed number is the text that `Text.ParseInt` reads back, NumberLen characters long. */
  lemma NumberTextIs(v: int)
    ensures NumberText(v) == Text.IntToString(v) && |NumberText(v)| == NumberLen(v)
  {
    var n := if v < 0 then -v else v;
    DigitsTextIs(n);
  }

  lemma {:induction false} DigitsTextIs(n: nat)
    ensures DigitsText(n) == Text.NatToString(n) && |DigitsText(n)| == DigitCount(n)
    decreases n
  {
    if n >= 10 {
      DigitsTextIs(n / 10);
    }
  }

  /** A printed number holds no bracket and no comma. */
  lemma PlainNumber(v: int)
    ensures forall k :: 0 <= k < |NumberText(v)| ==> Plain(NumberText(v)[k])
  {
    var n := if v < 0 then -v else v;
    DigitsPlain(n);
    if v < 0 {
      forall k | 0 <= k < |NumberText(v)|
        ensures Plain(NumberText(v)[k])
      {
        if k > 0 {
          assert NumberText(v)[k] == DigitsText(n)[k - 1];
        }
      }
    }
  }

  lemma {:induction false} DigitsPlain(n: nat)
    ensures forall k :: 0 <= k < |DigitsText(n)| ==> Plain(DigitsText(n)[k])
    decreases n
  {
    if n >= 10 {
      DigitsPlain(n / 10);
    }
  }

  /** A character that is neither a bracket nor a comma. */
  predicate Plain(c: char)
  {
    c != '[' && c != ']' && c != ','
  }

  /** The search passes over text with no bracket and no comma. */
  /** The n characters of the text from index i are neither brackets nor commas. */
  predicate PlainRun(s: string, i: nat, n: nat)
    decreases n
  {
    i + n <= |s| && (n == 0 || (Plain(s[i]) && PlainRun(s, i + 1, n - 1)))
  }

  lemma {:induction false} PlainRunIntro(s: string, i: nat, n: nat)
    requires i + n <= |s| && forall k :: i <= k < i + n ==> Plain(s[k])
    ensures PlainRun(s, i, n)
    decreases n
  {
    if n > 0 {
      PlainRunIntro(s, i + 1, n - 1);
    }
  }

  lemma {:induction false} SkipPlain(s: string, i: nat, open: int, n: nat)
    requires i + n < |s| && PlainRun(s, i, n)
    ensures FindComma(s, i, open) == FindComma(s, i + n, open)
    decreases n
  {
    if n > 0 {
      SkipPlain(s, i + 1, open, n - 1);
    }
  }

  /** The length of the printed item. */
  function Len(t: Item): nat
    decreases t
  {
    match t
    case Regular(v) => NumberLen(v)
    case Pair(l, r) => Len(l) + Len(r) + 3
  }

  /** The number of characters of a printed number: its digits and a minus sign. */
  function NumberLen(v: int): nat
  {
    if v < 0 then 1 + DigitCount(-v) else DigitCount(v)
  }

  function DigitCount(n: nat): nat
  {
    if n < 10 then 1 else 1 + DigitCount(n / 10)
  }



  /** Len counts the characters that printing writes. */
  lemma {:induction false} LenPrint(t: Item)
    ensures Len(t) == |Print(t)|
    decreases t
  {
    match t
    case Regular(v) =>
      NumberTextIs(v);
    case Pair(l, r) =>
      LenPrint(l);
      LenPrint(r);
      PairText(l, r);
  }

  /** The punctuation of the printed item sits in the text at index i, and the text goes on after it. */
  ghost predicate Laid(s: string, i: nat, t: Item)
    decreases t
  {
    && i + Len(t) < |s|
    && match t
       case Regular(_) => PlainRun(s, i, Len(t))
       case Pair(l, r) =>
         && s[i] == '[' && Laid(s, i + 1, l)
         && s[i + 1 + Len(l)] == ',' && Laid(s, i + 2 + Len(l), r)
         && s[i + 2 + Len(l) + Len(r)] == ']'
  }

  /** The search passes over a laid-out item, ending at j, when it starts outside any bracket. */
  lemma {:induction false} SkipItem(s: string, i: nat, open: int, t: Item, j: nat)
    requires open >= 0 && Laid(s, i, t) && j == i + Len(t)
    ensures FindComma(s, i, open) == FindComma(s, j, open)
    decreases t, 1
  {
    match t
    case Regular(v) => SkipPlain(s, i, open, Len(t));
    case Pair(l, r) => SkipPair(s, i, open, l, r, j);
  }

  lemma {:induction false} SkipPair(s: string, i: nat, open: int, l: Item, r: Item, j: nat)
    requires open >= 0 && Laid(s, i, Pair(l, r)) && j == i + Len(Pair(l, r))
    ensures FindComma(s, i, open) == FindComma(s, j, open)
    decreases Pair(l, r), 0
  {
    SkipItem(s, i + 1, open + 1, l, i + 1 + Len(l));
    SkipItem(s, i + 2 + Len(l), open + 1, r, i + 2 + Len(l) + Len(r));
    SkipPairPunctuation(s, i, open, Len(l), Len(r), j);
  }

  /** A printed item has its punctuation laid out where it is printed, when text follows it. */
  lemma {:induction false} PrintLaid(pre: string, t: Item, post: string)
    requires |post| > 0
    ensures Laid(pre + Print(t) + post, |pre|, t)
    decreases t, 2
  {
    match t
    case Regular(v) => PrintLaidNumber(pre, v, post);
    case Pair(l, r) => PrintLaidPair(pre, l, r, post);
  }

  lemma PrintLaidNumber(pre: string, v: int, post: string)
    requires |post| > 0
    ensures Laid(pre + Print(Regular(v)) + post, |pre|, Regular(v))
  {
    var t := Regular(v);
    var s := pre + Print(t) + post;
    LenPrint(t);
    PlainNumber(v);
    forall k | |pre| <= k < |pre| + Len(t)
      ensures Plain(s[k])
    {
      assert s[k] == Print(t)[k - |pre|];
    }
    PlainRunIntro(s, |pre|, Len(t));
  }

  lemma {:induction false} PrintLaidPair(pre: string, l: Item, r: Item, post: string)
    requires |post| > 0
    ensures Laid(pre + Print(Pair(l, r)) + post, |pre|, Pair(l, r))
    decreases Pair(l, r), 1
  {
    var s := pre + Print(Pair(l, r)) + post;
    PrintedPairChars(pre, l, r, post);
    PrintLaidLeft(pre, l, r, post);
    PrintLaidRight(pre, l, r, post);
  }

  /** Where the brackets and the comma of a printed pair sit in the text around it. */
  lemma PrintedPairChars(pre: string, l: Item, r: Item, post: string)
    requires |post| > 0
    ensures var s := pre + Print(Pair(l, r)) + post;
      && |pre| + Len(l) + Len(r) + 3 < |s|
      && s[|pre|] == '[' && s[|pre| + 1 + Len(l)] == ',' && s[|pre| + 2 + Len(l) + Len(r)] == ']'
  {
    var P, A, B := Print(Pair(l, r)), Print(l), Print(r);
    var s := pre + P + post;
    LenPrint(l);
    LenPrint(r);
    PairText(l, r);
    assert s[|pre|] == P[0];
    assert s[|pre| + 1 + |A|] == P[1 + |A|];
    assert s[|pre| + 2 + |A| + |B|] == P[2 + |A| + |B|];
  }

  lemma {:induction false} PrintLaidLeft(pre: string, l: Item, r: Item, post: string)
    requires |post| > 0
    ensures Laid(pre + Print(Pair(l, r)) + post, |pre| + 1, l)
    decreases Pair(l, r), 0
  {
    var A, B := Print(l), Print(r);
    assert pre + Print(Pair(l, r)) + post == (pre + "[") + A + ("," + B + "]" + post);
    PrintLaid(pre + "[", l, "," + B + "]" + post);
  }

  lemma {:induction false} PrintLaidRight(pre: string, l: Item, r: Item, post: string)
    requires |post| > 0
    ensures Laid(pre + Print(Pair(l, r)) + post, |pre| + 2 + Len(l), r)
    decreases Pair(l, r), 0
  {
    var A, B := Print(l), Print(r);
    LenPrint(l);
    assert pre + Print(Pair(l, r)) + post == (pre + "[" + A + ",") + B + ("]" + post);
    PrintLaid(pre + "[" + A + ",", r, "]" + post);
  }

  /** The layout of a printed pair. */
  lemma PairText(l: Item, r: Item)
    ensures var P, A, B := Print(Pair(l, r)), Print(l), Print(r);
      && |P| == |A| + |B| + 3
      && P[0] == '[' && P[1 + |A|] == ',' && P[2 + |A| + |B|] == ']'
      && P[1..1 + |A|] == A && P[2 + |A|..2 + |A| + |B|] == B
  {
    var A, B := Print(l), Print(r);
    var P1 := "[" + A;
    var P2 := P1 + ",";
    var P3 := P2 + B;
    assert Print(Pair(l, r)) == P3 + "]";
    assert P3[2 + |A|..] == B;
    assert (P3 + "]")[2 + |A|..2 + |A| + |B|] == P3[2 + |A|..];
    assert P2[1..1 + |A|] == A;
    assert (P3 + "]")[1..1 + |A|] == P2[1..1 + |A|];
  }

  lemma SkipPairPunctuation(s: string, i: nat, open: int, a: nat, b: nat, j: nat)
    requires open >= 0 && j == i + a + b + 3 && j < |s|
    requires s[i] == '[' && s[i + 1 + a] == ',' && s[i + 2 + a + b] == ']'
    requires FindComma(s, i + 1, open + 1) == FindComma(s, i + 1 + a, open + 1)
    requires FindComma(s, i + 2 + a, open + 1) == FindComma(s, i + 2 + a + b, open + 1)
    ensures FindComma(s, i, open) == FindComma(s, j, open)
  {
    assert FindComma(s, i, open) == FindComma(s, i + 1, open + 1);
    assert FindComma(s, i + 1 + a, open + 1) == FindComma(s, i + 2 + a, open + 1);
    assert FindComma(s, i + 2 + a + b, open + 1) == FindComma(s, i + 3 + a + b, open);
  }

  /** Parsing reads back what printing writes, for items of 32-bit numbers. */
  lemma {:induction false} ParsePrint(t: Item)
    requires AllInt32(t)
    ensures ParseItem(Print(t)) == Some(t)
    decreases t
  {
    match t
    case Regular(v) =>
      NumberTextIs(v);
      Text.ParseIntToString(v);
    case Pair(l, r) =>
      ParsePrint(l);
      ParsePrint(r);
      ParsePrintedPair(l, r);
  }

  lemma ParsePrintedPair(l: Item, r: Item)
    requires ParseItem(Print(l)) == Some(l) && ParseItem(Print(r)) == Some(r)
    ensures ParseItem(Print(Pair(l, r))) == Some(Pair(l, r))
  {
    var P, A, B := Print(Pair(l, r)), Print(l), Print(r);
    PrintedPairNotNumber(l, r);
    var c := 1 + Len(l);
    assert FindComma(P, 1, 0) == Some(c) && P[1..c] == A && P[c + 1..|P| - 1] == B by {
      PairText(l, r);
      LenPrint(l);
      PrintedPairComma(l, r, c);
    }
    ParsedPair(P, c, l, r);
  }

  /** A printed pair starts with a bracket, so it does not read as a number. */
  lemma PrintedPairNotNumber(l: Item, r: Item)
    ensures TryParseInt32(Print(Pair(l, r))).None?
  {
    PairText(l, r);
    assert !Text.IsDigit(Print(Pair(l, r))[0]);
  }

  /** Text that is no number, split at comma c into two items, parses as their pair. */
  lemma ParsedPair(s: string, c: nat, left: Item, right: Item)
    requires TryParseInt32(s).None? && FindComma(s, 1, 0) == Some(c)
    requires ParseItem(s[1..c]) == Some(left) && ParseItem(s[c + 1..|s| - 1]) == Some(right)
    ensures ParseItem(s) == Some(Pair(left, right))
  {
  }

  /** The first comma outside brackets in a printed pair follows its left item. */
  lemma PrintedPairComma(l: Item, r: Item, c: nat)
    requires c == 1 + Len(l)
    ensures FindComma(Print(Pair(l, r)), 1, 0) == Some(c)
  {
    var P, A, B := Print(Pair(l, r)), Print(l), Print(r);
    PairText(l, r);
    LenPrint(l);
    assert P == "[" + A + ("," + B + "]");
    PrintLaid("[", l, "," + B + "]");
    SkipItem(P, 1, 0, l, c);
    assert FindComma(P, c, 0) == Some(c);
  }

  /** A printed pair reads back as that pair. */
  lemma PrintedPairParses(t: Item)
    requires t.Pair? && AllInt32(t)
    ensures ParseSnail(Print(t)) == Some(t)
  {
    ParsePrint(t);
    var P := Print(t);
    assert P[0] == '[' && !Text.IsDigit(P[0]);
  }

  // ---------------------------------------------------------------------------------------
  // Part one and part two (lines 7-39)
  // ---------------------------------------------------------------------------------------

  /** The running sum of lines 10-15, from `acc` over the remaining lines. */
  function SumFrom(acc: Item, lines: seq<string>, fuel: nat): Option<Item>
    decreases |lines|
  {
    if |lines| == 0 then Some(acc)
    else
      match ParseSnail(lines[0])
      case None => None
      case Some(next) =>
        match ReduceSpec(Pair(acc, next), fuel)
        case None => None
        case Some(sum) => SumFrom(sum, lines[1..], fuel)
  }

  /** Lines 7-17: the magnitude of the sum of all numbers, in order. */
  function Solution1Spec(lines: seq<string>, fuel: nat): Option<int>
  {
    if |lines| == 0 then None
    else
      match ParseSnail(lines[0])
      case None => None
      case Some(first) =>
        match SumFrom(first, lines[1..], fuel)
        case None => None
        case Some(sum) => Some(Magnitude(sum))
  }

  /** A sum of two or more numbers is reduced. */
  lemma {:induction false} SumFromReduced(acc: Item, lines: seq<string>, fuel: nat)
    requires |lines| >= 1
    ensures SumFrom(acc, lines, fuel).Some? ==> Reduced(SumFrom(acc, lines, fuel).value)
    decreases |lines|
  {
    match ParseSnail(lines[0])
    case None =>
    case Some(next) =>
      ReduceSpecReduced(Pair(acc, next), fuel);
      match ReduceSpec(Pair(acc, next), fuel)
      case None =>
      case Some(sum) =>
        if |lines| > 1 {
          SumFromReduced(sum, lines[1..], fuel);
        }
  }

  /** Lines 7-17. */
  method Solution1(lines: seq<string>, fuel: nat) returns (r: Option<int>)
    ensures r == Solution1Spec(lines, fuel)
  {
    if |lines| == 0 {
      return None;
    }
    var first := SplitString(lines[0]);
    if first.None? {
      return None;
    }
    var result := first.value;
    for i := 1 to |lines|
      invariant SumFrom(result, lines[i..], fuel) == SumFrom(first.value, lines[1..], fuel)
    {
      assert lines[i..][0] == lines[i] && lines[i..][1..] == lines[i + 1..];
      var next := SplitString(lines[i]);
      if next.None? {
        return None;
      }
      var sum := Reduce(Pair(result, next.value), fuel);
      if sum.None? {
        return None;
      }
      result := sum.value;
    }
    assert lines[|lines|..] == [];
    return Some(Magnitude(result));
  }

  /** Line 31: the magnitude of the sum of the numbers on lines i and j. */
  function PairMagnitude(lines: seq<string>, i: nat, j: nat, fuel: nat): Option<int>
    requires i < |lines| && j < |lines|
  {
    match ParseSnail(lines[i])
    case None => None
    case Some(a) =>
      match ParseSnail(lines[j])
      case None => None
      case Some(b) =>
        match ReduceSpec(Pair(a, b), fuel)
        case None => None
        case Some(sum) => Some(Magnitude(sum))
  }

  /**
   * Lines 19-39: the largest magnitude of a sum of two numbers on different lines, starting
   * from the smallest `long`; `None` when some sum cannot be computed.
   */
  method Solution2(lines: seq<string>, fuel: nat) returns (r: Option<int>)
    ensures r.None? <==>
      exists i, j :: 0 <= i < |lines| && 0 <= j < |lines| && i != j && PairMagnitude(lines, i, j, fuel).None?
    ensures r.Some? ==> forall i, j :: 0 <= i < |lines| && 0 <= j < |lines| && i != j ==>
      PairMagnitude(lines, i, j, fuel).Some? && PairMagnitude(lines, i, j, fuel).value <= r.value
    ensures r.Some? ==> (r.value == CSharpInt.LONG_MIN ||
      exists i, j :: 0 <= i < |lines| && 0 <= j < |lines| && i != j && PairMagnitude(lines, i, j, fuel) == Some(r.value))
    ensures |lines| < 2 ==> r == Some(CSharpInt.LONG_MIN)
  {
    var largestMagnitude := CSharpInt.LONG_MIN;
    ghost var found, wi, wj := false, 0, 0;
    for i := 0 to |lines|
      invariant forall a, b :: 0 <= a < i && 0 <= b < |lines| && a != b ==>
        PairMagnitude(lines, a, b, fuel).Some? && PairMagnitude(lines, a, b, fuel).value <= largestMagnitude
      invariant found ==> (wi < |lines| && wj < |lines| && wi != wj
        && PairMagnitude(lines, wi, wj, fuel) == Some(largestMagnitude))
      invariant !found ==> largestMagnitude == CSharpInt.LONG_MIN
    {
      for j := 0 to |lines|
        invariant forall a, b :: 0 <= a < |lines| && 0 <= b < |lines| && a != b && (a < i || (a == i && b < j)) ==>
          PairMagnitude(lines, a, b, fuel).Some? && PairMagnitude(lines, a, b, fuel).value <= largestMagnitude
        invariant found ==> (wi < |lines| && wj < |lines| && wi != wj
          && PairMagnitude(lines, wi, wj, fuel) == Some(largestMagnitude))
        invariant !found ==> largestMagnitude == CSharpInt.LONG_MIN
      {
        if i == j {
          continue;
        }
        var a := SplitString(lines[i]);
        if a.None? {
          assert PairMagnitude(lines, i, j, fuel).None?;
          return None;
        }
        var b := SplitString(lines[j]);
        if b.None? {
          assert PairMagnitude(lines, i, j, fuel).None?;
          return None;
        }
        var sum := Reduce(Pair(a.value, b.value), fuel);
        if sum.None? {
          assert PairMagnitude(lines, i, j, fuel).None?;
          return None;
        }
        var magnitude := Magnitude(sum.value);
        assert PairMagnitude(lines, i, j, fuel) == Some(magnitude);
        if magnitude > largestMagnitude {
          largestMagnitude := magnitude;
          found, wi, wj := true, i, j;
        }
      }
    }
    if |lines| >= 2 {
      assert PairMagnitude(lines, 0, 1, fuel).Some?;
    }
    return Some(largestMagnitude);
  }
}

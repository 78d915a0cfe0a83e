/**
 * TravelingSalespersonProblem: the distance table built from a list of city pairs, and the
 * Held-Karp dynamic programme over subsets of cities (bit masks) that finds the shortest or the
 * longest route through every city, optionally closed by one more edge.
 *
 * `dp[mask, v]` is filled by pushing from each mask, in increasing order, to the masks with one
 * more city. The recurrence the loops compute is `Value`; `ValueOptimal` and `ValueWitness`
 * prove that it is the best cost over the routes that visit exactly `mask` and end at `v`.
 */
module TravelingSalespersonProblem {
  import opened Bits
  import opened Names
  import CSharpInt

  const IntMax: int := CSharpInt.INT_MAX
  const IntMin: int := CSharpInt.INT_MIN

  /** The entry the distance table holds for two cities no pair joins (`int.MaxValue`, line 28). */
  const NoEdge: int := IntMax

  /** The "nothing yet" value of the table: `int.MaxValue` when minimising, `int.MinValue` when maximising. */
  function Sentinel(maximize: bool): int
  {
    if maximize then IntMin else IntMax
  }

  /** `Math.Min` or `Math.Max`. */
  function Pick(maximize: bool, a: int, b: int): int
  {
    if maximize then (if a >= b then a else b) else (if a <= b then a else b)
  }

  /** x is at least as good as y. */
  predicate AtLeastAsGood(maximize: bool, x: int, y: int)
  {
    if maximize then x >= y else x <= y
  }

  /** An n × n table, as the rows of the C# `int[,]`. */
  predicate Square(g: seq<seq<int>>, n: nat)
  {
    |g| == n && forall i :: 0 <= i < n ==> |g[i]| == n
  }

  // ---------------------------------------------------------------------------
  // The recurrence.
  // ---------------------------------------------------------------------------

  /** The table after its initialisation: 0 at (2^v, v), the sentinel elsewhere. */
  function Init(maximize: bool, m: nat, v: nat): int
  {
    if m == Pow2(v) then 0 else Sentinel(maximize)
  }

  /**
   * The final value of `dp[m, v]`: the initial value unless v is in m together with some other
   * city, in which case it is the best of the candidates pushed from m without v.
   */
  function Value(g: seq<seq<int>>, n: nat, maximize: bool, m: nat, v: nat): int
    requires Square(g, n) && v < n
    decreases m, n + 1
  {
    if Has(m, v) && m > Pow2(v) then Relax(g, n, maximize, m, v, n) else Init(maximize, m, v)
  }

  /**
   * `dp[m, v]` after the cities u < j of pm = m - 2^v have pushed to it: a city u of pm whose
   * edge to v is present and whose own entry was reached offers `dp[pm, u] + graph[u, v]`.
   */
  function Relax(g: seq<seq<int>>, n: nat, maximize: bool, m: nat, v: nat, j: nat): int
    requires Square(g, n) && v < n && j <= n && m > Pow2(v)
    decreases m, j
  {
    if j == 0 then Sentinel(maximize)
    else
      var acc := Relax(g, n, maximize, m, v, j - 1);
      var u, pm := j - 1, m - Pow2(v);
      if Has(pm, u) && g[u][v] != NoEdge && Value(g, n, maximize, pm, u) != Sentinel(maximize)
      then Pick(maximize, acc, Value(g, n, maximize, pm, u) + g[u][v])
      else acc
  }

  /** The entry (m, v) is written while the loop processes `mask`. */
  predicate Pending(m: nat, v: nat, mask: nat)
  {
    Has(m, v) && m > Pow2(v) && m - Pow2(v) == mask
  }

  /** `dp[m, v]` once every mask below k has been processed. */
  function Expect(g: seq<seq<int>>, n: nat, maximize: bool, m: nat, v: nat, k: nat): int
    requires Square(g, n) && v < n
  {
    if Has(m, v) && m > Pow2(v) && m - Pow2(v) < k then Value(g, n, maximize, m, v) else Init(maximize, m, v)
  }

  /** `dp[m, v]` while `mask` is processed, after its cities below j have pushed. */
  function During(g: seq<seq<int>>, n: nat, maximize: bool, m: nat, v: nat, mask: nat, j: nat): int
    requires Square(g, n) && v < n && j <= n
  {
    if Pending(m, v, mask) then Relax(g, n, maximize, m, v, j) else Expect(g, n, maximize, m, v, mask)
  }

  /** An entry whose mask is at most k is final once the masks below k are processed. */
  lemma Settled(g: seq<seq<int>>, n: nat, maximize: bool, m: nat, v: nat, k: nat)
    requires Square(g, n) && v < n && m <= k
    ensures Expect(g, n, maximize, m, v, k) == Value(g, n, maximize, m, v)
  {
  }

  /** The values never pass the sentinel: at most `int.MaxValue` when minimising, at least `int.MinValue` when maximising. */
  lemma {:induction false} RelaxWithin(g: seq<seq<int>>, n: nat, maximize: bool, m: nat, v: nat, j: nat)
    requires Square(g, n) && v < n && j <= n && m > Pow2(v)
    ensures AtLeastAsGood(maximize, Relax(g, n, maximize, m, v, j), Sentinel(maximize))
    decreases j
  {
    if j > 0 {
      RelaxWithin(g, n, maximize, m, v, j - 1);
    }
  }

  lemma ValueWithin(g: seq<seq<int>>, n: nat, maximize: bool, m: nat, v: nat)
    requires Square(g, n) && v < n
    ensures AtLeastAsGood(maximize, Value(g, n, maximize, m, v), Sentinel(maximize))
  {
    if Has(m, v) && m > Pow2(v) {
      RelaxWithin(g, n, maximize, m, v, n);
    }
  }

  // ---------------------------------------------------------------------------
  // Routes: what the recurrence computes.
  // ---------------------------------------------------------------------------

  /** The bit mask of the cities of a route. */
  function MaskOf(p: seq<nat>): nat
  {
    if |p| == 0 then 0 else MaskOf(p[..|p| - 1]) + Pow2(p[|p| - 1])
  }

  predicate Distinct(p: seq<nat>)
  {
    forall i, j :: 0 <= i < j < |p| ==> p[i] != p[j]
  }

  predicate InRange(p: seq<nat>, n: nat)
  {
    forall i :: 0 <= i < |p| ==> p[i] < n
  }

  /** Every step of the route is an edge of the table (an entry other than `NoEdge`). */
  predicate Linked(g: seq<seq<int>>, n: nat, p: seq<nat>)
    requires Square(g, n) && InRange(p, n)
  {
    forall i :: 0 <= i < |p| - 1 ==> g[p[i]][p[i + 1]] != NoEdge
  }

  /** The sum of the route's edges. */
  function Cost(g: seq<seq<int>>, n: nat, p: seq<nat>): int
    requires Square(g, n) && InRange(p, n)
  {
    if |p| <= 1 then 0 else Cost(g, n, p[..|p| - 1]) + g[p[|p| - 2]][p[|p| - 1]]
  }

  /** A route through exactly the cities of m, each once, ending at v. */
  predicate Route(g: seq<seq<int>>, n: nat, p: seq<nat>, m: nat, v: nat)
    requires Square(g, n)
  {
    |p| >= 1 && InRange(p, n) && Distinct(p) && Linked(g, n, p) && MaskOf(p) == m && p[|p| - 1] == v
  }

  /** A route through every city exactly once. */
  predicate Tour(g: seq<seq<int>>, n: nat, p: seq<nat>)
    requires Square(g, n)
  {
    |p| >= 1 && InRange(p, n) && Distinct(p) && Linked(g, n, p) && forall j :: 0 <= j < n ==> j in p
  }

  predicate NonNegative(g: seq<seq<int>>, n: nat)
    requires Square(g, n)
  {
    forall i, j :: 0 <= i < n && 0 <= j < n ==> g[i][j] >= 0
  }

  /** The bits of a route's mask are its cities. */
  lemma {:induction false} MaskBits(p: seq<nat>, j: nat)
    requires Distinct(p)
    ensures Has(MaskOf(p), j) <==> j in p
    decreases |p|
  {
    if |p| == 0 {
      ZeroHasNone(j);
    } else {
      var front, last := p[..|p| - 1], p[|p| - 1];
      MaskBits(front, j);
      MaskBits(front, last);
      SetBit(MaskOf(front), last, j);
    }
  }

  /** A route over cities below n has a mask below 2^n. */
  lemma {:induction false} MaskBelow(p: seq<nat>, n: nat)
    requires Distinct(p) && InRange(p, n)
    ensures MaskOf(p) < Pow2(n)
    decreases |p|
  {
    if |p| > 0 {
      var front, last := p[..|p| - 1], p[|p| - 1];
      MaskBelow(front, n);
      MaskBits(front, last);
      SetBitBelow(MaskOf(front), n, last);
    }
  }

  /** A mask below 2^n with every bit below n set is 2^n - 1. */
  lemma {:induction false} AllBitsSet(mask: nat, n: nat)
    requires mask < Pow2(n) && forall j :: 0 <= j < n ==> Has(mask, j)
    ensures mask == Pow2(n) - 1
    decreases n
  {
    if n == 0 {
    } else {
      assert Has(mask, 0);
      forall j | 0 <= j < n - 1 ensures Has(mask / 2, j) {
        assert Has(mask, j + 1);
      }
      AllBitsSet(mask / 2, n - 1);
    }
  }

  /** Tours are exactly the routes through the full mask 2^n - 1. */
  lemma TourIsFullRoute(g: seq<seq<int>>, n: nat, p: seq<nat>)
    requires Square(g, n) && |p| >= 1
    ensures Tour(g, n, p) <==> Route(g, n, p, Full(n), p[|p| - 1])
  {
    if Tour(g, n, p) {
      MaskBelow(p, n);
      forall j | 0 <= j < n ensures Has(MaskOf(p), j) {
        MaskBits(p, j);
      }
      AllBitsSet(MaskOf(p), n);
    }
    if Route(g, n, p, Full(n), p[|p| - 1]) {
      forall j | 0 <= j < n ensures j in p {
        FullMask(n, j);
        MaskBits(p, j);
      }
    }
  }

  lemma {:induction false} CostNonNegative(g: seq<seq<int>>, n: nat, p: seq<nat>)
    requires Square(g, n) && InRange(p, n) && NonNegative(g, n)
    ensures Cost(g, n, p) >= 0
    decreases |p|
  {
    if |p| > 1 {
      CostNonNegative(g, n, p[..|p| - 1]);
    }
  }

  /** Each candidate bounds `Relax`: the result is at least as good as every candidate pushed. */
  lemma {:induction false} RelaxCandidate(g: seq<seq<int>>, n: nat, maximize: bool, M: nat, pm: nat, v: nat, u: nat, j: nat)
    requires Square(g, n) && v < n && pm >= 1 && M == pm + Pow2(v) && u < j <= n
    requires Has(pm, u) && g[u][v] != NoEdge && Value(g, n, maximize, pm, u) != Sentinel(maximize)
    ensures AtLeastAsGood(maximize, Relax(g, n, maximize, M, v, j), Value(g, n, maximize, pm, u) + g[u][v])
    decreases j
  {
    RelaxUnfold(g, n, maximize, M, pm, v, j - 1);
    if u < j - 1 {
      RelaxCandidate(g, n, maximize, M, pm, v, u, j - 1);
    }
  }

  /** A value other than the sentinel was pushed by some city u. */
  lemma {:induction false} RelaxWitness(g: seq<seq<int>>, n: nat, maximize: bool, M: nat, pm: nat, v: nat, j: nat)
    returns (u: nat)
    requires Square(g, n) && v < n && pm >= 1 && M == pm + Pow2(v) && j <= n
    requires Relax(g, n, maximize, M, v, j) != Sentinel(maximize)
    ensures u < j && Has(pm, u) && g[u][v] != NoEdge && Value(g, n, maximize, pm, u) != Sentinel(maximize)
    ensures Relax(g, n, maximize, M, v, j) == Value(g, n, maximize, pm, u) + g[u][v]
    decreases j
  {
    if j == 0 {
      assert false;
    }
    RelaxUnfold(g, n, maximize, M, pm, v, j - 1);
    var w := j - 1;
    if Has(pm, w) && g[w][v] != NoEdge && Value(g, n, maximize, pm, w) != Sentinel(maximize)
      && Relax(g, n, maximize, M, v, j) == Value(g, n, maximize, pm, w) + g[w][v] {
      u := w;
    } else {
      u := RelaxWitness(g, n, maximize, M, pm, v, j - 1);
    }
  }

  /**
   * Optimality: with non-negative distances, `Value(m, v)` is at least as good as the cost of
   * every route through exactly m ending at v. (When minimising, a route dearer than
   * `int.MaxValue` leaves the entry at the sentinel.)
   */
  lemma {:induction false} ValueOptimal(g: seq<seq<int>>, n: nat, maximize: bool, p: seq<nat>, m: nat, v: nat)
    requires Square(g, n) && v < n && NonNegative(g, n) && Route(g, n, p, m, v)
    ensures AtLeastAsGood(maximize, Value(g, n, maximize, m, v), Cost(g, n, p))
    decreases |p|
  {
    if |p| == 1 {
      assert p[..0] == [];
    } else {
      var front := p[..|p| - 1];
      var u, pm := front[|front| - 1], MaskOf(front);
      assert forall i :: 0 <= i < |front| ==> front[i] == p[i];
      ValueOptimal(g, n, maximize, front, pm, u);
      MaskBits(front, v);
      MaskBits(front, u);
      BitBelow(pm, u);
      SetBit(pm, v, v);
      CostNonNegative(g, n, front);
      ValueWithin(g, n, maximize, m, v);
      if Value(g, n, maximize, pm, u) != Sentinel(maximize) {
        RelaxCandidate(g, n, maximize, m, pm, v, u, n);
      }
    }
  }

  /** A value other than the sentinel is the cost of a route through exactly m ending at v. */
  lemma {:induction false} ValueWitness(g: seq<seq<int>>, n: nat, maximize: bool, m: nat, v: nat) returns (p: seq<nat>)
    requires Square(g, n) && v < n && Value(g, n, maximize, m, v) != Sentinel(maximize)
    ensures Route(g, n, p, m, v) && Cost(g, n, p) == Value(g, n, maximize, m, v)
    decreases m
  {
    if Has(m, v) && m > Pow2(v) {
      var pm := m - Pow2(v);
      ClearBit(m, v, v);
      var u := RelaxWitness(g, n, maximize, m, pm, v, n);
      var front := ValueWitness(g, n, maximize, pm, u);
      MaskBits(front, v);
      p := front + [v];
      assert p[..|p| - 1] == front;
    } else {
      p := [v];
      assert p[..0] == [];
    }
  }

  // ---------------------------------------------------------------------------
  // The dynamic programme.
  // ---------------------------------------------------------------------------

  /** The table as rows. */
  ghost function Snapshot(a: array2<int>): (g: seq<seq<int>>)
    reads a
    ensures |g| == a.Length0 && forall i :: 0 <= i < a.Length0 ==> |g[i]| == a.Length1
    ensures forall i, j :: 0 <= i < a.Length0 && 0 <= j < a.Length1 ==> g[i][j] == a[i, j]
  {
    seq(a.Length0, i reads a requires 0 <= i < a.Length0 =>
      seq(a.Length1, j reads a requires 0 <= j < a.Length1 => a[i, j]))
  }

  /**
   * Lines 46-78 of the source (and 116-148 for the maximum): fill `dp` with the sentinel, seed
   * every single-city mask with 0, then push from every mask in increasing order. An entry
   * `dp[mask, u]` still at the sentinel is skipped (see `AsWrittenValue` for the code without
   * that guard).
   */
  method FillTable(graph: array2<int>, maximize: bool) returns (dp: array2<int>)
    requires graph.Length0 == graph.Length1 <= 30
    ensures fresh(dp) && dp.Length0 == Pow2(graph.Length0) && dp.Length1 == graph.Length0
    ensures forall m, v :: 0 <= m < dp.Length0 && 0 <= v < dp.Length1 ==>
      dp[m, v] == Value(Snapshot(graph), graph.Length0, maximize, m, v)
  {
    var n := graph.Length0;
    ghost var g := Snapshot(graph);
    var size := Pow2(n);
    dp := new int[size, n];
    for i := 0 to size
      invariant forall m, v :: 0 <= m < i && 0 <= v < n ==> dp[m, v] == Sentinel(maximize)
    {
      for j := 0 to n
        invariant forall m, v :: 0 <= m < i && 0 <= v < n ==> dp[m, v] == Sentinel(maximize)
        invariant forall v :: 0 <= v < j ==> dp[i, v] == Sentinel(maximize)
      {
        dp[i, j] := Sentinel(maximize);
      }
    }
    for i := 0 to n
      invariant forall m, v :: 0 <= m < size && 0 <= v < n ==>
        dp[m, v] == if m == Pow2(v) && v < i then 0 else Sentinel(maximize)
    {
      Pow2Grows(i, n);
      dp[Pow2(i), i] := 0;
    }
    for mask := 1 to size
      invariant forall m, v :: 0 <= m < size && 0 <= v < n ==> dp[m, v] == Expect(g, n, maximize, m, v, mask)
    {
      ProcessMask(graph, dp, maximize, mask);
    }
    forall m, v | 0 <= m < size && 0 <= v < n ensures dp[m, v] == Value(g, n, maximize, m, v) {
      Settled(g, n, maximize, m, v, size);
    }
  }

  /** One turn of the mask loop: every city u of mask pushes to the masks with one more city. */
  method ProcessMask(graph: array2<int>, dp: array2<int>, maximize: bool, mask: nat)
    requires graph.Length0 == graph.Length1 <= 30 && dp != graph
    requires dp.Length0 == Pow2(graph.Length0) && dp.Length1 == graph.Length0 && 1 <= mask < dp.Length0
    requires forall m, v :: 0 <= m < dp.Length0 && 0 <= v < dp.Length1 ==>
      dp[m, v] == Expect(Snapshot(graph), graph.Length0, maximize, m, v, mask)
    modifies dp
    ensures forall m, v :: 0 <= m < dp.Length0 && 0 <= v < dp.Length1 ==>
      dp[m, v] == Expect(Snapshot(graph), graph.Length0, maximize, m, v, mask + 1)
  {
    var n := graph.Length0;
    ghost var g := Snapshot(graph);
    forall m, v | 0 <= m < dp.Length0 && 0 <= v < n ensures dp[m, v] == During(g, n, maximize, m, v, mask, 0) {
    }
    for u := 0 to n
      invariant forall m, v :: 0 <= m < dp.Length0 && 0 <= v < n ==> dp[m, v] == During(g, n, maximize, m, v, mask, u)
    {
      if !Has(mask, u) {
        // (mask & (1 << u)) == 0: u is not in the subset
        continue;
      }
      Settled(g, n, maximize, mask, u, mask);
      if dp[mask, u] == Sentinel(maximize) {
        continue;
      }
      PushFrom(graph, dp, maximize, mask, u);
    }
  }

  /** The inner loop: city u of mask pushes `dp[mask, u] + graph[u, v]` to every city v outside mask with an edge. */
  method PushFrom(graph: array2<int>, dp: array2<int>, maximize: bool, mask: nat, u: nat)
    requires graph.Length0 == graph.Length1 <= 30 && dp != graph
    requires dp.Length0 == Pow2(graph.Length0) && dp.Length1 == graph.Length0 && 1 <= mask < dp.Length0
    requires u < graph.Length0 && Has(mask, u)
    requires dp[mask, u] == Value(Snapshot(graph), graph.Length0, maximize, mask, u) != Sentinel(maximize)
    requires forall m, v :: 0 <= m < dp.Length0 && 0 <= v < dp.Length1 ==>
      dp[m, v] == During(Snapshot(graph), graph.Length0, maximize, m, v, mask, u)
    modifies dp
    ensures forall m, v :: 0 <= m < dp.Length0 && 0 <= v < dp.Length1 ==>
      dp[m, v] == During(Snapshot(graph), graph.Length0, maximize, m, v, mask, u + 1)
  {
    var n := graph.Length0;
    ghost var g := Snapshot(graph);
    var here := dp[mask, u];
    for v := 0 to n
      invariant forall m, w :: 0 <= m < dp.Length0 && 0 <= w < n ==>
        dp[m, w] == During(g, n, maximize, m, w, mask, if w < v then u + 1 else u)
    {
      if Has(mask, v) || graph[u, v] == NoEdge {
        // v is already in the subset, or the edge does not exist
        NoPendingFor(g, n, maximize, mask, u, v, dp.Length0);
        continue;
      }
      SetBitBelow(mask, n, v);
      var newMask := mask + Pow2(v);
      PushPending(mask, v);
      RelaxPush(g, n, maximize, newMask, mask, v, u);
      dp[newMask, v] := Pick(maximize, dp[newMask, v], here + graph[u, v]);
    }
  }

  /** When v is in mask or the edge u→v is missing, no entry for v changes. */
  lemma NoPendingFor(g: seq<seq<int>>, n: nat, maximize: bool, mask: nat, u: nat, v: nat, size: nat)
    requires Square(g, n) && u < n && v < n && Has(mask, u)
    requires Has(mask, v) || g[u][v] == NoEdge
    ensures forall m :: 0 <= m < size && Pending(m, v, mask) ==>
      Relax(g, n, maximize, m, v, u + 1) == Relax(g, n, maximize, m, v, u)
  {
    forall m | 0 <= m < size && Pending(m, v, mask)
      ensures Relax(g, n, maximize, m, v, u + 1) == Relax(g, n, maximize, m, v, u)
    {
      ClearBit(m, v, v);
    }
  }

  /** The one entry pending for v while mask is processed is (mask + 2^v, v). */
  lemma PushPending(mask: nat, v: nat)
    requires mask >= 1 && !Has(mask, v)
    ensures Pending(mask + Pow2(v), v, mask)
    ensures forall m :: Pending(m, v, mask) ==> m == mask + Pow2(v)
  {
    SetBit(mask, v, v);
  }

  /** The step of `Relax` at a city u of pm that offers its candidate. */
  lemma RelaxPush(g: seq<seq<int>>, n: nat, maximize: bool, M: nat, pm: nat, v: nat, u: nat)
    requires Square(g, n) && v < n && u < n && pm >= 1 && M == pm + Pow2(v)
    requires Has(pm, u) && g[u][v] != NoEdge && Value(g, n, maximize, pm, u) != Sentinel(maximize)
    ensures Relax(g, n, maximize, M, v, u + 1) ==
      Pick(maximize, Relax(g, n, maximize, M, v, u), Value(g, n, maximize, pm, u) + g[u][v])
  {
    RelaxUnfold(g, n, maximize, M, pm, v, u);
  }

  /** One step of `Relax`, spelled out for M = pm + 2^v. */
  lemma RelaxUnfold(g: seq<seq<int>>, n: nat, maximize: bool, M: nat, pm: nat, v: nat, u: nat)
    requires Square(g, n) && v < n && u < n && pm >= 1 && M == pm + Pow2(v)
    ensures Relax(g, n, maximize, M, v, u + 1) ==
        if Has(pm, u) && g[u][v] != NoEdge && Value(g, n, maximize, pm, u) != Sentinel(maximize)
        then Pick(maximize, Relax(g, n, maximize, M, v, u), Value(g, n, maximize, pm, u) + g[u][v])
        else Relax(g, n, maximize, M, v, u)
  {
  }

  // ---------------------------------------------------------------------------
  // Reading the answer off the full mask.
  // ---------------------------------------------------------------------------

  /** The mask of all n cities, `(1 << n) - 1`. */
  function Full(n: nat): nat
  {
    Pow2(n) - 1
  }

  /** Best of `dp[full, u]` over the reached u < j, starting from the sentinel. */
  function OpenBest(g: seq<seq<int>>, n: nat, maximize: bool, j: nat): int
    requires Square(g, n) && j <= n && n >= 1
  {
    if j == 0 then Sentinel(maximize)
    else
      var acc := OpenBest(g, n, maximize, j - 1);
      var d := Value(g, n, maximize, Full(n), j - 1);
      if d != Sentinel(maximize) then Pick(maximize, acc, d) else acc
  }

  /** Best of `dp[full, u] + graph[u, v]` over the reached u < j and the present edges to v != u. */
  function ClosedBest(g: seq<seq<int>>, n: nat, maximize: bool, j: nat): int
    requires Square(g, n) && j <= n && n >= 1
  {
    if j == 0 then Sentinel(maximize)
    else
      var acc := ClosedBest(g, n, maximize, j - 1);
      var d := Value(g, n, maximize, Full(n), j - 1);
      if d != Sentinel(maximize) then CloseFrom(g, n, maximize, acc, j - 1, d, n) else acc
  }

  /** Folds the closing edges u → v, v < k, into acc. */
  function CloseFrom(g: seq<seq<int>>, n: nat, maximize: bool, acc: int, u: nat, d: int, k: nat): int
    requires Square(g, n) && u < n && k <= n
  {
    if k == 0 then acc
    else
      var a := CloseFrom(g, n, maximize, acc, u, d, k - 1);
      var v := k - 1;
      if u != v && g[u][v] != NoEdge then Pick(maximize, a, d + g[u][v]) else a
  }

  /** The result: -1 when the search stayed at the sentinel. */
  function Answer(g: seq<seq<int>>, n: nat, maximize: bool, travelBackToStart: bool): int
    requires Square(g, n)
  {
    var best := if n == 0 then Sentinel(maximize)
      else if travelBackToStart then ClosedBest(g, n, maximize, n) else OpenBest(g, n, maximize, n);
    if best == Sentinel(maximize) then -1 else best
  }

  /** The open fold is at least as good as every reached `Value(full, u)`, u < j, and as the sentinel. */
  lemma {:induction false} OpenBestBound(g: seq<seq<int>>, n: nat, maximize: bool, j: nat)
    requires Square(g, n) && j <= n && n >= 1
    ensures AtLeastAsGood(maximize, OpenBest(g, n, maximize, j), Sentinel(maximize))
    ensures forall u :: 0 <= u < j && Value(g, n, maximize, Full(n), u) != Sentinel(maximize) ==>
      AtLeastAsGood(maximize, OpenBest(g, n, maximize, j), Value(g, n, maximize, Full(n), u))
    decreases j
  {
    if j > 0 {
      OpenBestBound(g, n, maximize, j - 1);
    }
  }

  /** An open fold other than the sentinel is some reached `Value(full, u)`. */
  lemma {:induction false} OpenBestWitness(g: seq<seq<int>>, n: nat, maximize: bool, j: nat) returns (u: nat)
    requires Square(g, n) && j <= n && n >= 1 && OpenBest(g, n, maximize, j) != Sentinel(maximize)
    ensures u < j && Value(g, n, maximize, Full(n), u) != Sentinel(maximize)
    ensures OpenBest(g, n, maximize, j) == Value(g, n, maximize, Full(n), u)
    decreases j
  {
    if j == 0 {
      assert false;
    }
    var d := Value(g, n, maximize, Full(n), j - 1);
    if d != Sentinel(maximize) && OpenBest(g, n, maximize, j) == d {
      u := j - 1;
    } else {
      u := OpenBestWitness(g, n, maximize, j - 1);
    }
  }

  /**
   * The answer without the closing edge, for non-negative distances: when it is not -1 it is
   * the cost of some tour and at least as good as every tour; when it is -1 no tour is better
   * than the sentinel (when maximising: there is no tour at all).
   */
  lemma OpenAnswerOptimal(g: seq<seq<int>>, n: nat, maximize: bool)
    requires Square(g, n) && NonNegative(g, n)
    ensures Answer(g, n, maximize, false) != -1 ==>
      exists p :: Tour(g, n, p) && Cost(g, n, p) == Answer(g, n, maximize, false)
    ensures Answer(g, n, maximize, false) != -1 ==>
      forall p :: Tour(g, n, p) ==> AtLeastAsGood(maximize, Answer(g, n, maximize, false), Cost(g, n, p))
    ensures Answer(g, n, maximize, false) == -1 ==>
      forall p :: Tour(g, n, p) ==> AtLeastAsGood(maximize, Sentinel(maximize), Cost(g, n, p))
  {
    forall p | Tour(g, n, p)
      ensures n >= 1 && AtLeastAsGood(maximize, OpenBest(g, n, maximize, n), Cost(g, n, p))
    {
      TourNeedsCity(g, n, p);
      TourOptimal(g, n, maximize, p);
    }
    if n >= 1 && OpenBest(g, n, maximize, n) != Sentinel(maximize) {
      var u := OpenBestWitness(g, n, maximize, n);
      var p := ValueWitness(g, n, maximize, Full(n), u);
      TourIsFullRoute(g, n, p);
      CostNonNegative(g, n, p);
    }
  }

  lemma TourNeedsCity(g: seq<seq<int>>, n: nat, p: seq<nat>)
    requires Square(g, n) && Tour(g, n, p)
    ensures n >= 1
  {
    assert p[0] < n;
  }

  /** One tour against the full-mask entry of its last city, and so against the open fold. */
  lemma TourOptimal(g: seq<seq<int>>, n: nat, maximize: bool, p: seq<nat>)
    requires Square(g, n) && n >= 1 && NonNegative(g, n) && Tour(g, n, p)
    ensures AtLeastAsGood(maximize, Value(g, n, maximize, Full(n), p[|p| - 1]), Cost(g, n, p))
    ensures AtLeastAsGood(maximize, OpenBest(g, n, maximize, n), Cost(g, n, p))
  {
    TourIsFullRoute(g, n, p);
    ValueOptimal(g, n, maximize, p, Full(n), p[|p| - 1]);
    OpenBestBound(g, n, maximize, n);
    CostNonNegative(g, n, p);
  }

  /** A tour followed by one more edge from its last city to another city. */
  predicate ClosedTour(g: seq<seq<int>>, n: nat, p: seq<nat>, v: nat)
    requires Square(g, n)
  {
    Tour(g, n, p) && v < n && v != p[|p| - 1] && g[p[|p| - 1]][v] != NoEdge
  }

  /** The fold over closing edges is at least as good as acc and as every edge it folds. */
  lemma {:induction false} CloseFromBound(g: seq<seq<int>>, n: nat, maximize: bool, acc: int, u: nat, d: int, k: nat)
    requires Square(g, n) && u < n && k <= n
    ensures AtLeastAsGood(maximize, CloseFrom(g, n, maximize, acc, u, d, k), acc)
    ensures forall v :: 0 <= v < k && v != u && g[u][v] != NoEdge ==>
      AtLeastAsGood(maximize, CloseFrom(g, n, maximize, acc, u, d, k), d + g[u][v])
    decreases k
  {
    if k > 0 {
      CloseFromBound(g, n, maximize, acc, u, d, k - 1);
    }
  }

  /** The fold over closing edges is acc or one of the edges it folds. */
  lemma {:induction false} CloseFromWitness(g: seq<seq<int>>, n: nat, maximize: bool, acc: int, u: nat, d: int, k: nat)
    returns (v: nat)
    requires Square(g, n) && u < n && k <= n && CloseFrom(g, n, maximize, acc, u, d, k) != acc
    ensures v < k && v != u && g[u][v] != NoEdge && CloseFrom(g, n, maximize, acc, u, d, k) == d + g[u][v]
    decreases k
  {
    if k == 0 {
      assert false;
    }
    var w := k - 1;
    if w != u && g[u][w] != NoEdge && CloseFrom(g, n, maximize, acc, u, d, k) == d + g[u][w] {
      v := w;
    } else {
      v := CloseFromWitness(g, n, maximize, acc, u, d, k - 1);
    }
  }

  /** The closed fold is at least as good as the sentinel and as every reached entry plus a closing edge. */
  lemma {:induction false} ClosedBestBound(g: seq<seq<int>>, n: nat, maximize: bool, j: nat)
    requires Square(g, n) && j <= n && n >= 1
    ensures AtLeastAsGood(maximize, ClosedBest(g, n, maximize, j), Sentinel(maximize))
    ensures forall u, v :: (0 <= u < j && 0 <= v < n && v != u && g[u][v] != NoEdge &&
      Value(g, n, maximize, Full(n), u) != Sentinel(maximize)) ==>
      AtLeastAsGood(maximize, ClosedBest(g, n, maximize, j), Value(g, n, maximize, Full(n), u) + g[u][v])
    decreases j
  {
    if j > 0 {
      ClosedBestBound(g, n, maximize, j - 1);
      var d := Value(g, n, maximize, Full(n), j - 1);
      if d != Sentinel(maximize) {
        CloseFromBound(g, n, maximize, ClosedBest(g, n, maximize, j - 1), j - 1, d, n);
      }
    }
  }

  /** A closed fold other than the sentinel is some reached entry plus a closing edge. */
  lemma {:induction false} ClosedBestWitness(g: seq<seq<int>>, n: nat, maximize: bool, j: nat) returns (u: nat, v: nat)
    requires Square(g, n) && j <= n && n >= 1 && ClosedBest(g, n, maximize, j) != Sentinel(maximize)
    ensures u < j && v < n && v != u && g[u][v] != NoEdge
    ensures Value(g, n, maximize, Full(n), u) != Sentinel(maximize)
    ensures ClosedBest(g, n, maximize, j) == Value(g, n, maximize, Full(n), u) + g[u][v]
    decreases j
  {
    if j == 0 {
      assert false;
    }
    var acc := ClosedBest(g, n, maximize, j - 1);
    var d := Value(g, n, maximize, Full(n), j - 1);
    if d != Sentinel(maximize) && ClosedBest(g, n, maximize, j) != acc {
      u := j - 1;
      v := CloseFromWitness(g, n, maximize, acc, u, d, n);
    } else {
      u, v := ClosedBestWitness(g, n, maximize, j - 1);
    }
  }

  /**
   * The answer with the closing edge, for non-negative distances: when it is not -1 it is the
   * cost of some tour plus one edge from its last city to another city, and at least as good
   * as every such closed tour; when it is -1 no closed tour is better than the sentinel.
   */
  lemma ClosedAnswerOptimal(g: seq<seq<int>>, n: nat, maximize: bool)
    requires Square(g, n) && NonNegative(g, n)
    ensures Answer(g, n, maximize, true) != -1 ==>
      exists p: seq<nat>, v: nat :: ClosedTour(g, n, p, v) && Cost(g, n, p) + g[p[|p| - 1]][v] == Answer(g, n, maximize, true)
    ensures Answer(g, n, maximize, true) != -1 ==>
      forall p: seq<nat>, v: nat :: ClosedTour(g, n, p, v) ==>
        AtLeastAsGood(maximize, Answer(g, n, maximize, true), Cost(g, n, p) + g[p[|p| - 1]][v])
    ensures Answer(g, n, maximize, true) == -1 ==>
      forall p: seq<nat>, v: nat :: ClosedTour(g, n, p, v) ==>
        AtLeastAsGood(maximize, Sentinel(maximize), Cost(g, n, p) + g[p[|p| - 1]][v])
  {
    forall p: seq<nat>, v: nat | ClosedTour(g, n, p, v)
      ensures n >= 1 && AtLeastAsGood(maximize, ClosedBest(g, n, maximize, n), Cost(g, n, p) + g[p[|p| - 1]][v])
    {
      TourNeedsCity(g, n, p);
      TourOptimal(g, n, maximize, p);
      ClosedBestBound(g, n, maximize, n);
      CostNonNegative(g, n, p);
      var u := p[|p| - 1];
      assert g[u][v] >= 0;
      if Value(g, n, maximize, Full(n), u) != Sentinel(maximize) {
        assert AtLeastAsGood(maximize, ClosedBest(g, n, maximize, n), Value(g, n, maximize, Full(n), u) + g[u][v]);
      }
    }
    if n >= 1 && ClosedBest(g, n, maximize, n) != Sentinel(maximize) {
      var u, v := ClosedBestWitness(g, n, maximize, n);
      var p := ValueWitness(g, n, maximize, Full(n), u);
      TourIsFullRoute(g, n, p);
      CostNonNegative(g, n, p);
      assert ClosedTour(g, n, p, v);
    }
  }

  /** Lines 80-111 (and 150-181): scan the full mask and return -1 when no value was found. */
  method Conclude(graph: array2<int>, dp: array2<int>, maximize: bool, travelBackToStart: bool) returns (r: int)
    requires graph.Length0 == graph.Length1 <= 30
    requires dp.Length0 == Pow2(graph.Length0) && dp.Length1 == graph.Length0
    requires forall m, v :: 0 <= m < dp.Length0 && 0 <= v < dp.Length1 ==>
      dp[m, v] == Value(Snapshot(graph), graph.Length0, maximize, m, v)
    ensures r == Answer(Snapshot(graph), graph.Length0, maximize, travelBackToStart)
  {
    var best := Sentinel(maximize);
    if graph.Length0 == 0 {
      return -1;
    }
    if travelBackToStart {
      best := ScanClosed(graph, dp, maximize);
    } else {
      best := ScanOpen(graph, dp, maximize);
    }
    r := if best == Sentinel(maximize) then -1 else best;
  }

  /** Lines 101-108: the best reached `dp[full, u]`. */
  method ScanOpen(graph: array2<int>, dp: array2<int>, maximize: bool) returns (best: int)
    requires 1 <= graph.Length0 == graph.Length1 <= 30
    requires dp.Length0 == Pow2(graph.Length0) && dp.Length1 == graph.Length0
    requires forall m, v :: 0 <= m < dp.Length0 && 0 <= v < dp.Length1 ==>
      dp[m, v] == Value(Snapshot(graph), graph.Length0, maximize, m, v)
    ensures best == OpenBest(Snapshot(graph), graph.Length0, maximize, graph.Length0)
  {
    var n := graph.Length0;
    ghost var g := Snapshot(graph);
    var full := Pow2(n) - 1;
    best := Sentinel(maximize);
    for u := 0 to n
      invariant best == OpenBest(g, n, maximize, u)
    {
      ValueWithin(g, n, maximize, full, u);
      var reached := if maximize then dp[full, u] > IntMin else dp[full, u] < IntMax;
      if reached {
        best := Pick(maximize, best, dp[full, u]);
      }
    }
  }

  /** Lines 85-97: the best reached `dp[full, u]` plus a present edge from u to another city. */
  method ScanClosed(graph: array2<int>, dp: array2<int>, maximize: bool) returns (best: int)
    requires 1 <= graph.Length0 == graph.Length1 <= 30
    requires dp.Length0 == Pow2(graph.Length0) && dp.Length1 == graph.Length0
    requires forall m, v :: 0 <= m < dp.Length0 && 0 <= v < dp.Length1 ==>
      dp[m, v] == Value(Snapshot(graph), graph.Length0, maximize, m, v)
    ensures best == ClosedBest(Snapshot(graph), graph.Length0, maximize, graph.Length0)
  {
    var n := graph.Length0;
    ghost var g := Snapshot(graph);
    var full := Pow2(n) - 1;
    best := Sentinel(maximize);
    for u := 0 to n
      invariant best == ClosedBest(g, n, maximize, u)
    {
      ValueWithin(g, n, maximize, full, u);
      var reached := if maximize then dp[full, u] > IntMin else dp[full, u] < IntMax;
      if reached {
        best := CloseEdges(graph, maximize, best, u, dp[full, u]);
      }
    }
  }

  /** Lines 89-95: fold the closing edges from u into best. */
  method CloseEdges(graph: array2<int>, maximize: bool, acc: int, u: nat, d: int) returns (best: int)
    requires graph.Length0 == graph.Length1 && u < graph.Length0
    ensures best == CloseFrom(Snapshot(graph), graph.Length0, maximize, acc, u, d, graph.Length0)
  {
    var n := graph.Length0;
    ghost var g := Snapshot(graph);
    best := acc;
    for v := 0 to n
      invariant best == CloseFrom(g, n, maximize, acc, u, d, v)
    {
      if u != v && graph[u, v] != NoEdge {
        best := Pick(maximize, best, d + graph[u, v]);
      }
    }
  }

  /** Lines 44-112: the shortest route through every city of the table, or -1. */
  method MinDistanceOfTable(graph: array2<int>, travelBackToStart: bool) returns (r: int)
    requires graph.Length0 == graph.Length1 <= 30
    ensures r == Answer(Snapshot(graph), graph.Length0, false, travelBackToStart)
  {
    var dp := FillTable(graph, false);
    r := Conclude(graph, dp, false, travelBackToStart);
  }

  /** Lines 114-182: the longest route through every city of the table, or -1. */
  method MaxDistanceOfTable(graph: array2<int>, travelBackToStart: bool) returns (r: int)
    requires graph.Length0 == graph.Length1 <= 30
    ensures r == Answer(Snapshot(graph), graph.Length0, true, travelBackToStart)
  {
    var dp := FillTable(graph, true);
    r := Conclude(graph, dp, true, travelBackToStart);
  }

  // ---------------------------------------------------------------------------
  // The distance table built from the city pairs.
  // ---------------------------------------------------------------------------

  /**
   * Entry (i, j) of the table after the first k pairs: 0 on the diagonal and `int.MaxValue`
   * elsewhere, overwritten in both directions by each pair in turn.
   */
  function Entry(pairs: seq<(string, string, int)>, cities: seq<string>, k: nat, i: nat, j: nat): int
    requires k <= |pairs|
  {
    if k == 0 then (if i == j then 0 else IntMax)
    else
      var f, t := IndexOf(cities, pairs[k - 1].0), IndexOf(cities, pairs[k - 1].1);
      if (i == f && j == t) || (i == t && j == f) then pairs[k - 1].2 else Entry(pairs, cities, k - 1, i, j)
  }

  /** The table is symmetric. */
  lemma {:induction false} EntrySymmetric(pairs: seq<(string, string, int)>, cities: seq<string>, k: nat, i: nat, j: nat)
    requires k <= |pairs|
    ensures Entry(pairs, cities, k, i, j) == Entry(pairs, cities, k, j, i)
    decreases k
  {
    if k > 0 {
      EntrySymmetric(pairs, cities, k - 1, i, j);
    }
  }

  /** With no pair joining i and j, the entry keeps its initial value. */
  lemma {:induction false} EntryUntouched(pairs: seq<(string, string, int)>, cities: seq<string>, k: nat, i: nat, j: nat)
    requires k <= |pairs| && forall q :: 0 <= q < k ==> !Joins(pairs, cities, q, i, j)
    ensures Entry(pairs, cities, k, i, j) == if i == j then 0 else IntMax
    decreases k
  {
    if k > 0 {
      assert !Joins(pairs, cities, k - 1, i, j);
      EntryUntouched(pairs, cities, k - 1, i, j);
    }
  }

  /** The last pair joining i and j decides their distance. */
  lemma {:induction false} LastPairWins(pairs: seq<(string, string, int)>, cities: seq<string>, k: nat, q: nat, i: nat, j: nat)
    requires q < k <= |pairs| && Joins(pairs, cities, q, i, j)
    requires forall q' :: q < q' < k ==> !Joins(pairs, cities, q', i, j)
    ensures Entry(pairs, cities, k, i, j) == pairs[q].2
    decreases k
  {
    if q < k - 1 {
      assert !Joins(pairs, cities, k - 1, i, j);
      LastPairWins(pairs, cities, k - 1, q, i, j);
    }
  }

  /** The distance table as rows. */
  function Table(pairs: seq<(string, string, int)>): (g: seq<seq<int>>)
    ensures Square(g, |SortedNames(pairs, |pairs|)|)
  {
    var cities := SortedNames(pairs, |pairs|);
    seq(|cities|, i requires 0 <= i < |cities| =>
      seq(|cities|, j requires 0 <= j < |cities| => Entry(pairs, cities, |pairs|, i, j)))
  }

  /** Non-negative distances give a non-negative table (the missing ones are `int.MaxValue`). */
  lemma TableNonNegative(pairs: seq<(string, string, int)>)
    requires forall q :: 0 <= q < |pairs| ==> pairs[q].2 >= 0
    ensures NonNegative(Table(pairs), |SortedNames(pairs, |pairs|)|)
  {
    var cities := SortedNames(pairs, |pairs|);
    forall i, j | 0 <= i < |cities| && 0 <= j < |cities| ensures Entry(pairs, cities, |pairs|, i, j) >= 0 {
      EntryNonNegative(pairs, cities, |pairs|, i, j);
    }
  }

  lemma {:induction false} EntryNonNegative(pairs: seq<(string, string, int)>, cities: seq<string>, k: nat, i: nat, j: nat)
    requires k <= |pairs| && forall q :: 0 <= q < |pairs| ==> pairs[q].2 >= 0
    ensures Entry(pairs, cities, k, i, j) >= 0
    decreases k
  {
    if k > 0 {
      EntryNonNegative(pairs, cities, k - 1, i, j);
    }
  }

  /** The table holds the entries after the first k pairs. */
  ghost predicate TableAfter(table: array2<int>, pairs: seq<(string, string, int)>, cities: seq<string>, k: nat)
    requires k <= |pairs|
    reads table
  {
    forall a, b :: 0 <= a < table.Length0 && 0 <= b < table.Length1 ==> table[a, b] == Entry(pairs, cities, k, a, b)
  }

  /** Lines 15-42: the cities in order, then the table of their distances. */
  method GetDistanceTable(pairs: seq<(string, string, int)>) returns (table: array2<int>)
    ensures fresh(table) && table.Length0 == table.Length1 == |SortedNames(pairs, |pairs|)|
    ensures Snapshot(table) == Table(pairs)
  {
    var cities := SortedNames(pairs, |pairs|);
    table := InitialTable(pairs, cities);
    for k := 0 to |pairs|
      invariant TableAfter(table, pairs, cities, k)
    {
      ApplyPair(table, pairs, cities, k);
    }
    ghost var g, t := Snapshot(table), Table(pairs);
    forall i | 0 <= i < |cities| ensures g[i] == t[i] {
      assert forall j :: 0 <= j < |cities| ==> g[i][j] == t[i][j];
    }
    assert g == t;
  }

  /** Lines 21-30: 0 on the diagonal, `int.MaxValue` elsewhere. */
  method InitialTable(pairs: seq<(string, string, int)>, cities: seq<string>) returns (table: array2<int>)
    ensures fresh(table) && table.Length0 == table.Length1 == |cities|
    ensures TableAfter(table, pairs, cities, 0)
  {
    var n := |cities|;
    table := new int[n, n];
    for i := 0 to n
      invariant forall a, b :: 0 <= a < i && 0 <= b < n ==> table[a, b] == Entry(pairs, cities, 0, a, b)
    {
      for j := 0 to n
        invariant forall a, b :: 0 <= a < i && 0 <= b < n ==> table[a, b] == Entry(pairs, cities, 0, a, b)
        invariant forall b :: 0 <= b < j ==> table[i, b] == Entry(pairs, cities, 0, i, b)
      {
        table[i, j] := if i == j then 0 else IntMax;
      }
    }
  }

  /** Lines 33-39: one pair sets its distance in both directions. */
  method ApplyPair(table: array2<int>, pairs: seq<(string, string, int)>, cities: seq<string>, k: nat)
    requires k < |pairs| && cities == SortedNames(pairs, |pairs|)
    requires table.Length0 == table.Length1 == |cities| && TableAfter(table, pairs, cities, k)
    modifies table
    ensures TableAfter(table, pairs, cities, k + 1)
  {
    var (from, to, distance) := pairs[k];
    assert Named(pairs, |pairs|, from) && Named(pairs, |pairs|, to);
    var fromIndex, toIndex := IndexOf(cities, from), IndexOf(cities, to);
    table[fromIndex, toIndex] := distance;
    table[toIndex, fromIndex] := distance;
  }

  /** Line 5-8: the shortest route over the cities of the pairs, or -1. */
  method FindMinDistance(pairs: seq<(string, string, int)>, travelBackToStart: bool) returns (r: int)
    requires |SortedNames(pairs, |pairs|)| <= 30
    ensures r == Answer(Table(pairs), |SortedNames(pairs, |pairs|)|, false, travelBackToStart)
  {
    var table := GetDistanceTable(pairs);
    r := MinDistanceOfTable(table, travelBackToStart);
  }

  /** Lines 10-13: the longest route over the cities of the pairs, or -1. */
  method FindMaxDistance(pairs: seq<(string, string, int)>, travelBackToStart: bool) returns (r: int)
    requires |SortedNames(pairs, |pairs|)| <= 30
    ensures r == Answer(Table(pairs), |SortedNames(pairs, |pairs|)|, true, travelBackToStart)
  {
    var table := GetDistanceTable(pairs);
    r := MaxDistanceOfTable(table, travelBackToStart);
  }

  // ---------------------------------------------------------------------------
  // The minimum search as written: no test of dp[mask, u] before pushing.
  // ---------------------------------------------------------------------------

  /**
   * Line 75 as written: every u of the mask pushes `dp[mask, u] + graph[u, v]` in 32-bit
   * arithmetic, even when `dp[mask, u]` is still `int.MaxValue`, and the sum then wraps.
   */
  function AsWrittenValue(g: seq<seq<int>>, n: nat, m: nat, v: nat): int
    requires Square(g, n) && v < n
    decreases m, n + 1
  {
    if Has(m, v) && m > Pow2(v) then AsWrittenRelax(g, n, m, v, n) else Init(false, m, v)
  }

  function AsWrittenRelax(g: seq<seq<int>>, n: nat, m: nat, v: nat, j: nat): int
    requires Square(g, n) && v < n && m > Pow2(v) && j <= n
    decreases m, j
  {
    if j == 0 then IntMax
    else
      var acc := AsWrittenRelax(g, n, m, v, j - 1);
      var u := j - 1;
      var pm := m - Pow2(v);
      if Has(pm, u) && g[u][v] != IntMax
      then (var d := CSharpInt.Wrap32(AsWrittenValue(g, n, pm, u) + g[u][v]); if d < acc then d else acc)
      else acc
  }

  /** Lines 102-108 over the as-written table. */
  function AsWrittenOpen(g: seq<seq<int>>, n: nat, j: nat): int
    requires Square(g, n) && j <= n && n >= 1
  {
    if j == 0 then IntMax
    else
      var acc := AsWrittenOpen(g, n, j - 1);
      var d := AsWrittenValue(g, n, Full(n), j - 1);
      if d < IntMax && d < acc then d else acc
  }

  /** Three cities a, b, c with the pairs (a, b, 1) and (b, c, 1). */
  function Example(): (g: seq<seq<int>>)
    ensures Square(g, 3)
  {
    [[0, 1, IntMax], [1, 0, 1], [IntMax, 1, 0]]
  }

  lemma ExampleBits()
    ensures Has(1, 0) && !Has(1, 1) && !Has(1, 2)
    ensures !Has(4, 0) && !Has(4, 1) && Has(4, 2)
    ensures Has(5, 0) && !Has(5, 1) && Has(5, 2)
    ensures Pow2(0) == 1 && Pow2(1) == 2 && Pow2(2) == 4 && Full(3) == 7
  {
  }

  /** The as-written table: both ways of reaching {a, c} are unreached, and each wraps. */
  lemma ExampleAsWritten()
    ensures AsWrittenValue(Example(), 3, 5, 0) == IntMax && AsWrittenValue(Example(), 3, 5, 2) == IntMax
    ensures AsWrittenValue(Example(), 3, 7, 1) == IntMin
  {
    var g := Example();
    ExampleBits();
    assert AsWrittenRelax(g, 3, 5, 0, 3) == IntMax;
    assert AsWrittenRelax(g, 3, 5, 2, 3) == IntMax;
    assert CSharpInt.Wrap32(IntMax + 1) == IntMin;
    assert AsWrittenRelax(g, 3, 7, 1, 1) == IntMin;
  }

  /** The corrected table: the full-mask entries are 2, unreached and 2. */
  lemma ExampleCorrected()
    ensures Value(Example(), 3, false, 7, 0) == 2 && Value(Example(), 3, false, 7, 1) == IntMax
    ensures Value(Example(), 3, false, 7, 2) == 2
  {
    var g := Example();
    ExampleBits();
    assert Has(6, 1) && Has(6, 2) && !Has(6, 0) && Has(3, 0) && Has(3, 1) && !Has(3, 2);
    assert Value(g, 3, false, 4, 2) == 0 && Value(g, 3, false, 1, 0) == 0;
    assert Value(g, 3, false, 6, 1) == 1;
    assert Value(g, 3, false, 3, 1) == 1;
    assert Value(g, 3, false, 5, 0) == IntMax && Value(g, 3, false, 5, 2) == IntMax;
  }

  lemma {:induction false} AsWrittenWithin(g: seq<seq<int>>, n: nat, m: nat, v: nat)
    requires Square(g, n) && v < n
    ensures IntMin <= AsWrittenValue(g, n, m, v) <= IntMax
    decreases m, n + 1
  {
    if Has(m, v) && m > Pow2(v) {
      AsWrittenRelaxWithin(g, n, m, v, n);
    }
  }

  lemma {:induction false} AsWrittenRelaxWithin(g: seq<seq<int>>, n: nat, m: nat, v: nat, j: nat)
    requires Square(g, n) && v < n && m > Pow2(v) && j <= n
    ensures IntMin <= AsWrittenRelax(g, n, m, v, j) <= IntMax
    decreases m, j
  {
    if j > 0 {
      AsWrittenRelaxWithin(g, n, m, v, j - 1);
    }
  }

  lemma ExampleTour()
    ensures Tour(Example(), 3, [0, 1, 2]) && Cost(Example(), 3, [0, 1, 2]) == 2
  {
    var p: seq<nat> := [0, 1, 2];
    assert p[..2] == [0, 1] && p[..2][..1] == [0];
    assert Linked(Example(), 3, p);
    assert forall j :: 0 <= j < 3 ==> j in p by {
      assert p[0] == 0 && p[1] == 1 && p[2] == 2;
    }
  }

  lemma ExampleOpenAnswers()
    ensures OpenBest(Example(), 3, false, 3) == 2 && AsWrittenOpen(Example(), 3, 3) == IntMin
  {
    ExampleOpenBest();
    ExampleOpenAsWritten();
  }

  lemma ExampleOpenBest()
    ensures OpenBest(Example(), 3, false, 3) == 2
  {
    var g := Example();
    ExampleCorrected();
    assert Full(3) == 7;
    assert OpenBest(g, 3, false, 1) == 2;
    assert OpenBest(g, 3, false, 2) == 2;
  }

  lemma ExampleOpenAsWritten()
    ensures AsWrittenOpen(Example(), 3, 3) == IntMin
  {
    var g := Example();
    ExampleAsWritten();
    AsWrittenWithin(g, 3, 7, 0);
    AsWrittenWithin(g, 3, 7, 2);
    assert Full(3) == 7;
  }

  /**
   * The route a-b-c costs 2 and the corrected search answers 2, but the search as written
   * answers `int.MinValue`.
   */
  lemma UnreachedEntryWraps()
    ensures Tour(Example(), 3, [0, 1, 2]) && Cost(Example(), 3, [0, 1, 2]) == 2
    ensures Answer(Example(), 3, false, false) == 2 && AsWrittenOpen(Example(), 3, 3) == IntMin
  {
    ExampleTour();
    ExampleOpenAnswers();
  }

  // ---------------------------------------------------------------------------
  // The closing edge back to the first city.
  // ---------------------------------------------------------------------------

  /** The table with every edge into city 0 removed. */
  function NoEntry(g: seq<seq<int>>, n: nat): (h: seq<seq<int>>)
    requires Square(g, n)
    ensures Square(h, n)
    ensures forall i, j :: 0 <= i < n && 0 <= j < n ==> h[i][j] == if j == 0 then NoEdge else g[i][j]
  {
    seq(n, i requires 0 <= i < n => seq(n, j requires 0 <= j < n => if j == 0 then NoEdge else g[i][j]))
  }

  /** A tour written from city 0 whose last city has an edge back to city 0. */
  predicate Cycle(g: seq<seq<int>>, n: nat, p: seq<nat>)
    requires Square(g, n)
  {
    Tour(g, n, p) && |p| >= 2 && p[0] == 0 && g[p[|p| - 1]][0] != NoEdge
  }

  /** The cost of a cycle: its tour and the edge back to city 0. */
  function CycleCost(g: seq<seq<int>>, n: nat, p: seq<nat>): int
    requires Square(g, n) && Cycle(g, n, p)
  {
    Cost(g, n, p) + g[p[|p| - 1]][0]
  }

  /**
   * Best of `Value(full, u) + graph[u, 0]` over the cities 0 < u < j, on the table without
   * edges into city 0: there, every route through all cities starts at city 0.
   */
  function CycleBest(g: seq<seq<int>>, n: nat, maximize: bool, j: nat): int
    requires Square(g, n) && j <= n && n >= 1
  {
    if j == 0 then Sentinel(maximize)
    else
      var acc := CycleBest(g, n, maximize, j - 1);
      var u := j - 1;
      var d := Value(NoEntry(g, n), n, maximize, Full(n), u);
      if u != 0 && d != Sentinel(maximize) && g[u][0] != NoEdge then Pick(maximize, acc, d + g[u][0]) else acc
  }

  /**
   * The closed answer the search evidently intends: the best tour closed by the edge from its
   * last city back to its first, or -1.
   */
  function CycleAnswer(g: seq<seq<int>>, n: nat, maximize: bool): int
    requires Square(g, n)
  {
    var best := if n == 0 then Sentinel(maximize) else CycleBest(g, n, maximize, n);
    if best == Sentinel(maximize) then -1 else best
  }

  /** With no city 0 after the first position, the table without edges into 0 gives the same cost. */
  lemma {:induction false} NoEntryCost(g: seq<seq<int>>, n: nat, p: seq<nat>)
    requires Square(g, n) && InRange(p, n) && forall i :: 1 <= i < |p| ==> p[i] != 0
    ensures Cost(NoEntry(g, n), n, p) == Cost(g, n, p)
    decreases |p|
  {
    if |p| > 1 {
      var front := p[..|p| - 1];
      assert forall i :: 0 <= i < |front| ==> front[i] == p[i];
      NoEntryCost(g, n, front);
    }
  }

  /** A tour from city 0 is a tour of the table without edges into 0, at the same cost. */
  lemma NoEntryTour(g: seq<seq<int>>, n: nat, p: seq<nat>)
    requires Square(g, n) && Tour(g, n, p) && p[0] == 0
    ensures Tour(NoEntry(g, n), n, p) && Cost(NoEntry(g, n), n, p) == Cost(g, n, p)
  {
    assert forall i :: 1 <= i < |p| ==> p[i] != 0 by {
      forall i | 1 <= i < |p| ensures p[i] != 0 {
        assert p[i] != p[0];
      }
    }
    NoEntryCost(g, n, p);
  }

  /** Every tour of the table without edges into 0 starts at 0 and is a tour of g, at the same cost. */
  lemma NoEntryStarts(g: seq<seq<int>>, n: nat, p: seq<nat>)
    requires Square(g, n) && Tour(NoEntry(g, n), n, p)
    ensures p[0] == 0 && Tour(g, n, p) && Cost(NoEntry(g, n), n, p) == Cost(g, n, p)
  {
    var h := NoEntry(g, n);
    assert p[0] < n;
    assert 0 in p;
    forall i | 1 <= i < |p| ensures p[i] != 0 {
      assert h[p[i - 1]][p[i]] != NoEdge;
    }
    NoEntryCost(g, n, p);
  }

  /** The cycle fold is at least as good as the sentinel and as every candidate it folds. */
  lemma {:induction false} CycleBestBound(g: seq<seq<int>>, n: nat, maximize: bool, j: nat)
    requires Square(g, n) && j <= n && n >= 1
    ensures AtLeastAsGood(maximize, CycleBest(g, n, maximize, j), Sentinel(maximize))
    ensures forall u :: (0 < u < j && g[u][0] != NoEdge &&
      Value(NoEntry(g, n), n, maximize, Full(n), u) != Sentinel(maximize)) ==>
      AtLeastAsGood(maximize, CycleBest(g, n, maximize, j), Value(NoEntry(g, n), n, maximize, Full(n), u) + g[u][0])
    decreases j
  {
    if j > 0 {
      CycleBestBound(g, n, maximize, j - 1);
    }
  }

  /** A cycle fold other than the sentinel is one of the candidates it folds. */
  lemma {:induction false} CycleBestWitness(g: seq<seq<int>>, n: nat, maximize: bool, j: nat) returns (u: nat)
    requires Square(g, n) && j <= n && n >= 1 && CycleBest(g, n, maximize, j) != Sentinel(maximize)
    ensures 0 < u < j && g[u][0] != NoEdge
    ensures Value(NoEntry(g, n), n, maximize, Full(n), u) != Sentinel(maximize)
    ensures CycleBest(g, n, maximize, j) == Value(NoEntry(g, n), n, maximize, Full(n), u) + g[u][0]
    decreases j
  {
    if j == 0 {
      assert false;
    }
    var w := j - 1;
    var d := Value(NoEntry(g, n), n, maximize, Full(n), w);
    if w != 0 && d != Sentinel(maximize) && g[w][0] != NoEdge && CycleBest(g, n, maximize, j) == d + g[w][0] {
      u := w;
    } else {
      u := CycleBestWitness(g, n, maximize, j - 1);
    }
  }

  /** One cycle against the cycle fold. */
  lemma CycleOptimalFor(g: seq<seq<int>>, n: nat, maximize: bool, p: seq<nat>)
    requires Square(g, n) && NonNegative(g, n) && Cycle(g, n, p)
    ensures n >= 1 && AtLeastAsGood(maximize, CycleBest(g, n, maximize, n), CycleCost(g, n, p))
  {
    var h := NoEntry(g, n);
    TourNeedsCity(g, n, p);
    NoEntryTour(g, n, p);
    assert NonNegative(h, n);
    TourOptimal(h, n, maximize, p);
    CycleBestBound(g, n, maximize, n);
    CostNonNegative(g, n, p);
    var u := p[|p| - 1];
    assert u != 0 by {
      assert p[|p| - 1] != p[0];
    }
    assert g[u][0] >= 0;
  }

  /**
   * The corrected closed answer, for non-negative distances: when it is not -1 it is the cost
   * of some cycle and at least as good as every cycle; when it is -1 no cycle is better than
   * the sentinel (when maximising: there is no cycle at all).
   */
  lemma CycleAnswerOptimal(g: seq<seq<int>>, n: nat, maximize: bool)
    requires Square(g, n) && NonNegative(g, n)
    ensures CycleAnswer(g, n, maximize) != -1 ==>
      exists p :: Cycle(g, n, p) && CycleCost(g, n, p) == CycleAnswer(g, n, maximize)
    ensures CycleAnswer(g, n, maximize) != -1 ==>
      forall p :: Cycle(g, n, p) ==> AtLeastAsGood(maximize, CycleAnswer(g, n, maximize), CycleCost(g, n, p))
    ensures CycleAnswer(g, n, maximize) == -1 ==>
      forall p :: Cycle(g, n, p) ==> AtLeastAsGood(maximize, Sentinel(maximize), CycleCost(g, n, p))
  {
    forall p | Cycle(g, n, p)
      ensures n >= 1 && AtLeastAsGood(maximize, CycleBest(g, n, maximize, n), CycleCost(g, n, p))
    {
      CycleOptimalFor(g, n, maximize, p);
    }
    if n >= 1 && CycleBest(g, n, maximize, n) != Sentinel(maximize) {
      var h := NoEntry(g, n);
      var u := CycleBestWitness(g, n, maximize, n);
      var p := ValueWitness(h, n, maximize, Full(n), u);
      TourIsFullRoute(h, n, p);
      NoEntryStarts(g, n, p);
      CostNonNegative(g, n, p);
      assert Cycle(g, n, p);
    }
  }

  /** The bits of the masks over three cities. */
  lemma ThreeCityBits()
    ensures Pow2(0) == 1 && Pow2(1) == 2 && Pow2(2) == 4 && Full(3) == 7
    ensures Has(1, 0) && !Has(1, 1) && !Has(1, 2)
    ensures !Has(2, 0) && Has(2, 1) && !Has(2, 2)
    ensures Has(3, 0) && Has(3, 1) && !Has(3, 2)
    ensures !Has(4, 0) && !Has(4, 1) && Has(4, 2)
    ensures Has(5, 0) && !Has(5, 1) && Has(5, 2)
    ensures !Has(6, 0) && Has(6, 1) && Has(6, 2)
    ensures Has(7, 0) && Has(7, 1) && Has(7, 2)
  {
  }

  /** Three cities a, b, c with the pairs (a, b, 1), (b, c, 1) and (a, c, 100). */
  function Triangle(): (g: seq<seq<int>>)
    ensures Square(g, 3) && NonNegative(g, 3)
  {
    [[0, 1, 100], [1, 0, 1], [100, 1, 0]]
  }

  /** The two-city entries of the shortest search over the triangle. */
  lemma TrianglePairs(g: seq<seq<int>>)
    requires g == Triangle()
    ensures Value(g, 3, false, 3, 0) == 1 && Value(g, 3, false, 3, 1) == 1
    ensures Value(g, 3, false, 5, 0) == 100 && Value(g, 3, false, 5, 2) == 100
    ensures Value(g, 3, false, 6, 1) == 1 && Value(g, 3, false, 6, 2) == 1
  {
    ThreeCityBits();
    assert Value(g, 3, false, 1, 0) == 0 && Value(g, 3, false, 2, 1) == 0 && Value(g, 3, false, 4, 2) == 0;
    assert Relax(g, 3, false, 3, 0, 1) == IntMax;
    assert Relax(g, 3, false, 3, 0, 2) == 1;
    assert Relax(g, 3, false, 3, 0, 3) == 1;
    assert Relax(g, 3, false, 3, 1, 1) == 1;
    assert Relax(g, 3, false, 3, 1, 2) == 1;
    assert Relax(g, 3, false, 3, 1, 3) == 1;
    assert Relax(g, 3, false, 5, 0, 1) == IntMax;
    assert Relax(g, 3, false, 5, 0, 2) == IntMax;
    assert Relax(g, 3, false, 5, 0, 3) == 100;
    assert Relax(g, 3, false, 5, 2, 1) == 100;
    assert Relax(g, 3, false, 5, 2, 2) == 100;
    assert Relax(g, 3, false, 5, 2, 3) == 100;
    assert Relax(g, 3, false, 6, 1, 1) == IntMax;
    assert Relax(g, 3, false, 6, 1, 2) == IntMax;
    assert Relax(g, 3, false, 6, 1, 3) == 1;
    assert Relax(g, 3, false, 6, 2, 1) == IntMax;
    assert Relax(g, 3, false, 6, 2, 2) == 1;
    assert Relax(g, 3, false, 6, 2, 3) == 1;
  }

  /** The full-mask entries of the shortest search over the triangle: 2, 101 and 2. */
  lemma TriangleTable(g: seq<seq<int>>)
    requires g == Triangle()
    ensures Value(g, 3, false, 7, 0) == 2 && Value(g, 3, false, 7, 1) == 101
    ensures Value(g, 3, false, 7, 2) == 2
  {
    ThreeCityBits();
    TrianglePairs(g);
    assert Relax(g, 3, false, 7, 0, 1) == IntMax;
    assert Relax(g, 3, false, 7, 0, 2) == 2;
    assert Relax(g, 3, false, 7, 0, 3) == 2;
    assert Relax(g, 3, false, 7, 1, 1) == 101;
    assert Relax(g, 3, false, 7, 1, 2) == 101;
    assert Relax(g, 3, false, 7, 1, 3) == 101;
    assert Relax(g, 3, false, 7, 2, 1) == 101;
    assert Relax(g, 3, false, 7, 2, 2) == 2;
    assert Relax(g, 3, false, 7, 2, 3) == 2;
  }

  /** The entries of the triangle without edges into a. */
  lemma TriangleNoEntry()
    ensures NoEntry(Triangle(), 3) == [[NoEdge, 1, 100], [NoEdge, 0, 1], [NoEdge, 1, 0]]
  {
    var h := NoEntry(Triangle(), 3);
    assert h[0] == [NoEdge, 1, 100];
    assert h[1] == [NoEdge, 0, 1];
    assert h[2] == [NoEdge, 1, 0];
  }

  /** The two-city entries of the search over the triangle without edges into a. */
  lemma TriangleCyclePairs(g: seq<seq<int>>)
    requires g == NoEntry(Triangle(), 3)
    ensures Value(g, 3, false, 3, 0) == IntMax && Value(g, 3, false, 3, 1) == 1
    ensures Value(g, 3, false, 5, 0) == IntMax && Value(g, 3, false, 5, 2) == 100
  {
    TriangleNoEntry();
    ThreeCityBits();
    assert Value(g, 3, false, 1, 0) == 0 && Value(g, 3, false, 2, 1) == 0 && Value(g, 3, false, 4, 2) == 0;
    assert Relax(g, 3, false, 3, 0, 1) == IntMax;
    assert Relax(g, 3, false, 3, 0, 2) == IntMax;
    assert Relax(g, 3, false, 3, 0, 3) == IntMax;
    assert Relax(g, 3, false, 3, 1, 1) == 1;
    assert Relax(g, 3, false, 3, 1, 2) == 1;
    assert Relax(g, 3, false, 3, 1, 3) == 1;
    assert Relax(g, 3, false, 5, 0, 1) == IntMax;
    assert Relax(g, 3, false, 5, 0, 2) == IntMax;
    assert Relax(g, 3, false, 5, 0, 3) == IntMax;
    assert Relax(g, 3, false, 5, 2, 1) == 100;
    assert Relax(g, 3, false, 5, 2, 2) == 100;
    assert Relax(g, 3, false, 5, 2, 3) == 100;
  }

  /** The same search without edges into a: only the routes from a reach the full mask. */
  lemma TriangleCycleTable(g: seq<seq<int>>)
    requires g == NoEntry(Triangle(), 3)
    ensures Value(g, 3, false, 7, 1) == 101
    ensures Value(g, 3, false, 7, 2) == 2
  {
    TriangleNoEntry();
    ThreeCityBits();
    TriangleCyclePairs(g);
    assert Relax(g, 3, false, 7, 1, 1) == IntMax;
    assert Relax(g, 3, false, 7, 1, 2) == IntMax;
    assert Relax(g, 3, false, 7, 1, 3) == 101;
    assert Relax(g, 3, false, 7, 2, 1) == IntMax;
    assert Relax(g, 3, false, 7, 2, 2) == 2;
    assert Relax(g, 3, false, 7, 2, 3) == 2;
  }

  /** Lines 85-97 over the triangle: the best closing edge from the full-mask entries gives 3. */
  lemma TriangleClosed(g: seq<seq<int>>)
    requires g == Triangle()
    ensures ClosedBest(g, 3, false, 3) == 3
  {
    ThreeCityBits();
    TriangleTable(g);
    assert ClosedBest(g, 3, false, 1) == 3;
    assert ClosedBest(g, 3, false, 2) == 3;
  }

  /** Every cycle over the triangle goes a-b-c-a or a-c-b-a: the best costs 102. */
  lemma TriangleCycle(g: seq<seq<int>>)
    requires g == Triangle()
    ensures CycleBest(g, 3, false, 3) == 102
  {
    ThreeCityBits();
    TriangleCycleTable(NoEntry(g, 3));
    assert CycleBest(g, 3, false, 2) == 102;
  }

  /**
   * Lines 85-97 close a tour with an edge from its last city to any other city, not back to its
   * first: over the triangle they answer 3 (a-b-c, then c-b), while every cycle through the
   * three cities costs 102.
   */
  lemma ClosingEdgeNotToStart()
    ensures Answer(Triangle(), 3, false, true) == 3
    ensures CycleAnswer(Triangle(), 3, false) == 102
    ensures forall p :: Cycle(Triangle(), 3, p) ==> CycleCost(Triangle(), 3, p) >= 102
  {
    TriangleClosed(Triangle());
    TriangleCycle(Triangle());
    CycleAnswerOptimal(Triangle(), 3, false);
  }

  // ---------------------------------------------------------------------------
  // The maximum search as written: missing pairs taken for edges.
  // ---------------------------------------------------------------------------

  /**
   * Lines 140-146 as written: an edge is skipped only when its entry is `int.MinValue`, so a
   * missing pair (`int.MaxValue`, line 28) is used as a distance; every u of the mask pushes,
   * reached or not; and the sum wraps in 32 bits.
   */
  function AsWrittenMaxValue(g: seq<seq<int>>, n: nat, m: nat, v: nat): int
    requires Square(g, n) && v < n
    decreases m, n + 1
  {
    if Has(m, v) && m > Pow2(v) then AsWrittenMaxRelax(g, n, m, v, n) else Init(true, m, v)
  }

  function AsWrittenMaxRelax(g: seq<seq<int>>, n: nat, m: nat, v: nat, j: nat): int
    requires Square(g, n) && v < n && m > Pow2(v) && j <= n
    decreases m, j
  {
    if j == 0 then IntMin
    else
      var acc := AsWrittenMaxRelax(g, n, m, v, j - 1);
      var u := j - 1;
      var pm := m - Pow2(v);
      if Has(pm, u) && g[u][v] != IntMin
      then (var d := CSharpInt.Wrap32(AsWrittenMaxValue(g, n, pm, u) + g[u][v]); if d > acc then d else acc)
      else acc
  }

  /** Lines 172-178 over the as-written table. */
  function AsWrittenMaxOpen(g: seq<seq<int>>, n: nat, j: nat): int
    requires Square(g, n) && j <= n && n >= 1
  {
    if j == 0 then IntMin
    else
      var acc := AsWrittenMaxOpen(g, n, j - 1);
      var d := AsWrittenMaxValue(g, n, Full(n), j - 1);
      if d > IntMin && d > acc then d else acc
  }

  /** Three cities a, b, c with the pairs (a, b, 0) and (b, c, 0); a and c are not paired. */
  function Unpaired(): (g: seq<seq<int>>)
    ensures Square(g, 3) && NonNegative(g, 3)
  {
    [[0, 0, NoEdge], [0, 0, 0], [NoEdge, 0, 0]]
  }

  /** The two-city entries of the as-written maximum search over the unpaired cities. */
  lemma UnpairedPairsAsWritten(g: seq<seq<int>>)
    requires g == Unpaired()
    ensures AsWrittenMaxValue(g, 3, 3, 0) == 0 && AsWrittenMaxValue(g, 3, 3, 1) == 0
    ensures AsWrittenMaxValue(g, 3, 5, 0) == IntMax && AsWrittenMaxValue(g, 3, 5, 2) == IntMax
    ensures AsWrittenMaxValue(g, 3, 6, 1) == 0 && AsWrittenMaxValue(g, 3, 6, 2) == 0
  {
    ThreeCityBits();
    assert CSharpInt.Wrap32(IntMax) == IntMax && CSharpInt.Wrap32(0) == 0;
    assert AsWrittenMaxValue(g, 3, 1, 0) == 0 && AsWrittenMaxValue(g, 3, 2, 1) == 0 && AsWrittenMaxValue(g, 3, 4, 2) == 0;
    assert AsWrittenMaxRelax(g, 3, 3, 0, 1) == IntMin;
    assert AsWrittenMaxRelax(g, 3, 3, 0, 2) == 0;
    assert AsWrittenMaxRelax(g, 3, 3, 0, 3) == 0;
    assert AsWrittenMaxRelax(g, 3, 3, 1, 1) == 0;
    assert AsWrittenMaxRelax(g, 3, 3, 1, 2) == 0;
    assert AsWrittenMaxRelax(g, 3, 3, 1, 3) == 0;
    assert AsWrittenMaxRelax(g, 3, 5, 0, 1) == IntMin;
    assert AsWrittenMaxRelax(g, 3, 5, 0, 2) == IntMin;
    assert AsWrittenMaxRelax(g, 3, 5, 0, 3) == IntMax;
    assert AsWrittenMaxRelax(g, 3, 5, 2, 1) == IntMax;
    assert AsWrittenMaxRelax(g, 3, 5, 2, 2) == IntMax;
    assert AsWrittenMaxRelax(g, 3, 5, 2, 3) == IntMax;
    assert AsWrittenMaxRelax(g, 3, 6, 1, 1) == IntMin;
    assert AsWrittenMaxRelax(g, 3, 6, 1, 2) == IntMin;
    assert AsWrittenMaxRelax(g, 3, 6, 1, 3) == 0;
    assert AsWrittenMaxRelax(g, 3, 6, 2, 1) == IntMin;
    assert AsWrittenMaxRelax(g, 3, 6, 2, 2) == 0;
    assert AsWrittenMaxRelax(g, 3, 6, 2, 3) == 0;
  }

  /** The full-mask entries of the as-written maximum search: each goes through the missing pair a-c. */
  lemma UnpairedTableAsWritten(g: seq<seq<int>>)
    requires g == Unpaired()
    ensures AsWrittenMaxValue(g, 3, 7, 0) == IntMax && AsWrittenMaxValue(g, 3, 7, 1) == IntMax
    ensures AsWrittenMaxValue(g, 3, 7, 2) == IntMax
  {
    ThreeCityBits();
    UnpairedPairsAsWritten(g);
    assert CSharpInt.Wrap32(IntMax) == IntMax && CSharpInt.Wrap32(0) == 0;
    assert AsWrittenMaxRelax(g, 3, 7, 0, 1) == IntMin;
    assert AsWrittenMaxRelax(g, 3, 7, 0, 2) == 0;
    assert AsWrittenMaxRelax(g, 3, 7, 0, 3) == IntMax;
    assert AsWrittenMaxRelax(g, 3, 7, 1, 1) == IntMax;
    assert AsWrittenMaxRelax(g, 3, 7, 1, 2) == IntMax;
    assert AsWrittenMaxRelax(g, 3, 7, 1, 3) == IntMax;
    assert AsWrittenMaxRelax(g, 3, 7, 2, 1) == IntMax;
    assert AsWrittenMaxRelax(g, 3, 7, 2, 2) == IntMax;
    assert AsWrittenMaxRelax(g, 3, 7, 2, 3) == IntMax;
  }

  /** As written, the search over the unpaired cities answers `int.MaxValue`. */
  lemma UnpairedAsWritten(g: seq<seq<int>>)
    requires g == Unpaired()
    ensures AsWrittenMaxOpen(g, 3, 3) == IntMax
  {
    UnpairedTableAsWritten(g);
    assert Full(3) == 7;
    assert AsWrittenMaxOpen(g, 3, 1) == IntMax;
    assert AsWrittenMaxOpen(g, 3, 2) == IntMax;
  }

  /** The two-city entries of the corrected maximum search over the unpaired cities. */
  lemma UnpairedPairs(g: seq<seq<int>>)
    requires g == Unpaired()
    ensures Value(g, 3, true, 3, 0) == 0 && Value(g, 3, true, 3, 1) == 0
    ensures Value(g, 3, true, 5, 0) == IntMin && Value(g, 3, true, 5, 2) == IntMin
    ensures Value(g, 3, true, 6, 1) == 0 && Value(g, 3, true, 6, 2) == 0
  {
    ThreeCityBits();
    assert Value(g, 3, true, 1, 0) == 0 && Value(g, 3, true, 2, 1) == 0 && Value(g, 3, true, 4, 2) == 0;
    assert Relax(g, 3, true, 3, 0, 1) == IntMin;
    assert Relax(g, 3, true, 3, 0, 2) == 0;
    assert Relax(g, 3, true, 3, 0, 3) == 0;
    assert Relax(g, 3, true, 3, 1, 1) == 0;
    assert Relax(g, 3, true, 3, 1, 2) == 0;
    assert Relax(g, 3, true, 3, 1, 3) == 0;
    assert Relax(g, 3, true, 5, 0, 1) == IntMin;
    assert Relax(g, 3, true, 5, 0, 2) == IntMin;
    assert Relax(g, 3, true, 5, 0, 3) == IntMin;
    assert Relax(g, 3, true, 5, 2, 1) == IntMin;
    assert Relax(g, 3, true, 5, 2, 2) == IntMin;
    assert Relax(g, 3, true, 5, 2, 3) == IntMin;
    assert Relax(g, 3, true, 6, 1, 1) == IntMin;
    assert Relax(g, 3, true, 6, 1, 2) == IntMin;
    assert Relax(g, 3, true, 6, 1, 3) == 0;
    assert Relax(g, 3, true, 6, 2, 1) == IntMin;
    assert Relax(g, 3, true, 6, 2, 2) == 0;
    assert Relax(g, 3, true, 6, 2, 3) == 0;
  }

  /** The full-mask entries of the corrected maximum search: 0, unreached and 0. */
  lemma UnpairedTable(g: seq<seq<int>>)
    requires g == Unpaired()
    ensures Value(g, 3, true, 7, 0) == 0 && Value(g, 3, true, 7, 1) == IntMin
    ensures Value(g, 3, true, 7, 2) == 0
  {
    ThreeCityBits();
    UnpairedPairs(g);
    assert Relax(g, 3, true, 7, 0, 1) == IntMin;
    assert Relax(g, 3, true, 7, 0, 2) == 0;
    assert Relax(g, 3, true, 7, 0, 3) == 0;
    assert Relax(g, 3, true, 7, 1, 1) == IntMin;
    assert Relax(g, 3, true, 7, 1, 2) == IntMin;
    assert Relax(g, 3, true, 7, 1, 3) == IntMin;
    assert Relax(g, 3, true, 7, 2, 1) == IntMin;
    assert Relax(g, 3, true, 7, 2, 2) == 0;
    assert Relax(g, 3, true, 7, 2, 3) == 0;
  }

  /** The route a-b-c through the pairs given, of length 0. */
  lemma UnpairedTour()
    ensures Tour(Unpaired(), 3, [0, 1, 2]) && Cost(Unpaired(), 3, [0, 1, 2]) == 0
  {
    var p: seq<nat> := [0, 1, 2];
    assert p[..2] == [0, 1] && p[..2][..1] == [0];
    assert Linked(Unpaired(), 3, p);
    assert forall j :: 0 <= j < 3 ==> j in p by {
      assert p[0] == 0 && p[1] == 1 && p[2] == 2;
    }
  }

  /** The corrected search: the longest route through the pairs given is a-b-c (or c-b-a), of length 0. */
  lemma UnpairedCorrected()
    ensures Answer(Unpaired(), 3, true, false) == 0
    ensures Tour(Unpaired(), 3, [0, 1, 2]) && Cost(Unpaired(), 3, [0, 1, 2]) == 0
  {
    UnpairedTable(Unpaired());
    UnpairedTour();
    assert Full(3) == 7;
  }

  /**
   * Lines 142 and 161 test for `int.MinValue`, but the table marks a missing pair with
   * `int.MaxValue`: with the pairs (a, b, 0) and (b, c, 0) the search as written answers
   * `int.MaxValue`, a route through the missing pair a-c, while no route through the pairs
   * given is longer than 0.
   */
  lemma MissingPairTakenAsEdge()
    ensures AsWrittenMaxOpen(Unpaired(), 3, 3) == IntMax
    ensures Answer(Unpaired(), 3, true, false) == 0
    ensures forall p :: Tour(Unpaired(), 3, p) ==> Cost(Unpaired(), 3, p) <= 0
  {
    UnpairedAsWritten(Unpaired());
    UnpairedCorrected();
    OpenAnswerOptimal(Unpaired(), 3, true);
  }
}

/**
 * SmallTools: backtracking generators of permutations and combinations, the subsets of a
 * list that reach a total, Euclid's GCD, the LCM fold, and trial-division factorisation.
 * The generators are methods that push and pop on a working list (and a `used` array for
 * permutations); each is proved equal to a recursive function listing what it appends.
 */
module SmallTools {
  import opened Wrappers
  import CSharpInt

  // ---------------------------------------------------------------------------
  // Lexicographic order on lists of numbers.
  // ---------------------------------------------------------------------------

  /** `a` comes strictly before `b`: they agree up to some position where `a` is smaller. */
  ghost predicate LexLess(a: seq<int>, b: seq<int>)
  {
    exists k :: 0 <= k < |a| && k < |b| && a[..k] == b[..k] && a[k] < b[k]
  }

  /** Every list of `r` comes strictly before every later one (so the lists are also distinct). */
  ghost predicate StrictlyOrdered(r: seq<seq<int>>)
  {
    forall i, j :: 0 <= i < j < |r| ==> LexLess(r[i], r[j])
  }

  /** Two lists that agree up to position `k` and differ there are ordered by that position. */
  lemma LexLessAt(a: seq<int>, b: seq<int>, k: nat)
    requires k < |a| && k < |b| && a[..k] == b[..k] && a[k] < b[k]
    ensures LexLess(a, b)
  {
  }

  /** Concatenating two ordered lists, each entry of the first before each of the second, keeps the order. */
  lemma OrderedConcat(a: seq<seq<int>>, b: seq<seq<int>>)
    requires StrictlyOrdered(a) && StrictlyOrdered(b)
    requires forall i, j :: 0 <= i < |a| && 0 <= j < |b| ==> LexLess(a[i], b[j])
    ensures StrictlyOrdered(a + b)
  {
    var c := a + b;
    forall i, j | 0 <= i < j < |c| ensures LexLess(c[i], c[j]) {
      if j < |a| {
        assert c[i] == a[i] && c[j] == a[j];
      } else if i >= |a| {
        assert c[i] == b[i - |a|] && c[j] == b[j - |a|];
      } else {
        assert c[i] == a[i] && c[j] == b[j - |a|];
      }
    }
  }

  /** Every list of `r` continues `pre` with `v`. */
  predicate ContinueWith(r: seq<seq<int>>, pre: seq<int>, v: int)
  {
    forall x :: 0 <= x < |r| ==> |r[x]| > |pre| && r[x][..|pre|] == pre && r[x][|pre|] == v
  }

  /** Every list of `r` continues `pre` with something greater than `v`. */
  predicate ContinueAbove(r: seq<seq<int>>, pre: seq<int>, v: int)
  {
    forall x :: 0 <= x < |r| ==> |r[x]| > |pre| && r[x][..|pre|] == pre && r[x][|pre|] > v
  }

  /** Lists that continue a common prefix with `v` all come before those that continue it with more. */
  lemma BlocksOrdered(a: seq<seq<int>>, b: seq<seq<int>>, pre: seq<int>, v: int)
    requires ContinueWith(a, pre, v) && ContinueAbove(b, pre, v)
    ensures forall x, y :: 0 <= x < |a| && 0 <= y < |b| ==> LexLess(a[x], b[y])
  {
    forall x, y | 0 <= x < |a| && 0 <= y < |b| ensures LexLess(a[x], b[y]) {
      LexLessAt(a[x], b[y], |pre|);
    }
  }

  // ---------------------------------------------------------------------------
  // Permutations.
  // ---------------------------------------------------------------------------

  function Factorial(n: nat): (f: nat)
    ensures f >= 1
  {
    if n == 0 then 1 else n * Factorial(n - 1)
  }

  /** The lists the backtracking appends from the partial permutation `p`: its completions, smallest next item first. */
  function Extensions(n: nat, p: seq<int>): seq<seq<int>>
    requires |p| <= n
    decreases n - |p|, n + 1
  {
    if |p| == n then [p] else ExtensionsFrom(n, p, 0)
  }

  /** The completions of `p` whose next item is at least `i`, for the unused items i..n-1 in order. */
  function ExtensionsFrom(n: nat, p: seq<int>, i: nat): seq<seq<int>>
    requires |p| < n
    decreases n - |p|, n - i
  {
    if i >= n then []
    else (if i in p then [] else Extensions(n, p + [i])) + ExtensionsFrom(n, p, i + 1)
  }

  /** What `GeneratePermutations(n)` returns. */
  function Permutations(n: nat): seq<seq<int>>
  {
    Extensions(n, [])
  }

  /** `p` lists distinct items below `n`: a partial permutation of 0..n-1. */
  predicate IsPartialPermutation(n: nat, p: seq<int>)
  {
    (forall k :: 0 <= k < |p| ==> 0 <= p[k] < n) && (forall k, l :: 0 <= k < l < |p| ==> p[k] != p[l])
  }

  lemma PartialPermutationSnoc(n: nat, p: seq<int>, i: int)
    requires IsPartialPermutation(n, p) && 0 <= i < n && i !in p
    ensures IsPartialPermutation(n, p + [i])
  {
  }

  /** A permutation of 0..n-1: n distinct items below n. */
  predicate IsPermutation(n: nat, p: seq<int>)
  {
    |p| == n && IsPartialPermutation(n, p)
  }

  /** Each completion of a partial permutation is a permutation that starts with it. */
  lemma {:induction false} ExtensionsArePermutations(n: nat, p: seq<int>)
    requires |p| <= n && IsPartialPermutation(n, p)
    ensures forall e :: e in Extensions(n, p) ==> IsPermutation(n, e) && e[..|p|] == p
    decreases n - |p|, n + 1
  {
    if |p| < n {
      ExtensionsFromArePermutations(n, p, 0);
    }
  }

  lemma {:induction false} ExtensionsFromArePermutations(n: nat, p: seq<int>, i: nat)
    requires |p| < n && IsPartialPermutation(n, p)
    ensures forall e :: e in ExtensionsFrom(n, p, i) ==> IsPermutation(n, e) && e[..|p|] == p && e[|p|] >= i
    decreases n - |p|, n - i
  {
    if i < n {
      ExtensionsFromArePermutations(n, p, i + 1);
      if i !in p {
        var q := p + [i];
        ExtensionsArePermutations(n, q);
        forall e | e in Extensions(n, q) ensures e[..|p|] == p && e[|p|] >= i {
          assert e[..|q|][..|p|] == p;
          assert e[..|q|][|p|] == i;
        }
      }
    }
  }

  /** The completions come out in strictly increasing lexicographic order. */
  lemma {:induction false} ExtensionsOrdered(n: nat, p: seq<int>)
    requires |p| <= n && IsPartialPermutation(n, p)
    ensures StrictlyOrdered(Extensions(n, p))
    decreases n - |p|, n + 1
  {
    if |p| < n {
      ExtensionsFromOrdered(n, p, 0);
    }
  }

  lemma {:induction false} ExtensionsFromOrdered(n: nat, p: seq<int>, i: nat)
    requires |p| < n && IsPartialPermutation(n, p)
    ensures StrictlyOrdered(ExtensionsFrom(n, p, i))
    decreases n - |p|, n - i
  {
    if i < n {
      ExtensionsFromOrdered(n, p, i + 1);
      if i !in p {
        var q := p + [i];
        var a, b := Extensions(n, q), ExtensionsFrom(n, p, i + 1);
        ExtensionsOrdered(n, q);
        ExtensionsArePermutations(n, q);
        ExtensionsFromArePermutations(n, p, i + 1);
        forall x | 0 <= x < |a| ensures |a[x]| > |p| && a[x][..|p|] == p && a[x][|p|] == i {
          assert a[x] in a;
          assert a[x][..|p|] == a[x][..|q|][..|p|];
          assert a[x][|p|] == a[x][..|q|][|p|];
        }
        forall y | 0 <= y < |b| ensures |b[y]| > |p| && b[y][..|p|] == p && b[y][|p|] > i {
          assert b[y] in b;
        }
        BlocksOrdered(a, b, p, i);
        OrderedConcat(a, b);
      } else {
        assert ExtensionsFrom(n, p, i) == [] + ExtensionsFrom(n, p, i + 1);
      }
    }
  }

  /** How many of the items i..n-1 are still unused by `p`. */
  function Unused(n: nat, p: seq<int>, i: nat): nat
    decreases n - i
  {
    if i >= n then 0 else (if i in p then 0 else 1) + Unused(n, p, i + 1)
  }

  /** Using one more item x removes it from the unused count of every range that contains it. */
  lemma {:induction false} UnusedSnoc(n: nat, p: seq<int>, x: int, i: nat)
    requires x !in p
    ensures Unused(n, p + [x], i) == Unused(n, p, i) - (if i <= x < n then 1 else 0)
    decreases n - i
  {
    if i < n {
      UnusedSnoc(n, p, x, i + 1);
    }
  }

  /** A partial permutation of length k leaves n - k items unused. */
  lemma {:induction false} UnusedCount(n: nat, p: seq<int>)
    requires |p| <= n && IsPartialPermutation(n, p)
    ensures Unused(n, p, 0) == n - |p|
  {
    if |p| == 0 {
      UnusedNone(n, 0);
    } else {
      var q := p[..|p| - 1];
      assert q + [p[|p| - 1]] == p;
      UnusedCount(n, q);
      UnusedSnoc(n, q, p[|p| - 1], 0);
    }
  }

  lemma {:induction false} UnusedNone(n: nat, i: nat)
    ensures Unused(n, [], i) == if i >= n then 0 else n - i
    decreases n - i
  {
    if i < n {
      UnusedNone(n, i + 1);
    }
  }

  /** A partial permutation of length k has (n - k)! completions. */
  lemma {:induction false} ExtensionsCount(n: nat, p: seq<int>)
    requires |p| <= n && IsPartialPermutation(n, p)
    ensures |Extensions(n, p)| == Factorial(n - |p|)
    decreases n - |p|, n + 1
  {
    if |p| < n {
      ExtensionsFromCount(n, p, 0);
      UnusedCount(n, p);
      assert Factorial(n - |p|) == (n - |p|) * Factorial(n - |p| - 1);
    }
  }

  lemma {:induction false} ExtensionsFromCount(n: nat, p: seq<int>, i: nat)
    requires |p| < n && IsPartialPermutation(n, p)
    ensures |ExtensionsFrom(n, p, i)| == Unused(n, p, i) * Factorial(n - |p| - 1)
    decreases n - |p|, n - i
  {
    if i < n {
      ExtensionsFromCount(n, p, i + 1);
      var f, u := Factorial(n - |p| - 1), Unused(n, p, i + 1);
      var here: nat := if i in p then 0 else 1;
      if i !in p {
        PartialPermutationSnoc(n, p, i);
        ExtensionsCount(n, p + [i]);
      }
      assert |ExtensionsFrom(n, p, i)| == here * f + u * f;
      Distribute(here, u, f);
    }
  }

  lemma Distribute(a: int, b: int, c: int)
    ensures a * c + b * c == (a + b) * c
  {
  }

  /**
   * `GeneratePermutations(n)`: the n! permutations of 0..n-1, each once, in strictly
   * increasing lexicographic order.
   */
  lemma PermutationsProperties(n: nat)
    ensures |Permutations(n)| == Factorial(n)
    ensures forall e :: e in Permutations(n) ==> IsPermutation(n, e)
    ensures StrictlyOrdered(Permutations(n))
  {
    ExtensionsCount(n, []);
    ExtensionsArePermutations(n, []);
    ExtensionsOrdered(n, []);
  }

  /** `GeneratePermutations(totalItems)`: the backtracking search from the empty permutation. */
  method GeneratePermutations(totalItems: nat) returns (result: seq<seq<int>>)
    ensures result == Permutations(totalItems)
  {
    var used := new bool[totalItems](_ => false);
    result := GeneratePermutationsRecursive(totalItems, [], [], used);
  }

  /**
   * `GeneratePermutationsRecursive`: appends the completions of `current` to `result`;
   * `used` marks the items of `current` and is restored on return.
   */
  method GeneratePermutationsRecursive(totalItems: nat, current: seq<int>, result: seq<seq<int>>, used: array<bool>)
    returns (out: seq<seq<int>>)
    requires used.Length == totalItems && |current| <= totalItems
    requires forall i :: 0 <= i < totalItems ==> (used[i] <==> i in current)
    modifies used
    ensures used[..] == old(used[..])
    ensures out == result + Extensions(totalItems, current)
    decreases totalItems - |current|
  {
    if |current| == totalItems {
      return result + [current];
    }
    out := result;
    for i := 0 to totalItems
      invariant used[..] == old(used[..])
      invariant out + ExtensionsFrom(totalItems, current, i) == result + Extensions(totalItems, current)
    {
      ghost var block := if i in current then [] else Extensions(totalItems, current + [i]);
      assert ExtensionsFrom(totalItems, current, i) == block + ExtensionsFrom(totalItems, current, i + 1);
      ghost var before := out;
      if !used[i] {
        used[i] := true;
        out := GeneratePermutationsRecursive(totalItems, current + [i], out, used);
        used[i] := false;
        assert used[..] == old(used[..]);
      }
      assert out == before + block;
    }
  }

  // ---------------------------------------------------------------------------
  // Combinations.
  // ---------------------------------------------------------------------------

  /** The binomial coefficient, by Pascal's rule. */
  function Binomial(m: nat, r: nat): nat
  {
    if r == 0 then 1 else if m == 0 then 0 else Binomial(m - 1, r - 1) + Binomial(m - 1, r)
  }

  /** The lists `GenerateCombinationsRecursive(start, ...)` appends for the partial combination `c`. */
  function Combinations(n: int, k: int, start: int, c: seq<int>): seq<seq<int>>
    decreases n - start, 1
  {
    if |c| == k then [c] else CombinationsFrom(n, k, c, start)
  }

  /** The completions of `c` whose next item is at least `i`. */
  function CombinationsFrom(n: int, k: int, c: seq<int>, i: int): seq<seq<int>>
    decreases n - i, 0
  {
    if i >= n then [] else Combinations(n, k, i + 1, c + [i]) + CombinationsFrom(n, k, c, i + 1)
  }

  /** `c` is strictly increasing. */
  predicate Increasing(c: seq<int>)
  {
    forall a, b :: 0 <= a < b < |c| ==> c[a] < c[b]
  }

  /**
   * Every completion of an increasing `c` whose items lie below `start` is an increasing list
   * of length k over 0..n-1 that starts with `c` and continues from `start`.
   */
  lemma {:induction false} CombinationsShape(n: int, k: int, start: int, c: seq<int>)
    requires Increasing(c) && |c| <= k && 0 <= start
    requires forall a :: 0 <= a < |c| ==> 0 <= c[a] < start
    ensures forall e :: e in Combinations(n, k, start, c) ==>
      |e| == k && Increasing(e) && e[..|c|] == c && forall a :: |c| <= a < |e| ==> start <= e[a] < n
    decreases n - start, 1
  {
    if |c| < k {
      CombinationsFromShape(n, k, c, start, start);
    }
  }

  lemma {:induction false} CombinationsFromShape(n: int, k: int, c: seq<int>, start: int, i: int)
    requires Increasing(c) && |c| < k && 0 <= start <= i
    requires forall a :: 0 <= a < |c| ==> 0 <= c[a] < start
    ensures forall e :: e in CombinationsFrom(n, k, c, i) ==>
      |e| == k && Increasing(e) && e[..|c|] == c && i <= e[|c|] && forall a :: |c| <= a < |e| ==> start <= e[a] < n
    decreases n - i, 0
  {
    if i < n {
      var d := c + [i];
      CombinationsShape(n, k, i + 1, d);
      CombinationsFromShape(n, k, c, start, i + 1);
      forall e | e in Combinations(n, k, i + 1, d)
        ensures e[..|c|] == c && e[|c|] == i && forall a :: |c| <= a < |e| ==> start <= e[a] < n
      {
        assert e[..|d|][..|c|] == c;
        assert e[..|d|][|c|] == i;
      }
    }
  }

  /** The completions come out in strictly increasing lexicographic order. */
  lemma {:induction false} CombinationsOrdered(n: int, k: int, start: int, c: seq<int>)
    requires Increasing(c) && |c| <= k && 0 <= start
    requires forall a :: 0 <= a < |c| ==> 0 <= c[a] < start
    ensures StrictlyOrdered(Combinations(n, k, start, c))
    decreases n - start, 1
  {
    if |c| < k {
      CombinationsFromOrdered(n, k, c, start, start);
    }
  }

  lemma {:induction false} CombinationsFromOrdered(n: int, k: int, c: seq<int>, start: int, i: int)
    requires Increasing(c) && |c| < k && 0 <= start <= i
    requires forall a :: 0 <= a < |c| ==> 0 <= c[a] < start
    ensures StrictlyOrdered(CombinationsFrom(n, k, c, i))
    decreases n - i, 0
  {
    if i < n {
      var a, b := Combinations(n, k, i + 1, c + [i]), CombinationsFrom(n, k, c, i + 1);
      CombinationsOrdered(n, k, i + 1, c + [i]);
      CombinationsFromOrdered(n, k, c, start, i + 1);
      CombinationsBlocks(n, k, c, start, i);
      BlocksOrdered(a, b, c, i);
      OrderedConcat(a, b);
    }
  }

  /** The completions taking i next all continue `c` with i; the later ones continue it with more. */
  lemma CombinationsBlocks(n: int, k: int, c: seq<int>, start: int, i: int)
    requires Increasing(c) && |c| < k && 0 <= start <= i < n
    requires forall a :: 0 <= a < |c| ==> 0 <= c[a] < start
    ensures ContinueWith(Combinations(n, k, i + 1, c + [i]), c, i)
    ensures ContinueAbove(CombinationsFrom(n, k, c, i + 1), c, i)
  {
    var d := c + [i];
    var a, b := Combinations(n, k, i + 1, d), CombinationsFrom(n, k, c, i + 1);
    CombinationsShape(n, k, i + 1, d);
    CombinationsFromShape(n, k, c, start, i + 1);
    forall x | 0 <= x < |a| ensures |a[x]| > |c| && a[x][..|c|] == c && a[x][|c|] == i {
      assert a[x] in a;
      assert a[x][..|c|] == a[x][..|d|][..|c|];
      assert a[x][|c|] == a[x][..|d|][|c|];
    }
    forall y | 0 <= y < |b| ensures |b[y]| > |c| && b[y][..|c|] == c && b[y][|c|] > i {
      assert b[y] in b;
    }
  }

  /** From `start`, a partial combination short of r items has C(n - start, r) completions. */
  lemma {:induction false} CombinationsCount(n: int, k: int, start: int, c: seq<int>)
    requires |c| <= k && 0 <= start <= n
    ensures |Combinations(n, k, start, c)| == Binomial(n - start, k - |c|)
    decreases n - start, 1
  {
    if |c| < k {
      CombinationsFromCount(n, k, c, start);
    }
  }

  lemma {:induction false} CombinationsFromCount(n: int, k: int, c: seq<int>, i: int)
    requires |c| < k && 0 <= i <= n
    ensures |CombinationsFrom(n, k, c, i)| == Binomial(n - i, k - |c|)
    decreases n - i, 0
  {
    if i < n {
      CombinationsCount(n, k, i + 1, c + [i]);
      CombinationsFromCount(n, k, c, i + 1);
    }
  }

  /**
   * `GenerateCombinations(n, k)`: the C(n, k) strictly increasing k-lists over 0..n-1, in
   * strictly increasing lexicographic order.
   */
  lemma CombinationsProperties(n: nat, k: nat)
    ensures |Combinations(n, k, 0, [])| == Binomial(n, k)
    ensures forall e :: e in Combinations(n, k, 0, []) ==>
      |e| == k && Increasing(e) && forall a :: 0 <= a < k ==> 0 <= e[a] < n
    ensures StrictlyOrdered(Combinations(n, k, 0, []))
  {
    CombinationsCount(n, k, 0, []);
    CombinationsShape(n, k, 0, []);
    CombinationsOrdered(n, k, 0, []);
  }

  /** Pascal's rule counts the k-subsets: there are none when k exceeds n, and C(n, n) = 1. */
  lemma {:induction false} BinomialEdges(m: nat, r: nat)
    ensures r > m ==> Binomial(m, r) == 0
    ensures Binomial(m, m) == 1
  {
    if m > 0 {
      BinomialEdges(m - 1, m - 1);
      BinomialEdges(m - 1, m);
      if r > 0 {
        BinomialEdges(m - 1, r - 1);
        BinomialEdges(m - 1, r);
      }
    }
  }

  /** `GenerateCombinations(totalItems, itemsNeeded)`. */
  method GenerateCombinations(totalItems: int, itemsNeeded: int) returns (result: seq<seq<int>>)
    ensures result == Combinations(totalItems, itemsNeeded, 0, [])
  {
    result := GenerateCombinationsRecursive(0, totalItems, itemsNeeded, [], []);
  }

  /** `GenerateCombinationsRecursive`: appends the completions of `current` from `start` to `result`. */
  method GenerateCombinationsRecursive(start: int, totalItems: int, itemsNeeded: int, current: seq<int>, result: seq<seq<int>>)
    returns (out: seq<seq<int>>)
    ensures out == result + Combinations(totalItems, itemsNeeded, start, current)
    decreases totalItems - start, 1
  {
    if |current| == itemsNeeded {
      return result + [current];
    }
    out := result;
    var i := start;
    while i < totalItems
      invariant out + CombinationsFrom(totalItems, itemsNeeded, current, i) == result + Combinations(totalItems, itemsNeeded, start, current)
      decreases totalItems - i
    {
      ghost var block := Combinations(totalItems, itemsNeeded, i + 1, current + [i]);
      assert CombinationsFrom(totalItems, itemsNeeded, current, i) == block + CombinationsFrom(totalItems, itemsNeeded, current, i + 1);
      ghost var before := out;
      out := GenerateCombinationsRecursive(i + 1, totalItems, itemsNeeded, current + [i], out);
      assert out == before + block;
      i := i + 1;
    }
  }


  // ---------------------------------------------------------------------------
  // Sub-lists reaching a total.
  // ---------------------------------------------------------------------------

  function Sum(s: seq<int>): int
  {
    if |s| == 0 then 0 else s[0] + Sum(s[1..])
  }

  /**
   * The lists the private `GenerateCombinations(numbers, target, current, results, start)`
   * appends: `current` once the remaining target is 0; otherwise, for each index i from
   * `start` whose number does not exceed the target, the completions of `current + [numbers[i]]`
   * from i + 1.
   */
  function Matching(numbers: seq<int>, target: int, c: seq<int>, start: nat): seq<seq<int>>
    decreases |numbers| - start, 1
  {
    if target == 0 then [c] else MatchingFrom(numbers, target, c, start)
  }

  function MatchingFrom(numbers: seq<int>, target: int, c: seq<int>, i: nat): seq<seq<int>>
    decreases |numbers| - i, 0
  {
    if i >= |numbers| then []
    else (if numbers[i] <= target then Matching(numbers, target - numbers[i], c + [numbers[i]], i + 1) else [])
         + MatchingFrom(numbers, target, c, i + 1)
  }

  /** `s` can be read off `t` left to right, skipping entries: each entry of `t` is used at most once. */
  predicate IsSubsequence(s: seq<int>, t: seq<int>)
    decreases |t|
  {
    if |s| == 0 then true
    else if |t| == 0 then false
    else (s[0] == t[0] && IsSubsequence(s[1..], t[1..])) || IsSubsequence(s, t[1..])
  }

  /** Dropping entries from the front of `t` keeps what is a subsequence of the rest. */
  lemma {:induction false} SubsequenceSkip(s: seq<int>, t: seq<int>, k: nat)
    requires k <= |t| && IsSubsequence(s, t[k..])
    ensures IsSubsequence(s, t)
    decreases k
  {
    if k > 0 {
      assert t[1..][k - 1..] == t[k..];
      SubsequenceSkip(s, t[1..], k - 1);
      if |s| > 0 {
        assert IsSubsequence(s, t[1..]);
      }
    }
  }

  /**
   * Every list of `r` extends `c` by numbers read off `rest` in order, each position used at
   * most once, and the extension adds up to `target`.
   */
  predicate Extends(r: seq<seq<int>>, c: seq<int>, target: int, rest: seq<int>)
  {
    forall e :: e in r ==> |e| >= |c| && e[..|c|] == c && Sum(e[|c|..]) == target && IsSubsequence(e[|c|..], rest)
  }

  lemma ExtendsConcat(a: seq<seq<int>>, b: seq<seq<int>>, c: seq<int>, target: int, rest: seq<int>)
    requires Extends(a, c, target, rest) && Extends(b, c, target, rest)
    ensures Extends(a + b, c, target, rest)
  {
  }

  /** What extends `c` from `t[1..]` also extends it from `t`. */
  lemma ExtendsSkip(r: seq<seq<int>>, c: seq<int>, target: int, t: seq<int>)
    requires |t| > 0 && Extends(r, c, target, t[1..])
    ensures Extends(r, c, target, t)
  {
    forall e | e in r ensures IsSubsequence(e[|c|..], t) {
      SubsequenceSkip(e[|c|..], t, 1);
    }
  }

  /** Every list appended extends `c` by numbers read off `numbers[start..]` that add up to the remaining target. */
  lemma {:induction false} MatchingSound(numbers: seq<int>, target: int, c: seq<int>, start: nat)
    requires start <= |numbers|
    ensures Extends(Matching(numbers, target, c, start), c, target, numbers[start..])
    decreases |numbers| - start, 1
  {
    if target == 0 {
      assert forall e :: e in Matching(numbers, target, c, start) ==> e == c && e[|c|..] == [];
    } else {
      MatchingFromSound(numbers, target, c, start);
    }
  }

  lemma {:induction false} MatchingFromSound(numbers: seq<int>, target: int, c: seq<int>, i: nat)
    requires i <= |numbers|
    ensures Extends(MatchingFrom(numbers, target, c, i), c, target, numbers[i..])
    decreases |numbers| - i, 0
  {
    if i < |numbers| {
      var later := MatchingFrom(numbers, target, c, i + 1);
      MatchingFromSound(numbers, target, c, i + 1);
      assert numbers[i..][1..] == numbers[i + 1..];
      ExtendsSkip(later, c, target, numbers[i..]);
      if numbers[i] <= target {
        MatchingSound(numbers, target - numbers[i], c + [numbers[i]], i + 1);
        MatchingStep(numbers, target, c, i);
        ExtendsConcat(Matching(numbers, target - numbers[i], c + [numbers[i]], i + 1), later, c, target, numbers[i..]);
      } else {
        assert MatchingFrom(numbers, target, c, i) == [] + later;
      }
    }
  }

  /** The lists found after taking `numbers[i]` extend `c` by it and then by a subsequence of what follows. */
  lemma MatchingStep(numbers: seq<int>, target: int, c: seq<int>, i: nat)
    requires i < |numbers|
    requires Extends(Matching(numbers, target - numbers[i], c + [numbers[i]], i + 1), c + [numbers[i]], target - numbers[i], numbers[i + 1..])
    ensures Extends(Matching(numbers, target - numbers[i], c + [numbers[i]], i + 1), c, target, numbers[i..])
  {
    var d := c + [numbers[i]];
    forall e | e in Matching(numbers, target - numbers[i], d, i + 1)
      ensures |e| >= |c| && e[..|c|] == c && Sum(e[|c|..]) == target && IsSubsequence(e[|c|..], numbers[i..])
    {
      assert e[..|c|] == e[..|d|][..|c|];
      assert e[|c|] == e[..|d|][|c|];
      var tail := e[|c|..];
      assert tail[0] == numbers[i] && tail[1..] == e[|d|..];
      assert numbers[i..][0] == numbers[i] && numbers[i..][1..] == numbers[i + 1..];
    }
  }

  /**
   * `GenerateCombinationsMatchingTotal(numbers, target)`: every list it returns reads numbers
   * off the list in order, each position at most once, and adds up to the target.
   */
  lemma MatchingTotalSound(numbers: seq<int>, targetValue: int)
    ensures forall e :: e in Matching(numbers, targetValue, [], 0) ==> Sum(e) == targetValue && IsSubsequence(e, numbers)
  {
    MatchingSound(numbers, targetValue, [], 0);
    assert numbers[0..] == numbers;
    forall e | e in Matching(numbers, targetValue, [], 0) ensures e[0..] == e { }
  }

  /** A position is never reused: [2, 3, 6, 7] with target 7 gives [7] alone, not also [2, 2, 3]. */
  lemma MatchingTotalExample()
    ensures Matching([2, 3, 6, 7], 7, [], 0) == [[7]]
  {
    var ns := [2, 3, 6, 7];
    assert MatchingFrom(ns, 1, [6], 3) == [];
    assert MatchingFrom(ns, 4, [3], 3) == [];
    assert MatchingFrom(ns, 4, [3], 2) == [];
    assert MatchingFrom(ns, 2, [2, 3], 3) == [];
    assert MatchingFrom(ns, 2, [2, 3], 2) == [];
    assert MatchingFrom(ns, 5, [2], 3) == [];
    assert MatchingFrom(ns, 5, [2], 2) == [];
    assert MatchingFrom(ns, 5, [2], 1) == [];
    assert MatchingFrom(ns, 7, [], 4) == [];
    assert [] + [7] == [7];
    assert Matching(ns, 0, [7], 4) == [[7]];
    assert MatchingFrom(ns, 7, [], 3) == [[7]];
    assert MatchingFrom(ns, 7, [], 2) == [[7]];
    assert MatchingFrom(ns, 7, [], 1) == [[7]];
  }

  /** `GenerateCombinationsMatchingTotal(numbers, targetValue)`. */
  method GenerateCombinationsMatchingTotal(numbers: seq<int>, targetValue: int) returns (result: seq<seq<int>>)
    ensures result == Matching(numbers, targetValue, [], 0)
  {
    result := GenerateMatching(numbers, targetValue, [], [], 0);
  }

  /** Concatenation of result lists is associative. */
  lemma Associative(a: seq<seq<int>>, b: seq<seq<int>>, c: seq<seq<int>>)
    ensures (a + b) + c == a + (b + c)
  {
  }

  /** One turn of the loop in the private `GenerateCombinations`: try `numbers[i]` next if it does not exceed the target. */
  method TryNumber(numbers: seq<int>, targetValue: int, current: seq<int>, results: seq<seq<int>>, i: nat)
    returns (out: seq<seq<int>>)
    requires i < |numbers|
    ensures out + MatchingFrom(numbers, targetValue, current, i + 1) == results + MatchingFrom(numbers, targetValue, current, i)
    decreases |numbers| - i, 0
  {
    var rest := MatchingFrom(numbers, targetValue, current, i + 1);
    if numbers[i] <= targetValue {
      var m := Matching(numbers, targetValue - numbers[i], current + [numbers[i]], i + 1);
      out := GenerateMatching(numbers, targetValue - numbers[i], current + [numbers[i]], results, i + 1);
      assert MatchingFrom(numbers, targetValue, current, i) == m + rest;
      Associative(results, m, rest);
    } else {
      out := results;
      assert MatchingFrom(numbers, targetValue, current, i) == [] + rest;
    }
  }

  /** The private recursive `GenerateCombinations(numbers, targetValue, current, results, startIndex)`. */
  method GenerateMatching(numbers: seq<int>, targetValue: int, current: seq<int>, results: seq<seq<int>>, startIndex: nat)
    returns (out: seq<seq<int>>)
    ensures out == results + Matching(numbers, targetValue, current, startIndex)
    decreases |numbers| - startIndex, 2
  {
    if targetValue == 0 {
      return results + [current];
    }
    out := results;
    var i := startIndex;
    while i < |numbers|
      invariant startIndex <= i
      invariant out + MatchingFrom(numbers, targetValue, current, i) == results + Matching(numbers, targetValue, current, startIndex)
      decreases |numbers| - i
    {
      out := TryNumber(numbers, targetValue, current, out, i);
      i := i + 1;
    }
  }

  // ---------------------------------------------------------------------------
  // Divisibility, GCD, LCM.
  // ---------------------------------------------------------------------------

  /** A multiple of d plus a multiple of d is a multiple of d. */
  lemma ModLinear(d: int, x: int, y: int, k: int)
    requires d > 0 && x % d == 0 && y % d == 0
    ensures (k * x + y) % d == 0
  {
    var qx, qy := x / d, y / d;
    assert x == qx * d && y == qy * d;
    assert k * x == (k * qx) * d by {
      assert k * (qx * d) == (k * qx) * d;
    }
    assert k * x + y == (k * qx + qy) * d;
    CSharpInt.DivModUnique(k * x + y, d, k * qx + qy, 0);
  }

  /** Divisibility is transitive. */
  lemma ModTrans(a: int, b: int, c: int)
    requires a > 0 && b > 0 && b % a == 0 && c % b == 0
    ensures c % a == 0
  {
    assert c == (c / b) * b + 0;
    ModLinear(a, b, 0, c / b);
  }

  /** `GCD(a, b)`: Euclid's algorithm with C#'s truncating `%`. */
  function Gcd(a: int, b: int): int
    decreases Abs(b)
  {
    if b == 0 then a
    else
      CSharpInt.QuotRem(a, b);
      Gcd(b, CSharpInt.Rem(a, b))
  }

  function Abs(v: int): nat { if v < 0 then -v else v }

  /**
   * For non-negative inputs `GCD` is the greatest common divisor: it is non-negative, zero
   * only for (0, 0), divides both, and every positive common divisor divides it.
   */
  lemma {:induction false} GcdIsGreatest(a: int, b: int)
    requires a >= 0 && b >= 0
    ensures Gcd(a, b) >= 0
    ensures Gcd(a, b) == 0 <==> a == 0 && b == 0
    ensures Gcd(a, b) > 0 ==> a % Gcd(a, b) == 0 && b % Gcd(a, b) == 0
    ensures forall d :: d > 0 && a % d == 0 && b % d == 0 ==> Gcd(a, b) % d == 0
    decreases b
  {
    if b > 0 {
      CSharpInt.QuotRem(a, b);
      var r := a % b;
      GcdIsGreatest(b, r);
      var g := Gcd(b, r);
      assert a == (a / b) * b + r;
      if g > 0 {
        ModLinear(g, b, r, a / b);
      }
      forall d | d > 0 && a % d == 0 && b % d == 0 ensures r % d == 0 {
        assert r == -(a / b) * b + a;
        ModLinear(d, b, a, -(a / b));
      }
    }
  }

  /** The GCD of two positive numbers is positive and at most each of them. */
  lemma GcdPositive(a: int, b: int)
    requires a > 0 && b > 0
    ensures 0 < Gcd(a, b) <= a && Gcd(a, b) <= b
  {
    GcdIsGreatest(a, b);
    var g := Gcd(a, b);
    MultipleAtLeast(a, g);
    MultipleAtLeast(b, g);
  }

  /** A positive multiple of a positive g is at least g, and is g times a positive quotient. */
  lemma MultipleAtLeast(a: int, g: int)
    requires a > 0 && g > 0 && a % g == 0
    ensures a / g >= 1 && a == (a / g) * g && a >= g
  {
    CSharpInt.MulAtLeast(a / g, g);
  }

  /**
   * `LCM(numbers)`: the fold x * y / GCD(x, y) over the array. The source throws on an empty
   * array (an aggregate with no seed) and divides by zero when a GCD is 0; both are `None`.
   */
  function Lcm(numbers: seq<int>): (r: Option<int>)
    ensures |numbers| == 0 ==> r.None?
    ensures |numbers| > 0 && AllPositive(numbers) ==>
      r.Some? && r.value > 0 && CommonMultiple(r.value, numbers) &&
      forall m :: m > 0 && CommonMultiple(m, numbers) ==> m % r.value == 0
  {
    if |numbers| == 0 then None
    else if AllPositive(numbers) then
      LcmFoldLeastAll(numbers);
      LcmFold(numbers[0], numbers[1..])
    else LcmFold(numbers[0], numbers[1..])
  }

  predicate AllPositive(numbers: seq<int>)
  {
    forall i :: 0 <= i < |numbers| ==> numbers[i] > 0
  }

  /** m is a multiple of every number of the list. */
  predicate CommonMultiple(m: int, numbers: seq<int>)
  {
    forall i :: 0 <= i < |numbers| ==> numbers[i] != 0 && m % numbers[i] == 0
  }

  /** A common multiple of a non-empty list is one of its head and of its tail. */
  lemma CommonMultipleSplit(m: int, numbers: seq<int>)
    requires |numbers| > 0
    ensures CommonMultiple(m, numbers) <==>
      numbers[0] != 0 && m % numbers[0] == 0 && CommonMultiple(m, numbers[1..])
  {
    if numbers[0] != 0 && m % numbers[0] == 0 && CommonMultiple(m, numbers[1..]) {
      forall i | 1 <= i < |numbers| ensures numbers[i] != 0 && m % numbers[i] == 0 {
        assert numbers[i] == numbers[1..][i - 1];
      }
    }
  }

  function LcmFold(acc: int, rest: seq<int>): Option<int>
    decreases |rest|
  {
    if |rest| == 0 then Some(acc)
    else
      var y := rest[0];
      var g := Gcd(acc, y);
      if g == 0 then None else LcmFold(CSharpInt.Quot(acc * y, g), rest[1..])
  }

  /** For a common divisor g of x and y, x * y / g is (x / g) * y and x * (y / g). */
  lemma ProductOverDivisor(x: int, y: int, g: int)
    requires x > 0 && y > 0 && g > 0 && x % g == 0 && y % g == 0
    ensures CSharpInt.Quot(x * y, g) == (x / g) * y == x * (y / g)
  {
    var qx, qy := x / g, y / g;
    assert x == qx * g && y == qy * g;
    assert x * y == (qx * y) * g by {
      assert (qx * g) * y == (qx * y) * g;
    }
    assert qx * y == x * qy by {
      assert qx * (qy * g) == (qx * g) * qy;
    }
    CSharpInt.QuotRem(x * y, g);
    CSharpInt.DivModUnique(x * y, g, qx * y, 0);
  }

  /** x * y / GCD(x, y) of positives is a positive multiple of both. */
  lemma LcmStep(x: int, y: int)
    requires x > 0 && y > 0
    ensures Gcd(x, y) > 0
    ensures var l := CSharpInt.Quot(x * y, Gcd(x, y)); l > 0 && l % x == 0 && l % y == 0
  {
    GcdPositive(x, y);
    GcdIsGreatest(x, y);
    var g := Gcd(x, y);
    ProductOverDivisor(x, y, g);
    MultipleAtLeast(x, g);
    MultipleAtLeast(y, g);
    var qx, qy := x / g, y / g;
    CSharpInt.MulAtLeast(qx, y);
    CSharpInt.DivModUnique(qx * y, y, qx, 0);
    CSharpInt.DivModUnique(x * qy, x, qy, 0);
  }

  /** Folding from a positive accumulator over positive numbers gives a positive multiple of the accumulator and of each number. */
  lemma {:induction false} LcmFoldMultiple(acc: int, rest: seq<int>)
    requires acc > 0 && AllPositive(rest)
    ensures LcmFold(acc, rest).Some? && LcmFold(acc, rest).value > 0
    ensures LcmFold(acc, rest).value % acc == 0
    ensures CommonMultiple(LcmFold(acc, rest).value, rest)
    decreases |rest|
  {
    if |rest| == 0 {
    } else {
      var y := rest[0];
      LcmStep(acc, y);
      var l := CSharpInt.Quot(acc * y, Gcd(acc, y));
      TailPositive(rest);
      LcmFoldMultiple(l, rest[1..]);
      var r := LcmFold(l, rest[1..]).value;
      ModTrans(acc, l, r);
      ModTrans(y, l, r);
      CommonMultipleSplit(r, rest);
    }
  }

  lemma TailPositive(numbers: seq<int>)
    requires |numbers| > 0 && AllPositive(numbers)
    ensures AllPositive(numbers[1..])
  {
    forall i | 0 <= i < |numbers| - 1 ensures numbers[1..][i] > 0 {
      assert numbers[1..][i] == numbers[i + 1];
    }
  }

  /** Scaling both arguments scales Euclid's result: GCD(k a, k b) = k GCD(a, b). */
  lemma {:induction false} GcdScale(k: int, a: int, b: int)
    requires k > 0 && a >= 0 && b >= 0
    ensures Gcd(k * a, k * b) == k * Gcd(a, b)
    decreases b
  {
    if b == 0 {
      assert k * b == 0;
    } else {
      CSharpInt.QuotRem(a, b);
      var r := a % b;
      ScaledRemainder(k, a, b, a / b, r);
      CSharpInt.QuotRem(k * a, k * b);
      GcdScale(k, b, r);
    }
  }

  /** With a = q b + r and 0 <= r < b, (k a) % (k b) is k r. */
  lemma ScaledRemainder(k: int, a: int, b: int, q: int, r: int)
    requires k > 0 && b > 0 && a >= 0 && a == q * b + r && 0 <= r < b
    ensures k * b > 0 && k * a >= 0 && (k * a) % (k * b) == k * r
  {
    ScaledSum(k, a, q * b, r);
    ScaledFactor(k, q, b);
    ScaledBelow(k, r, b);
    CSharpInt.DivModUnique(k * a, k * b, q, k * r);
  }

  lemma ScaledSum(k: int, a: int, s: int, r: int)
    requires a == s + r
    ensures k * a == k * s + k * r
  {
  }

  lemma ScaledFactor(k: int, q: int, b: int)
    ensures k * (q * b) == q * (k * b)
  {
  }

  lemma ScaledBelow(k: int, r: int, b: int)
    requires k > 0 && 0 <= r < b
    ensures 0 <= k * r < k * b && k * b > 0
  {
    CSharpInt.MulAtLeast(k, b - r);
    assert k * (b - r) == k * b - k * r;
  }

  /** A positive common multiple m of positive x and y is a multiple of x * y / GCD(x, y). */
  lemma LcmStepLeast(x: int, y: int, m: int)
    requires x > 0 && y > 0 && m > 0 && m % x == 0 && m % y == 0
    ensures Gcd(x, y) > 0 && CSharpInt.Quot(x * y, Gcd(x, y)) > 0
    ensures m % CSharpInt.Quot(x * y, Gcd(x, y)) == 0
  {
    LcmStep(x, y);
    var g := Gcd(x, y);
    var l := CSharpInt.Quot(x * y, g);
    LcmTimesGcd(x, y, g, l);
    ScaledGcdMultiple(x, y, m, g);
    var c := (m * g) / (x * y);
    MulPositive(x, y);
    assert m * g == c * (l * g);
    CancelFactor(m, c, l, g);
    CSharpInt.DivModUnique(m, l, c, 0);
  }

  /** x * y / GCD(x, y) times the GCD is x * y. */
  lemma LcmTimesGcd(x: int, y: int, g: int, l: int)
    requires x > 0 && y > 0 && g == Gcd(x, y) && g > 0 && l == CSharpInt.Quot(x * y, g)
    ensures l * g == x * y
  {
    GcdIsGreatest(x, y);
    ProductOverDivisor(x, y, g);
    MultipleAtLeast(x, g);
    assert (x / g) * y * g == ((x / g) * g) * y;
  }

  /** x * y divides m * GCD(x, y) for a common multiple m: it divides m x and m y, hence their GCD. */
  lemma ScaledGcdMultiple(x: int, y: int, m: int, g: int)
    requires x > 0 && y > 0 && m > 0 && m % x == 0 && m % y == 0 && g == Gcd(x, y)
    ensures x * y > 0 && (m * g) % (x * y) == 0
  {
    MulPositive(x, y);
    MulPositive(m, x);
    MulPositive(m, y);
    ProductDivides(m, x, y);
    ProductDivides(m, y, x);
    assert y * x == x * y;
    GcdScale(m, x, y);
    GcdIsGreatest(m * x, m * y);
  }

  /** If y divides m then x * y divides m * x. */
  lemma ProductDivides(m: int, x: int, y: int)
    requires x > 0 && y > 0 && m > 0 && m % y == 0
    ensures x * y > 0 && (m * x) % (x * y) == 0
  {
    MultipleAtLeast(m, y);
    var b := m / y;
    assert m * x == b * (x * y) by {
      assert m == b * y;
      assert (b * y) * x == b * (x * y);
    }
    MulPositive(x, y);
    CSharpInt.DivModUnique(m * x, x * y, b, 0);
  }

  lemma MulPositive(a: int, b: int)
    requires a > 0 && b > 0
    ensures a * b > 0
  {
  }

  /** m g = c (l g) with g > 0 gives m = c l. */
  lemma CancelFactor(m: int, c: int, l: int, g: int)
    requires g > 0 && m * g == c * (l * g)
    ensures m == c * l
  {
    assert (m - c * l) * g == 0 by {
      assert c * (l * g) == (c * l) * g;
    }
  }

  /** Folding over positive numbers gives a divisor of every positive common multiple of the accumulator and the numbers. */
  lemma {:induction false} LcmFoldLeast(acc: int, rest: seq<int>, m: int)
    requires acc > 0 && AllPositive(rest)
    requires m > 0 && m % acc == 0 && CommonMultiple(m, rest)
    ensures LcmFold(acc, rest).Some? && LcmFold(acc, rest).value > 0 && m % LcmFold(acc, rest).value == 0
    decreases |rest|
  {
    LcmFoldMultiple(acc, rest);
    if |rest| > 0 {
      var y := rest[0];
      CommonMultipleSplit(m, rest);
      LcmStep(acc, y);
      LcmStepLeast(acc, y, m);
      var l := CSharpInt.Quot(acc * y, Gcd(acc, y));
      TailPositive(rest);
      LcmFoldLeast(l, rest[1..], m);
    }
  }

  /** The fold over a non-empty list of positives is a positive common multiple dividing every other one. */
  lemma LcmFoldLeastAll(numbers: seq<int>)
    requires |numbers| > 0 && AllPositive(numbers)
    ensures LcmFold(numbers[0], numbers[1..]).Some?
    ensures var l := LcmFold(numbers[0], numbers[1..]).value;
      l > 0 && CommonMultiple(l, numbers) &&
      forall m :: m > 0 && CommonMultiple(m, numbers) ==> m % l == 0
  {
    var rest := numbers[1..];
    TailPositive(numbers);
    LcmFoldMultiple(numbers[0], rest);
    var l := LcmFold(numbers[0], rest).value;
    CommonMultipleSplit(l, numbers);
    forall m | m > 0 && CommonMultiple(m, numbers) ensures m % l == 0 {
      CommonMultipleSplit(m, numbers);
      LcmFoldLeast(numbers[0], rest, m);
    }
  }

  // ---------------------------------------------------------------------------
  // Primes.
  // ---------------------------------------------------------------------------

  predicate IsPrimeNumber(p: int)
  {
    p >= 2 && forall d :: 2 <= d < p ==> p % d != 0
  }

  function Product(s: seq<int>): int
  {
    if |s| == 0 then 1 else Product(s[..|s| - 1]) * s[|s| - 1]
  }

  lemma ProductSnoc(s: seq<int>, v: int)
    ensures Product(s + [v]) == Product(s) * v
  {
    assert (s + [v])[..|s|] == s;
  }

  predicate NonDecreasing(s: seq<int>)
  {
    forall a, b :: 0 <= a < b < |s| ==> s[a] <= s[b]
  }

  /**
   * `PrimeDecomposition(number)`: trial division by i = 2, 3, … while i·i ≤ n, then the
   * cofactor if it exceeds 1. For n ≥ 2 the factors are non-decreasing primes whose
   * product is n; below 2 the list is empty.
   */
  method PrimeDecomposition(number: int) returns (factors: seq<int>)
    ensures number < 2 ==> factors == []
    ensures number >= 2 ==> Product(factors) == number
    ensures forall k :: 0 <= k < |factors| ==> IsPrimeNumber(factors[k])
    ensures NonDecreasing(factors)
  {
    factors := [];
    if number < 2 {
      // 2 * 2 > number: the trial division loop does not run and nothing is left over.
      return;
    }
    var n := number;
    var i := 2;
    while i * i <= n
      invariant 2 <= i && 1 <= n
      invariant Product(factors) * n == number
      invariant forall k :: 0 <= k < |factors| ==> IsPrimeNumber(factors[k]) && factors[k] < i
      invariant NonDecreasing(factors)
      invariant forall d :: 2 <= d < i ==> n % d != 0
      decreases n - i
    {
      CSharpInt.MulAtLeast(i, i);
      ghost var n0 := n;
      while n % i == 0
        invariant 1 <= n <= n0
        invariant Product(factors) * n == number
        invariant forall k :: 0 <= k < |factors| ==> IsPrimeNumber(factors[k]) && factors[k] <= i
        invariant NonDecreasing(factors)
        invariant forall d :: 2 <= d < i ==> n % d != 0
        decreases n
      {
        SmallestDivisorIsPrime(n, i);
        DivideOut(factors, n, i);
        factors := factors + [i];
        n := n / i;
      }
      i := i + 1;
    }
    if n > 1 {
      CofactorIsPrime(n, i);
      ProductSnoc(factors, n);
      factors := factors + [n];
    }
  }

  /** The least divisor at least 2 of n is prime. */
  lemma SmallestDivisorIsPrime(n: int, i: int)
    requires 2 <= i && 1 <= n && n % i == 0
    requires forall d :: 2 <= d < i ==> n % d != 0
    ensures IsPrimeNumber(i)
  {
    forall d | 2 <= d < i ensures i % d != 0 {
      if i % d == 0 {
        ModTrans(d, i, n);
      }
    }
  }

  /** Taking out one factor i of n keeps the product and leaves no divisor below i. */
  lemma DivideOut(factors: seq<int>, n: int, i: int)
    requires 2 <= i && n >= 1 && n % i == 0
    requires forall d :: 2 <= d < i ==> n % d != 0
    ensures 1 <= n / i < n
    ensures Product(factors + [i]) * (n / i) == Product(factors) * n
    ensures forall d :: 2 <= d < i ==> (n / i) % d != 0
  {
    QuotientSmaller(n, i);
    ProductSnoc(factors, i);
    ProductShift(Product(factors), i, n / i);
    forall d | 2 <= d < i ensures (n / i) % d != 0 {
      if (n / i) % d == 0 {
        ModLinear(d, n / i, 0, i);
      }
    }
  }

  lemma QuotientSmaller(n: int, i: int)
    requires 2 <= i && n >= 1 && n % i == 0
    ensures 1 <= n / i < n && n == i * (n / i) + 0
  {
    MultipleAtLeast(n, i);
    CSharpInt.MulAtLeast(i - 1, n / i);
  }

  lemma ProductShift(p: int, i: int, m: int)
    ensures (p * i) * m == p * (i * m)
  {
  }

  /** A number n > 1 with no divisor in [2, i) and i·i > n is prime, and at least i. */
  lemma CofactorIsPrime(n: int, i: int)
    requires n > 1 && 2 <= i && i * i > n
    requires forall d :: 2 <= d < i ==> n % d != 0
    ensures IsPrimeNumber(n) && n >= i
  {
    assert n % n == 0;
    forall d | 2 <= d < n ensures n % d != 0 {
      if d >= i && n % d == 0 {
        var q := n / d;
        assert n == q * d;
        assert q >= 1 by { CSharpInt.MulAtLeast(1, d); }
        MulMonotone(q, d, i);
        CSharpInt.DivModUnique(n, q, d, 0);
      }
    }
  }

  lemma MulMonotone(a: int, b: int, c: int)
    requires c >= 0
    ensures a >= c && b >= c ==> a * b >= c * c
  {
    if a >= c && b >= c {
      assert a * b >= c * b;
      assert c * b >= c * c;
    }
  }

  /** A product of primes is at least 1, and at least 2 when there is one. */
  lemma {:induction false} PrimeProductAtLeast(s: seq<int>)
    requires forall k :: 0 <= k < |s| ==> IsPrimeNumber(s[k])
    ensures Product(s) >= 1
    ensures |s| > 0 ==> Product(s) >= 2
  {
    if |s| > 0 {
      PrimeProductAtLeast(s[..|s| - 1]);
      CSharpInt.MulAtLeast(Product(s[..|s| - 1]), s[|s| - 1]);
    }
  }

  /** A product of primes equal to a prime p is the list [p]. */
  lemma PrimeProductSingle(factors: seq<int>, p: int)
    requires IsPrimeNumber(p) && Product(factors) == p
    requires forall k :: 0 <= k < |factors| ==> IsPrimeNumber(factors[k])
    ensures |factors| == 1
  {
    if |factors| > 1 {
      var front := factors[..|factors| - 1];
      var last := factors[|factors| - 1];
      PrimeProductAtLeast(front);
      assert front[0] == factors[0];
      var rest := Product(front);
      CSharpInt.MulAtLeast(rest - 1, last);
      CSharpInt.DivModUnique(p, last, rest, 0);
    }
  }

  /** `IsPrime(number)`: the decomposition has exactly one factor, which holds exactly for primes. */
  method IsPrime(number: int) returns (b: bool)
    ensures b <==> IsPrimeNumber(number)
  {
    var factors := PrimeDecomposition(number);
    b := |factors| == 1;
    if IsPrimeNumber(number) {
      PrimeProductSingle(factors, number);
    }
    if b {
      assert factors == [] + [factors[0]];
      ProductSnoc([], factors[0]);
    }
  }
}

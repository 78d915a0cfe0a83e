/**
 * Names: the node lists the solvers build from `(from, to, distance)` pairs, the distinct names
 * in ascending order, and `List.IndexOf` over them.
 */
module Names {
  /** Ordinal string order: a sorts strictly before b. */
  predicate Before(a: string, b: string)
    decreases |a|
  {
    |b| > 0 && (|a| == 0 || a[0] < b[0] || (a[0] == b[0] && Before(a[1..], b[1..])))
  }

  lemma {:induction false} BeforeTotal(a: string, b: string)
    ensures a == b || Before(a, b) || Before(b, a)
    ensures !(Before(a, b) && Before(b, a))
    decreases |a|
  {
    if |a| > 0 && |b| > 0 && a[0] == b[0] {
      BeforeTotal(a[1..], b[1..]);
      if a[1..] == b[1..] {
        assert a == [a[0]] + a[1..] && b == [b[0]] + b[1..];
      }
    }
  }

  lemma {:induction false} BeforeTransitive(a: string, b: string, c: string)
    requires Before(a, b) && Before(b, c)
    ensures Before(a, c)
    decreases |a|
  {
    if |a| > 0 && a[0] == b[0] && b[0] == c[0] {
      BeforeTransitive(a[1..], b[1..], c[1..]);
    }
  }

  predicate Sorted(s: seq<string>)
  {
    forall i, j :: 0 <= i < j < |s| ==> Before(s[i], s[j])
  }

  /** Adds x to a strictly sorted list unless it is already there. */
  function Insert(s: seq<string>, x: string): (r: seq<string>)
    requires Sorted(s)
    ensures Sorted(r) && forall y :: y in r <==> y in s || y == x
  {
    if |s| == 0 then [x]
    else if s[0] == x then s
    else if Before(x, s[0]) then
      assert forall j :: 0 <= j < |s| ==> Before(x, s[j]) by {
        forall j | 0 <= j < |s| ensures Before(x, s[j]) {
          if j > 0 {
            BeforeTransitive(x, s[0], s[j]);
          }
        }
      }
      [x] + s
    else
      BeforeTotal(x, s[0]);
      var rest := Insert(s[1..], x);
      assert forall y :: y in rest ==> Before(s[0], y);
      [s[0]] + rest
  }

  /** A name given by one of the first k pairs. */
  predicate Named(pairs: seq<(string, string, int)>, k: nat, x: string)
    requires k <= |pairs|
  {
    exists i :: 0 <= i < k && (pairs[i].0 == x || pairs[i].1 == x)
  }

  /**
   * The distinct names of the first k pairs in ascending order: `Distinct()`
   * followed by `Order()` in the solvers.
   */
  function SortedNames(pairs: seq<(string, string, int)>, k: nat): (c: seq<string>)
    requires k <= |pairs|
    ensures Sorted(c) && forall x :: x in c <==> Named(pairs, k, x)
  {
    if k == 0 then []
    else
      var c := Insert(Insert(SortedNames(pairs, k - 1), pairs[k - 1].0), pairs[k - 1].1);
      assert forall x :: Named(pairs, k, x) <==> Named(pairs, k - 1, x) || x == pairs[k - 1].0 || x == pairs[k - 1].1 by {
        forall x | Named(pairs, k, x) && !Named(pairs, k - 1, x) ensures x == pairs[k - 1].0 || x == pairs[k - 1].1 {
        }
      }
      c
  }

  /** A strictly sorted list holds every name once. */
  lemma SortedDistinct(s: seq<string>, i: nat, j: nat)
    requires Sorted(s) && i < |s| && j < |s| && i != j
    ensures s[i] != s[j]
  {
    if i < j {
      BeforeTotal(s[i], s[j]);
    } else {
      BeforeTotal(s[j], s[i]);
    }
  }

  /** `List.IndexOf`: the position of x, or -1. */
  function IndexOf(s: seq<string>, x: string): (k: int)
    ensures -1 <= k < |s| && (k >= 0 <==> x in s) && (k >= 0 ==> s[k] == x)
  {
    if |s| == 0 then -1
    else if s[0] == x then 0
    else var k := IndexOf(s[1..], x); if k < 0 then -1 else k + 1
  }

  /** Pair q joins the names at positions i and j of the list, in either direction. */
  predicate Joins(pairs: seq<(string, string, int)>, names: seq<string>, q: nat, i: nat, j: nat)
    requires q < |pairs|
  {
    var f, t := IndexOf(names, pairs[q].0), IndexOf(names, pairs[q].1);
    (i == f && j == t) || (i == t && j == f)
  }
}

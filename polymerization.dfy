/**
 * Day 14, Extended Polymerization. A polymer template grows by inserting, between the two
 * elements of every adjacent pair that has a rule, the rule's element. The solver never
 * builds the polymer: it keeps how often each adjacent pair occurs, rewrites those counts
 * once per step, and recovers the element counts from the pair counts at the end.
 *
 * The model keeps the explicit polymer as a ghost field beside the pair counts and proves
 * that the counts stay those of the polymer's adjacent pairs.
 */
module Polymerization {
  import opened Wrappers

  // ---------------------------------------------------------------------------
  // Sequences, counts and dictionaries.
  // ---------------------------------------------------------------------------

  /** `f` applied to each element of `a`, the results joined in order. */
  function Concat<A, B>(a: seq<A>, f: A -> seq<B>): seq<B>
  {
    if |a| == 0 then [] else f(a[0]) + Concat(a[1..], f)
  }

  /** `k` written `v` times in a row. */
  function Run<T>(k: T, v: nat): seq<T>
  {
    seq(v, _ => k)
  }

  /** `v` copies of `k`. */
  function Copies<K>(k: K, v: nat): multiset<K>
  {
    multiset{}[k := v]
  }

  /** How often `e` occurs in `s`. */
  function Occ<T(==)>(s: seq<T>, e: T): nat
  {
    multiset(s)[e]
  }

  /** A dictionary read with 0 for a missing key, as `TryAdd(key, 0)` followed by `+=` does. */
  function Count<K>(m: map<K, int>, k: K): int
  {
    if k in m then m[k] else 0
  }

  /** `m` with `v` added to the count of `k`: `TryAdd(k, 0)` followed by `m[k] += v`. */
  function Bump<K>(m: map<K, int>, k: K, v: int): map<K, int>
  {
    m[k := Count(m, k) + v]
  }

  /** The dictionary `m` counts the bag `ms`: each key as often as it occurs, every stored count positive. */
  ghost predicate Tallies<K(!new)>(m: map<K, int>, ms: multiset<K>)
  {
    (forall k {:trigger Count(m, k)} :: Count(m, k) == ms[k]) && (forall k :: k in m ==> m[k] > 0)
  }

  lemma {:induction false} ConcatAppend<A, B>(a: seq<A>, b: seq<A>, f: A -> seq<B>)
    ensures Concat(a + b, f) == Concat(a, f) + Concat(b, f)
  {
    if |a| > 0 {
      assert (a + b)[0] == a[0] && (a + b)[1..] == a[1..] + b;
      ConcatAppend(a[1..], b, f);
    } else {
      assert a + b == b;
    }
  }

  /** Taking the same item out of two lists with the same items leaves lists with the same items. */
  lemma RemoveOne<A>(a: seq<A>, l: seq<A>, x: A, r: seq<A>)
    requires |a| > 0 && a[0] == x && multiset(a) == multiset(l + [x] + r)
    ensures multiset(a[1..]) == multiset(l + r)
  {
    assert a == [x] + a[1..];
    assert multiset(a) == multiset{x} + multiset(a[1..]);
    assert multiset(l + [x] + r) == multiset{x} + multiset(l + r);
    forall q ensures multiset(a[1..])[q] == multiset(l + r)[q] {
      assert multiset(a)[q] == multiset{x}[q] + multiset(a[1..])[q];
      assert multiset(l + [x] + r)[q] == multiset{x}[q] + multiset(l + r)[q];
    }
  }

  /** An item in the middle of a list contributes its image to the joined bag wherever it stands. */
  lemma ConcatSplitOut<A, B>(l: seq<A>, x: A, r: seq<A>, f: A -> seq<B>)
    ensures multiset(Concat(l + [x] + r, f)) == multiset(f(x)) + multiset(Concat(l + r, f))
  {
    ConcatAppend(l + [x], r, f);
    ConcatAppend(l, [x], f);
    ConcatAppend(l, r, f);
    assert Concat([x], f) == f(x) by {
      assert [x][1..] == [];
    }
  }

  /** Joining the images of a list depends only on which items it holds, not on their order. */
  lemma {:induction false} ConcatPerm<A, B>(a: seq<A>, b: seq<A>, f: A -> seq<B>)
    requires multiset(a) == multiset(b)
    ensures multiset(Concat(a, f)) == multiset(Concat(b, f))
    decreases |a|
  {
    if |a| > 0 {
      var x := a[0];
      assert x in multiset(b);
      var i :| 0 <= i < |b| && b[i] == x;
      var l, r := b[..i], b[i + 1..];
      assert b == l + [x] + r;
      RemoveOne(a, l, x, r);
      ConcatPerm(a[1..], l + r, f);
      ConcatSplitOut(l, x, r, f);
    } else {
      assert |multiset(b)| == 0;
    }
  }

  lemma {:induction false} RunCopies<T>(k: T, v: nat)
    ensures multiset(Run(k, v)) == Copies(k, v)
  {
    if v > 0 {
      assert Run(k, v) == Run(k, v - 1) + [k];
      RunCopies(k, v - 1);
    }
  }

  lemma CopiesStep<K>(k: K, v: nat)
    requires v > 0
    ensures Copies(k, v) == multiset{k} + Copies(k, v - 1)
  {
    forall q ensures Copies(k, v)[q] == (multiset{k} + Copies(k, v - 1))[q] {
    }
  }

  /** `v` copies of an item that `f` makes into `[a, b]` give `v` copies of `a` and `v` of `b`. */
  lemma {:induction false} ConcatRunTwo<A, B>(k: A, v: nat, f: A -> seq<B>, a: B, b: B)
    requires f(k) == [a, b]
    ensures multiset(Concat(Run(k, v), f)) == Copies(a, v) + Copies(b, v)
  {
    if v > 0 {
      var r := Run(k, v);
      assert r[0] == k && r[1..] == Run(k, v - 1);
      ConcatRunTwo(k, v - 1, f, a, b);
      assert Concat(r, f) == [a, b] + Concat(Run(k, v - 1), f);
      CopiesStep(a, v);
      CopiesStep(b, v);
    } else {
      assert Copies(a, 0) == multiset{} && Copies(b, 0) == multiset{};
    }
  }

  /** `v` copies of an item that `f` keeps as `[a]` give `v` copies of `a`. */
  lemma {:induction false} ConcatRunOne<A, B>(k: A, v: nat, f: A -> seq<B>, a: B)
    requires f(k) == [a]
    ensures multiset(Concat(Run(k, v), f)) == Copies(a, v)
  {
    if v > 0 {
      var r := Run(k, v);
      assert r[0] == k && r[1..] == Run(k, v - 1);
      ConcatRunOne(k, v - 1, f, a);
      assert Concat(r, f) == [a] + Concat(Run(k, v - 1), f);
      CopiesStep(a, v);
    } else {
      assert Copies(a, 0) == multiset{};
    }
  }

  /** Appending to the list appends to the bag of its joined images. */
  lemma ConcatAppendBag<A, B>(a: seq<A>, b: seq<A>, f: A -> seq<B>)
    ensures multiset(Concat(a + b, f)) == multiset(Concat(a, f)) + multiset(Concat(b, f))
  {
    ConcatAppend(a, b, f);
  }

  /** Adding `v` to the count of `k` counts `v` more copies of `k`. */
  lemma TallyAdd<K(!new)>(m: map<K, int>, ms: multiset<K>, k: K, v: nat)
    requires Tallies(m, ms) && v > 0
    ensures Tallies(Bump(m, k, v), ms + Copies(k, v))
  {
    forall q ensures Count(Bump(m, k, v), q) == (ms + Copies(k, v))[q] {
      assert Count(m, q) == ms[q];
    }
  }

  /** Adding `v` to the counts of `a` and of `b` counts `v` more copies of each. */
  lemma TallyTwoAdd<K(!new)>(m: map<K, int>, ms: multiset<K>, a: K, b: K, v: nat, ms': multiset<K>)
    requires Tallies(m, ms) && v > 0 && ms' == ms + (Copies(a, v) + Copies(b, v))
    ensures Tallies(Bump(Bump(m, a, v), b, v), ms')
  {
    TallyAdd(m, ms, a, v);
    TallyAdd(Bump(m, a, v), ms + Copies(a, v), b, v);
    assert ms' == ms + Copies(a, v) + Copies(b, v);
  }

  /**
   * One insertion step on the explicit polymer: every adjacent pair with a rule gets the
   * rule's element between its two elements. All insertions see the polymer before the step.
   */
  function Insert(t: string, rules: map<string, char>): (r: string)
    ensures |r| >= |t|
    ensures |t| > 0 ==> r[0] == t[0] && r[|r| - 1] == t[|t| - 1]
  {
    if |t| < 2 then t
    else
      var p := [t[0], t[1]];
      (if p in rules then [t[0], rules[p]] else [t[0]]) + Insert(t[1..], rules)
  }

  /** The polymer after `k` steps; its first and last elements are those of the template. */
  function Grow(t: string, rules: map<string, char>, k: nat): (r: string)
    ensures |r| >= |t|
    ensures |t| > 0 ==> r[0] == t[0] && r[|r| - 1] == t[|t| - 1]
  {
    if k == 0 then t else Insert(Grow(t, rules, k - 1), rules)
  }

  /** The adjacent pairs of a polymer, left to right. */
  function AdjacentPairs(t: string): seq<string>
  {
    if |t| < 2 then [] else seq(|t| - 1, i requires 0 <= i < |t| - 1 => [t[i], t[i + 1]])
  }

  /** What a step makes of the pair `p`: the two pairs around the inserted element, or `p` itself. */
  function Children(p: string, rules: map<string, char>): seq<string>
    requires |p| == 2
  {
    if p in rules then [[p[0], rules[p]], [rules[p], p[1]]] else [p]
  }

  /** `Children` as a function value, for `Concat`. */
  function Expansion(rules: map<string, char>): string -> seq<string>
  {
    p => if |p| == 2 then Children(p, rules) else [p]
  }

  /** A pair as the two elements it holds. */
  function PairElements(p: string): seq<char>
  {
    p
  }

  /** Counting `v` more copies of the pair `key` counts `v` more copies of each of its children. */
  lemma TallyChildren(m: map<string, int>, done: seq<string>, key: string, v: nat, rules: map<string, char>)
    requires |key| == 2 && v > 0 && Tallies(m, multiset(Concat(done, Expansion(rules))))
    ensures key in rules ==> var c := rules[key];
      Tallies(Bump(Bump(m, [key[0], c], v), [c, key[1]], v), multiset(Concat(done + Run(key, v), Expansion(rules))))
    ensures key !in rules ==> Tallies(Bump(m, key, v), multiset(Concat(done + Run(key, v), Expansion(rules))))
  {
    var f := Expansion(rules);
    ConcatAppendBag(done, Run(key, v), f);
    var image := multiset(Concat(done, f));
    if key in rules {
      var c := rules[key];
      var p1, p2 := [key[0], c], [c, key[1]];
      assert f(key) == [p1, p2];
      ConcatRunTwo(key, v, f, p1, p2);
      TallyTwoAdd(m, image, p1, p2, v, multiset(Concat(done + Run(key, v), f)));
    } else {
      assert f(key) == [key];
      ConcatRunOne(key, v, f, key);
      TallyAdd(m, image, key, v);
    }
  }

  /** Counting `v` more copies of the pair `key` counts `v` more copies of each of its two elements. */
  lemma TallyElements(m: map<char, int>, done: seq<string>, key: string, v: nat)
    requires |key| == 2 && v > 0 && Tallies(m, multiset(Concat(done, PairElements)))
    ensures Tallies(Bump(Bump(m, key[0], v), key[1], v), multiset(Concat(done + Run(key, v), PairElements)))
  {
    ConcatAppendBag(done, Run(key, v), PairElements);
    var image := multiset(Concat(done, PairElements));
    assert PairElements(key) == [key[0], key[1]];
    ConcatRunTwo(key, v, PairElements, key[0], key[1]);
    var after := multiset(Concat(done + Run(key, v), PairElements));
    assert after == image + (Copies(key[0], v) + Copies(key[1], v));
    TallyTwoAdd(m, image, key[0], key[1], v, after);
  }

  /** A polymer of n elements has n - 1 adjacent pairs, each of two elements. */
  lemma PairsOfTemplate(t: string)
    ensures |t| > 0 ==> |AdjacentPairs(t)| == |t| - 1
    ensures forall p :: p in AdjacentPairs(t) ==> |p| == 2
  {
  }

  lemma AdjacentPairsCons(x: char, u: string)
    requires |u| >= 1
    ensures AdjacentPairs([x] + u) == [[x, u[0]]] + AdjacentPairs(u)
  {
    var t := [x] + u;
    var l, r := AdjacentPairs(t), [[x, u[0]]] + AdjacentPairs(u);
    assert |l| == |r|;
    forall i | 0 <= i < |l| ensures l[i] == r[i] {
      if i > 0 {
        assert t[i] == u[i - 1] && t[i + 1] == u[i];
      }
    }
  }

  /** The adjacent pairs after a step are the children of the adjacent pairs before it, in order. */
  lemma {:induction false} PairsOfInsert(t: string, rules: map<string, char>)
    ensures AdjacentPairs(Insert(t, rules)) == Concat(AdjacentPairs(t), Expansion(rules))
  {
    if |t| >= 2 {
      var u := t[1..];
      PairsOfInsert(u, rules);
      PairsOfInsertHead(t, rules);
      PairsSplit(t);
      var ps := AdjacentPairs(t);
      assert ps[0] == [t[0], t[1]] && ps[1..] == AdjacentPairs(u);
      assert Expansion(rules)(ps[0]) == Children([t[0], t[1]], rules);
    }
  }

  /** The first pair's children, then the pairs of the rest of the polymer grown. */
  lemma PairsOfInsertHead(t: string, rules: map<string, char>)
    requires |t| >= 2
    ensures AdjacentPairs(Insert(t, rules)) ==
      Children([t[0], t[1]], rules) + AdjacentPairs(Insert(t[1..], rules))
  {
    var u := t[1..];
    var p := [t[0], t[1]];
    var rest := Insert(u, rules);
    assert rest[0] == t[1];
    if p in rules {
      var c := rules[p];
      assert Insert(t, rules) == [t[0]] + ([c] + rest);
      AdjacentPairsCons(c, rest);
      AdjacentPairsCons(t[0], [c] + rest);
    } else {
      assert Insert(t, rules) == [t[0]] + rest;
      AdjacentPairsCons(t[0], rest);
    }
  }

  /** The pairs of `t`: its first pair, then the pairs of `t[1..]`. */
  lemma PairsSplit(t: string)
    requires |t| >= 2
    ensures AdjacentPairs(t) == [[t[0], t[1]]] + AdjacentPairs(t[1..])
  {
    assert t == [t[0]] + t[1..];
    AdjacentPairsCons(t[0], t[1..]);
  }

  /** The elements of the pairs of `t`: those of its first pair, then those of the pairs of `t[1..]`. */
  lemma PairElementsSplit(t: string)
    requires |t| >= 2
    ensures multiset(Concat(AdjacentPairs(t), PairElements)) ==
      multiset{t[0], t[1]} + multiset(Concat(AdjacentPairs(t[1..]), PairElements))
  {
    var u := t[1..];
    assert t == [t[0]] + u;
    AdjacentPairsCons(t[0], u);
    var ps := AdjacentPairs(t);
    assert ps[0] == [t[0], t[1]] && ps[1..] == AdjacentPairs(u);
    assert Concat(ps, PairElements) == [t[0], t[1]] + Concat(AdjacentPairs(u), PairElements);
  }

  lemma BagStep<T>(pt: multiset<T>, pu: multiset<T>, mu: multiset<T>, a: T, b: T, c: T)
    requires pt == multiset{a, b} + pu && pu + multiset{b, c} == mu + mu
    ensures pt + multiset{a, c} == (multiset{a} + mu) + (multiset{a} + mu)
  {
    calc {
      pt + multiset{a, c};
      multiset{a, a} + (pu + multiset{b, c});
      multiset{a, a} + (mu + mu);
    }
  }

  /** The pairs of a polymer of at least two elements hold each element twice, except its two ends once. */
  lemma {:induction false} PairEnds(t: string)
    requires |t| >= 2
    ensures multiset(Concat(AdjacentPairs(t), PairElements)) + multiset{t[0], t[|t| - 1]} == multiset(t) + multiset(t)
  {
    var u := t[1..];
    assert t == [t[0]] + u;
    PairElementsSplit(t);
    if |u| >= 2 {
      PairEnds(u);
      assert u[0] == t[1] && u[|u| - 1] == t[|t| - 1];
      BagStep(multiset(Concat(AdjacentPairs(t), PairElements)), multiset(Concat(AdjacentPairs(u), PairElements)),
        multiset(u), t[0], t[1], t[|t| - 1]);
    } else {
      assert AdjacentPairs(u) == [] && t == [t[0], t[1]];
    }
  }

  // ---------------------------------------------------------------------------
  // Recovering the element counts from the pair counts (Day14.cs:50-68).
  // ---------------------------------------------------------------------------

  /** How often `e` is an element of one of the pairs `ps`. */
  function Ends(ps: seq<string>, e: char): nat
  {
    Occ(Concat(ps, PairElements), e)
  }

  /** The count of `e` as lines 60-68 recover it: halve the pair ends, then add one for the first and for the last element. */
  function AsWrittenRecovery(ends: nat, e: char, first: char, last: char): int
  {
    ends / 2 + (if e == first then 1 else 0) + (if e == last then 1 else 0)
  }

  /** The count of `e` recovered by adding the first and the last element before halving. */
  function Recovery(ends: nat, e: char, first: char, last: char): int
  {
    (ends + (if e == first then 1 else 0) + (if e == last then 1 else 0)) / 2
  }

  /** Added before halving, the two ends give every element's count exactly. */
  lemma RecoveryExact(t: string, e: char)
    requires |t| >= 2
    ensures Recovery(Ends(AdjacentPairs(t), e), e, t[0], t[|t| - 1]) == Occ(t, e)
  {
    EndsCount(t, e);
  }

  /** The pair ends of `e`: twice its count, less one for each end of the polymer it is. */
  lemma EndsCount(t: string, e: char)
    requires |t| >= 2
    ensures Ends(AdjacentPairs(t), e) + (if e == t[0] then 1 else 0) + (if e == t[|t| - 1] then 1 else 0) == 2 * Occ(t, e)
    ensures e == t[0] && e == t[|t| - 1] ==> Occ(t, e) >= 2
  {
    PairEnds(t);
    var m := multiset(Concat(AdjacentPairs(t), PairElements)) + multiset{t[0], t[|t| - 1]};
    assert m[e] == multiset(Concat(AdjacentPairs(t), PairElements))[e] + multiset{t[0], t[|t| - 1]}[e];
    if e == t[0] && e == t[|t| - 1] {
      EndsOccur(t);
    }
  }

  /** The first and the last element are two of the occurrences. */
  lemma EndsOccur(t: string)
    requires |t| >= 2 && t[0] == t[|t| - 1]
    ensures Occ(t, t[0]) >= 2
  {
    assert t == [t[0]] + t[1..|t| - 1] + [t[|t| - 1]];
    assert multiset(t) == multiset{t[0]} + multiset(t[1..|t| - 1]) + multiset{t[|t| - 1]};
  }

  /**
   * Added after halving, they give the exact count when the first and last elements differ,
   * and one too many for that element when they are the same.
   */
  lemma AsWrittenRecoveryCount(t: string, e: char)
    requires |t| >= 2
    ensures AsWrittenRecovery(Ends(AdjacentPairs(t), e), e, t[0], t[|t| - 1]) ==
      Occ(t, e) + (if e == t[0] && e == t[|t| - 1] then 1 else 0)
  {
    EndsCount(t, e);
  }

  /** "ABA": the pairs AB and BA give A twice and B twice; as written A counts 3 though it occurs twice. */
  lemma FirstEqualsLastOvercounted()
    ensures AsWrittenRecovery(Ends(AdjacentPairs("ABA"), 'A'), 'A', 'A', 'A') == 3
    ensures AsWrittenRecovery(Ends(AdjacentPairs("ABA"), 'B'), 'B', 'A', 'A') == 1
    ensures Occ("ABA", 'A') == 2 && Occ("ABA", 'B') == 1
  {
    AsWrittenRecoveryCount("ABA", 'A');
    AsWrittenRecoveryCount("ABA", 'B');
    assert "ABA" == ['A'] + ['B'] + ['A'];
  }

  // ---------------------------------------------------------------------------
  // Rules.
  // ---------------------------------------------------------------------------

  /** No two rules share a pair: `Dictionary.Add` throws on a repeated key. */
  predicate DistinctKeys(rules: seq<(string, char)>)
  {
    forall i, j :: 0 <= i < j < |rules| ==> rules[i].0 != rules[j].0
  }

  /** The rule dictionary built by adding the rules in order. */
  function RuleMap(rules: seq<(string, char)>): map<string, char>
  {
    if |rules| == 0 then map[]
    else RuleMap(rules[..|rules| - 1])[rules[|rules| - 1].0 := rules[|rules| - 1].1]
  }

  /** A pair has a rule exactly when some rule names it. */
  lemma {:induction false} RuleMapKeys(rules: seq<(string, char)>, k: string)
    ensures k in RuleMap(rules) <==> exists j :: 0 <= j < |rules| && rules[j].0 == k
  {
    if |rules| > 0 {
      var init := rules[..|rules| - 1];
      RuleMapKeys(init, k);
      if k in RuleMap(init) {
        var j :| 0 <= j < |init| && init[j].0 == k;
        assert rules[j].0 == k;
      }
      if exists j :: 0 <= j < |rules| && rules[j].0 == k {
        var j :| 0 <= j < |rules| && rules[j].0 == k;
        if j < |init| {
          assert init[j].0 == k;
        }
      }
    }
  }

  /** The spread of a polymer: the count of its most common element minus that of its least common. */
  ghost predicate Spread(t: string, d: int)
  {
    exists a, b :: a in t && b in t && d == Occ(t, a) - Occ(t, b) &&
      forall e :: e in t ==> Occ(t, b) <= Occ(t, e) <= Occ(t, a)
  }

  // ---------------------------------------------------------------------------
  // The solver.
  // ---------------------------------------------------------------------------

  /** The pair counts of a template (Day14.cs:82-86): how often each adjacent pair occurs. */
  method CountPairs(template: string) returns (counts: map<string, int>)
    ensures Tallies(counts, multiset(AdjacentPairs(template)))
  {
    counts := map[];
    var i := 0;
    while i < |template| - 1
      invariant 0 <= i <= if |template| < 2 then 0 else |template| - 1
      invariant Tallies(counts, multiset(AdjacentPairs(template)[..i]))
    {
      var key := template[i..i + 2];
      assert key == [template[i], template[i + 1]];
      assert AdjacentPairs(template)[..i + 1] == AdjacentPairs(template)[..i] + [key];
      assert Copies(key, 1) == multiset{key};
      TallyAdd(counts, multiset(AdjacentPairs(template)[..i]), key, 1);
      counts := Bump(counts, key, 1);
      i := i + 1;
    }
    assert AdjacentPairs(template)[..i] == AdjacentPairs(template);
  }

  /**
   * The rule dictionary (Day14.cs:89-93): the rules added in order. `Dictionary.Add` throws
   * `ArgumentException` on the first pair already present, leaving the rules before it added.
   */
  method AddRules(rules: seq<(string, char)>) returns (added: map<string, char>, r: Result<()>)
    ensures r.Ok? <==> DistinctKeys(rules)
    ensures r.Ok? ==> added == RuleMap(rules)
    ensures r.Fail? ==> (r.error == "ArgumentException" &&
      exists j :: 0 <= j < |rules| && added == RuleMap(rules[..j]) && rules[j].0 in added)
  {
    added := map[];
    for j := 0 to |rules|
      invariant added == RuleMap(rules[..j]) && DistinctKeys(rules[..j])
    {
      assert rules[..j + 1][..j] == rules[..j];
      RuleMapKeys(rules[..j], rules[j].0);
      if rules[j].0 in added {
        assert !DistinctKeys(rules) by {
          var i :| 0 <= i < j && rules[..j][i].0 == rules[j].0;
          assert rules[i].0 == rules[j].0;
        }
        return added, Fail("ArgumentException");
      }
      added := added[rules[j].0 := rules[j].1];
    }
    assert rules[..|rules|] == rules;
    r := Ok(());
  }

  /** `done` lists each pair of `m` outside `rest` as often as `m` counts it, and nothing else. */
  ghost predicate Processed(done: seq<string>, m: map<string, int>, rest: set<string>)
  {
    forall p :: multiset(done)[p] == if p in m && p !in rest then m[p] else 0
  }

  /** Taking the pair `key` out of `rest` lists it as often as it is counted. */
  lemma ProcessStep(done: seq<string>, m: map<string, int>, rest: set<string>, key: string, t: string)
    requires Processed(done, m, rest) && Tallies(m, multiset(AdjacentPairs(t))) && key in rest && rest <= m.Keys
    ensures |key| == 2 && m[key] > 0
    ensures Processed(done + Run(key, m[key]), m, rest - {key})
  {
    PairsOfTemplate(t);
    assert Count(m, key) == multiset(AdjacentPairs(t))[key];
    RunCopies(key, m[key]);
  }

  /** Once `rest` is empty, `done` lists the pairs of `t`. */
  lemma ProcessedAll(done: seq<string>, m: map<string, int>, t: string)
    requires Processed(done, m, {}) && Tallies(m, multiset(AdjacentPairs(t)))
    ensures multiset(done) == multiset(AdjacentPairs(t))
  {
    forall p ensures multiset(done)[p] == multiset(AdjacentPairs(t))[p] {
      assert Count(m, p) == multiset(AdjacentPairs(t))[p];
    }
  }

  /** The pairs of the polymer one step later, counted from the pairs before it. */
  lemma NextPairsCounted(done: seq<string>, t: string, rules: map<string, char>, m: map<string, int>)
    requires multiset(done) == multiset(AdjacentPairs(t))
    requires Tallies(m, multiset(Concat(done, Expansion(rules))))
    ensures Tallies(m, multiset(AdjacentPairs(Insert(t, rules))))
  {
    ConcatPerm(done, AdjacentPairs(t), Expansion(rules));
    PairsOfInsert(t, rules);
  }

  /**
   * One step on the pair counts (Day14.cs:29-47): each pair's count goes to each of its two
   * children when it has a rule, to the pair itself otherwise. The counts that come out are
   * those of the polymer one step later.
   */
  method NextPairCounts(pairCount: map<string, int>, rules: map<string, char>, ghost t: string) returns (next: map<string, int>)
    requires Tallies(pairCount, multiset(AdjacentPairs(t)))
    ensures Tallies(next, multiset(AdjacentPairs(Insert(t, rules))))
  {
    PairsOfTemplate(t);
    next := map[];
    var rest := pairCount.Keys;
    ghost var done: seq<string> := [];
    while rest != {}
      invariant rest <= pairCount.Keys
      invariant Processed(done, pairCount, rest)
      invariant Tallies(next, multiset(Concat(done, Expansion(rules))))
      decreases |rest|
    {
      var key :| key in rest;
      var value := pairCount[key];
      ProcessStep(done, pairCount, rest, key, t);
      TallyChildren(next, done, key, value, rules);
      if key in rules {
        var c := rules[key];
        var newPair1 := [key[0], c];
        var newPair2 := [c, key[1]];
        next := Bump(next, newPair1, value);
        next := Bump(next, newPair2, value);
      } else {
        next := Bump(next, key, value);
      }
      done := done + Run(key, value);
      rest := rest - {key};
    }
    ProcessedAll(done, pairCount, t);
    NextPairsCounted(done, t, rules, next);
  }

  /**
   * The pair counts `counts` stand for the polymer `t` grown from `template`: they count its
   * adjacent pairs, and it has the template's first and last elements and is empty or a
   * single element exactly when the template is.
   */
  ghost predicate Represents(template: string, counts: map<string, int>, t: string)
  {
    Tallies(counts, multiset(AdjacentPairs(t))) &&
    (|template| == 0 <==> |t| == 0) && (|template| == 1 <==> |t| == 1) &&
    (|t| > 0 ==> t[0] == template[0] && t[|t| - 1] == template[|template| - 1])
  }

  /** A step keeps the polymer's ends and its being empty or a single element. */
  lemma StepRepresents(template: string, counts: map<string, int>, t: string, rules: map<string, char>, next: map<string, int>)
    requires Represents(template, counts, t)
    requires Tallies(next, multiset(AdjacentPairs(Insert(t, rules))))
    ensures Represents(template, next, Insert(t, rules))
  {
    if |t| < 2 {
      assert Insert(t, rules) == t;
    }
  }

  /**
   * The element counts as the sum of the pair ends (Day14.cs:51-58): each pair's count
   * goes to each of its two elements.
   */
  method CountElements(pairCount: map<string, int>, ghost t: string) returns (elements: map<char, int>)
    requires Tallies(pairCount, multiset(AdjacentPairs(t)))
    ensures forall e :: Count(elements, e) == Ends(AdjacentPairs(t), e)
    ensures forall e :: e in elements ==> elements[e] > 0
  {
    PairsOfTemplate(t);
    elements := map[];
    var rest := pairCount.Keys;
    ghost var done: seq<string> := [];
    while rest != {}
      invariant rest <= pairCount.Keys
      invariant Processed(done, pairCount, rest)
      invariant Tallies(elements, multiset(Concat(done, PairElements)))
      decreases |rest|
    {
      var key :| key in rest;
      var value := pairCount[key];
      ProcessStep(done, pairCount, rest, key, t);
      TallyElements(elements, done, key, value);
      elements := Bump(elements, key[0], value);
      elements := Bump(elements, key[1], value);
      done := done + Run(key, value);
      rest := rest - {key};
    }
    ProcessedAll(done, pairCount, t);
    ConcatPerm(done, AdjacentPairs(t), PairElements);
    forall e ensures Count(elements, e) == Ends(AdjacentPairs(t), e) {
      assert Count(elements, e) == multiset(Concat(done, PairElements))[e];
    }
  }

  /**
   * The element counts recovered from the pair ends (Day14.cs:60-68): the first and last
   * elements of the polymer get one more each, then every count is halved. Each element of
   * the polymer then has its number of occurrences, and no other element has a count.
   */
  method RecoverCounts(ends: map<char, int>, first: char, last: char, ghost t: string) returns (counts: map<char, int>)
    requires |t| >= 2 && first == t[0] && last == t[|t| - 1]
    requires forall e :: Count(ends, e) == Ends(AdjacentPairs(t), e)
    requires forall e :: e in ends ==> ends[e] > 0
    ensures forall e :: e in counts <==> e in t
    ensures forall e :: e in counts ==> counts[e] == Occ(t, e)
  {
    var doubled := Bump(Bump(ends, first, 1), last, 1);
    counts := HalveCounts(doubled);
    forall e ensures (e in counts <==> e in t) && (e in counts ==> counts[e] == Occ(t, e)) {
      EndsCount(t, e);
      RecoveryExact(t, e);
      assert Count(ends, e) == Ends(AdjacentPairs(t), e);
    }
  }

  /** C#'s `x / 2` on integers, which rounds toward zero. */
  function Half(x: int): (r: int)
    ensures x >= 0 ==> 2 * r <= x < 2 * r + 2
    ensures x < 0 ==> 2 * r - 2 < x <= 2 * r
  {
    if x >= 0 then x / 2 else -((-x) / 2)
  }

  /** Every count halved (Day14.cs:61-64). */
  method HalveCounts(m: map<char, int>) returns (h: map<char, int>)
    ensures h.Keys == m.Keys
    ensures forall e :: e in h ==> h[e] == Half(m[e])
  {
    h := m;
    var rest := m.Keys;
    while rest != {}
      invariant rest <= m.Keys && h.Keys == m.Keys
      invariant forall e :: e in h ==> h[e] == if e in rest then m[e] else Half(m[e])
      decreases |rest|
    {
      var key :| key in rest;
      h := h[key := Half(h[key])];
      rest := rest - {key};
    }
  }

  /** The first element has a pair end exactly when the polymer has a pair. */
  lemma FirstHasEnds(t: string, ends: map<char, int>)
    requires |t| > 0
    requires forall e :: Count(ends, e) == Ends(AdjacentPairs(t), e)
    requires forall e :: e in ends ==> ends[e] > 0
    ensures t[0] in ends <==> |t| >= 2
  {
    assert Count(ends, t[0]) == Ends(AdjacentPairs(t), t[0]);
    if |t| >= 2 {
      EndsCount(t, t[0]);
      assert Occ(t, t[0]) >= 1;
    }
  }

  /** The largest and smallest counts of the elements of `t` differ by its spread. */
  lemma SpreadOf(t: string, counts: map<char, int>, most: int, least: int)
    requires forall e :: e in counts <==> e in t
    requires forall e :: e in counts ==> counts[e] == Occ(t, e)
    requires exists a :: a in counts && counts[a] == most
    requires exists b :: b in counts && counts[b] == least
    requires forall e :: e in counts ==> least <= counts[e] <= most
    ensures Spread(t, most - least) && most - least >= 0
  {
    var a :| a in counts && counts[a] == most;
    var b :| b in counts && counts[b] == least;
    assert a in t && b in t;
    assert forall e :: e in t ==> Occ(t, b) <= Occ(t, e) <= Occ(t, a);
  }

  /**
   * The answer from the pair counts (Day14.cs:50-71): the spread of the polymer they stand
   * for. A template of one element has no pairs, so incrementing its first element's
   * count throws `KeyNotFoundException`.
   */
  method PolymerSpread(template: string, pairCount: map<string, int>, ghost t: string) returns (r: Result<int>)
    requires Represents(template, pairCount, t) && |template| > 0
    ensures |template| == 1 ==> r == Fail("KeyNotFoundException")
    ensures |template| >= 2 ==> r.Ok? && Spread(t, r.value) && r.value >= 0
  {
    var ends := CountElements(pairCount, t);
    var first, last := template[0], template[|template| - 1];
    FirstHasEnds(t, ends);
    if first !in ends {
      return Fail("KeyNotFoundException");
    }
    var elements := RecoverCounts(ends, first, last, t);
    assert first in elements;
    var most, least := MaxAndMin(elements);
    SpreadOf(t, elements, most, least);
    r := Ok(most - least);
  }

  class Day14 {
    var polymerTemplate: string
    var pairCount: map<string, int>
    var insertionRules: map<string, char>
    /** The polymer the pair counts stand for; the solver never builds it. */
    ghost var polymer: string

    ghost predicate Valid()
      reads this
    {
      Represents(polymerTemplate, pairCount, polymer)
    }

    constructor()
      ensures Valid() && polymerTemplate == "" && pairCount == map[] && insertionRules == map[]
    {
      polymerTemplate := "";
      pairCount := map[];
      insertionRules := map[];
      polymer := "";
    }

    /**
     * Reads the template and counts its adjacent pairs, then adds the rules in order
     * (Day14.cs:74-94); a repeated pair throws `ArgumentException`.
     */
    method ExtractData(template: string, rules: seq<(string, char)>) returns (r: Result<()>)
      modifies this
      ensures Valid() && polymerTemplate == template && polymer == template
      ensures r.Ok? <==> DistinctKeys(rules)
      ensures r.Ok? ==> insertionRules == RuleMap(rules)
      ensures r.Fail? ==> r.error == "ArgumentException"
    {
      var counts := CountPairs(template);
      var added;
      added, r := AddRules(rules);
      polymerTemplate, pairCount, insertionRules, polymer := template, counts, added, template;
    }

    /** One step on the pair counts: the counts become those of the polymer one step later. */
    method PerformCycle()
      requires Valid()
      modifies this
      ensures Valid() && polymer == Insert(old(polymer), insertionRules)
      ensures polymerTemplate == old(polymerTemplate) && insertionRules == old(insertionRules)
    {
      var next := NextPairCounts(pairCount, insertionRules, polymer);
      StepRepresents(polymerTemplate, pairCount, polymer, insertionRules, next);
      pairCount, polymer := next, Insert(polymer, insertionRules);
    }

    /**
     * Extracts the data, performs the cycles and answers the spread of the polymer: the
     * count of its most common element minus that of its least common. A template of one
     * element throws `KeyNotFoundException` when its count is incremented, an empty one
     * `IndexOutOfRangeException`.
     */
    method ResultAfterPolymerizationCycles(template: string, rules: seq<(string, char)>, nbrOfCycleToPerform: nat)
      returns (r: Result<int>)
      modifies this
      ensures !DistinctKeys(rules) ==> r == Fail("ArgumentException")
      ensures DistinctKeys(rules) && |template| == 0 ==> r == Fail("IndexOutOfRangeException")
      ensures DistinctKeys(rules) && |template| == 1 ==> r == Fail("KeyNotFoundException")
      ensures DistinctKeys(rules) && |template| >= 2 ==>
        r.Ok? && Spread(Grow(template, RuleMap(rules), nbrOfCycleToPerform), r.value) && r.value >= 0
    {
      var extracted := ExtractData(template, rules);
      if extracted.Fail? {
        return Fail(extracted.error);
      }
      for cycle := 0 to nbrOfCycleToPerform
        invariant Valid() && polymerTemplate == template && insertionRules == RuleMap(rules)
        invariant polymer == Grow(template, RuleMap(rules), cycle)
      {
        PerformCycle();
      }
      if |template| == 0 {
        return Fail("IndexOutOfRangeException");
      }
      r := PolymerSpread(template, pairCount, polymer);
    }
  }

  /** `Values.Max()` and `Values.Min()` of a non-empty dictionary. */
  method MaxAndMin(m: map<char, int>) returns (most: int, least: int)
    requires |m| > 0
    ensures exists a :: a in m && m[a] == most
    ensures exists b :: b in m && m[b] == least
    ensures forall e :: e in m ==> least <= m[e] <= most
  {
    var k :| k in m;
    most, least := m[k], m[k];
    var rest := m.Keys - {k};
    while rest != {}
      invariant rest <= m.Keys && k !in rest
      invariant exists a :: a in m && m[a] == most
      invariant exists b :: b in m && m[b] == least
      invariant forall e :: e in m && e !in rest ==> least <= m[e] <= most
      decreases |rest|
    {
      var key :| key in rest;
      if m[key] > most {
        most := m[key];
      }
      if m[key] < least {
        least := m[key];
      }
      rest := rest - {key};
    }
  }
}

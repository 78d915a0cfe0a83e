/**
 * ChineseRemainderTheorem: the modular inverse by the extended Euclidean algorithm, and
 * the smallest solution of a system of congruences. Both are loops over local variables;
 * the number theory they rely on (Bézout's identity, products of coprime numbers) is
 * proved alongside.
 */
module ChineseRemainderTheorem {
  import opened Wrappers
  import CSharpInt
  import SmallTools

  function Abs(v: int): nat { if v < 0 then -v else v }

  // ---------------------------------------------------------------------------
  // Number theory.
  // ---------------------------------------------------------------------------

  lemma MulSwap(x: int, y: int, z: int)
    ensures (x * y) * z == (x * z) * y
  {
  }

  lemma DivStep(n: int, m: int)
    requires n >= 0 && m > 0
    ensures n == (n / m) * m + n % m && n / m >= 0 && 0 <= n % m < m
  {
  }

  lemma ExactMultiple(n: int, m: int, k: int)
    requires m > 0 && n == k * m
    ensures n % m == 0
  {
    CSharpInt.DivModUnique(n, m, k, 0);
  }

  lemma ModSame(x: int, y: int, m: int)
    requires m > 0 && x == y && y % m == 0
    ensures x % m == 0
  {
  }

  lemma SubMultiple(d: int, p: int, z: int, k: int)
    requires d > 0 && p % d == 0 && z % d == 0
    ensures (z - k * p) % d == 0
  {
    SmallTools.ModLinear(d, p, z, -k);
    assert (-k) * p == -(k * p);
  }

  lemma ExactQuotient(n: int, a: int)
    requires a > 0 && n % a == 0
    ensures n == (n / a) * a
  {
  }

  /** Bézout's identity for Euclid's GCD: it is an integer combination of its inputs. */
  lemma {:induction false} Bezout(a: int, b: int) returns (x: int, y: int)
    requires a >= 0 && b >= 0
    ensures a * x + b * y == SmallTools.Gcd(a, b)
    decreases b
  {
    if b == 0 {
      x, y := 1, 0;
    } else {
      CSharpInt.QuotRem(a, b);
      var q, r := a / b, a % b;
      DivStep(a, b);
      var x', y' := Bezout(b, r);
      x, y := y', x' - q * y';
      BezoutIdentity(a, b, q, r, x', y');
    }
  }

  /** From b x' + r y' and a = q b + r: a y' + b (x' - q y') is the same number. */
  lemma BezoutIdentity(a: int, b: int, q: int, r: int, x': int, y': int)
    requires a == q * b + r
    ensures a * y' + b * (x' - q * y') == b * x' + r * y'
  {
    assert r * y' == a * y' - (q * b) * y';
    assert (q * b) * y' == b * (q * y');
  }

  /** (a - b) is a multiple of a positive m exactly when a and b leave the same remainder. */
  lemma Congruent(a: int, b: int, m: int)
    requires m > 0
    ensures (a - b) % m == 0 <==> a % m == b % m
  {
    var qa, qb := a / m, b / m;
    assert a - b == (qa - qb) * m + (a % m - b % m);
    if a % m == b % m {
      CSharpInt.DivModUnique(a - b, m, qa - qb, 0);
    }
    if (a - b) % m == 0 {
      var k := (a - b) / m;
      assert a == (qb + k) * m + b % m;
      CSharpInt.DivModUnique(a, m, qb + k, b % m);
    }
  }

  /** The GCD of 1 with anything non-negative is 1. */
  lemma GcdOfOne(m: int)
    requires m >= 0
    ensures SmallTools.Gcd(1, m) == 1 && SmallTools.Gcd(m, 1) == 1
  {
    SmallTools.GcdIsGreatest(1, m);
    SmallTools.GcdIsGreatest(m, 1);
  }

  /** A positive common divisor of a combination equal to 1 is 1. */
  lemma DividesOne(g: int, a: int, b: int, x: int, y: int)
    requires g > 0 && a % g == 0 && b % g == 0 && x * a + y * b == 1
    ensures g == 1
  {
    SmallTools.ModLinear(g, b, 0, y);
    SmallTools.ModLinear(g, a, y * b, x);
    if g > 1 {
      CSharpInt.DivModUnique(1, g, 0, 1);
    }
  }

  /** A product of two numbers coprime to m is coprime to m. */
  lemma CoprimeMul(a: int, b: int, m: int)
    requires a >= 0 && b >= 0 && m >= 1
    requires SmallTools.Gcd(a, m) == 1 && SmallTools.Gcd(b, m) == 1
    ensures SmallTools.Gcd(a * b, m) == 1
  {
    var x, y := Bezout(a, m);
    var u, v := Bezout(b, m);
    var ab := a * b;
    var c := BezoutProduct(a, b, m, x, y, u, v);
    SmallTools.GcdIsGreatest(ab, m);
    var g := SmallTools.Gcd(ab, m);
    DividesOne(g, ab, m, x * u, c);
  }

  /** Multiplying two combinations a x + m y = 1 and b u + m v = 1 gives one for a b and m. */
  lemma BezoutProduct(a: int, b: int, m: int, x: int, y: int, u: int, v: int) returns (c: int)
    requires a * x + m * y == 1 && b * u + m * v == 1
    ensures (x * u) * (a * b) + c * m == 1
  {
    var A, B := a * x, b * u;
    assert A * B == (x * u) * (a * b);
    assert A == 1 - m * y && B == 1 - m * v;
    c := y + v - y * m * v;
    assert A * B == 1 - m * v - (m * y) * B by {
      assert A * B == (1 - m * y) * B;
    }
    assert (m * y) * B == m * y - (y * m * v) * m by {
      assert (m * y) * (1 - m * v) == m * y - (m * y) * (m * v);
      assert (m * y) * (m * v) == (y * m * v) * m;
    }
  }

  /** A multiple of two coprime positive numbers is a multiple of their product. */
  lemma CoprimeDivides(a: int, b: int, n: int)
    requires a >= 1 && b >= 1 && SmallTools.Gcd(a, b) == 1
    requires n % a == 0 && n % b == 0
    ensures n % (a * b) == 0
  {
    var x, y := Bezout(a, b);
    var ka, kb := n / a, n / b;
    ExactQuotient(n, a);
    ExactQuotient(n, b);
    var k := CombinationMultiple(a, b, n, x, y, ka, kb);
    CSharpInt.MulAtLeast(a, b);
    ExactMultiple(n, a * b, k);
  }

  /** n = n (a x + b y) = (kb b) a x + (ka a) b y is a multiple of a b. */
  lemma CombinationMultiple(a: int, b: int, n: int, x: int, y: int, ka: int, kb: int) returns (k: int)
    requires a * x + b * y == 1 && n == ka * a && n == kb * b
    ensures n == k * (a * b)
  {
    k := kb * x + ka * y;
    assert n == n * (a * x) + n * (b * y) by {
      assert n * (a * x + b * y) == n;
    }
    assert n * (a * x) == (kb * x) * (a * b) by {
      assert n * (a * x) == (kb * b) * (a * x);
    }
    assert n * (b * y) == (ka * y) * (a * b) by {
      assert n * (b * y) == (ka * a) * (b * y);
    }
  }

  // ---------------------------------------------------------------------------
  // Products of moduli.
  // ---------------------------------------------------------------------------

  predicate AllPositive(s: seq<int>)
  {
    forall k :: 0 <= k < |s| ==> s[k] > 0
  }

  /** Any two different moduli are coprime. */
  predicate PairwiseCoprime(s: seq<int>)
  {
    forall j, k :: 0 <= j < |s| && 0 <= k < |s| && j != k ==> SmallTools.Gcd(s[j], s[k]) == 1
  }

  /** The product of every modulus but the i-th. */
  function ProductExcept(s: seq<int>, i: nat): int
    requires i < |s|
  {
    SmallTools.Product(s[..i] + s[i + 1..])
  }

  lemma {:induction false} ProductConcat(a: seq<int>, b: seq<int>)
    ensures SmallTools.Product(a + b) == SmallTools.Product(a) * SmallTools.Product(b)
    decreases |b|
  {
    if |b| == 0 {
      assert a + b == a;
    } else {
      var b' := b[..|b| - 1];
      assert (a + b)[..|a + b| - 1] == a + b';
      assert (a + b)[|a + b| - 1] == b[|b| - 1];
      ProductConcat(a, b');
      var x, y, z := SmallTools.Product(a), SmallTools.Product(b'), b[|b| - 1];
      assert (x * y) * z == x * (y * z);
    }
  }

  /** The product is the i-th modulus times the product of the others. */
  lemma ProductSplit(s: seq<int>, i: nat)
    requires i < |s|
    ensures SmallTools.Product(s) == ProductExcept(s, i) * s[i]
  {
    var front, back := s[..i], s[i + 1..];
    assert s == (front + [s[i]]) + back;
    ProductConcat(front + [s[i]], back);
    SmallTools.ProductSnoc(front, s[i]);
    ProductConcat(front, back);
    MulSwap(SmallTools.Product(front), s[i], SmallTools.Product(back));
  }

  /** Each positive member divides the product. */
  lemma ProductMultiple(s: seq<int>, k: nat)
    requires k < |s| && s[k] > 0
    ensures SmallTools.Product(s) % s[k] == 0
  {
    ProductSplit(s, k);
    CSharpInt.DivModUnique(SmallTools.Product(s), s[k], ProductExcept(s, k), 0);
  }

  lemma {:induction false} ProductPositive(s: seq<int>)
    requires AllPositive(s)
    ensures SmallTools.Product(s) >= 1
  {
    if |s| > 0 {
      ProductPositive(s[..|s| - 1]);
      CSharpInt.MulAtLeast(SmallTools.Product(s[..|s| - 1]), s[|s| - 1]);
    }
  }

  /** A product of numbers each coprime to m is coprime to m. */
  lemma {:induction false} CoprimeProduct(s: seq<int>, m: int)
    requires m >= 1 && AllPositive(s)
    requires forall k :: 0 <= k < |s| ==> SmallTools.Gcd(s[k], m) == 1
    ensures SmallTools.Gcd(SmallTools.Product(s), m) == 1
  {
    if |s| == 0 {
      GcdOfOne(m);
    } else {
      var front := s[..|s| - 1];
      CoprimeProduct(front, m);
      ProductPositive(front);
      CoprimeMul(SmallTools.Product(front), s[|s| - 1], m);
    }
  }

  /** The partial product of the i-th modulus is coprime to it and a multiple of every other modulus. */
  lemma PartialProduct(s: seq<int>, i: nat)
    requires i < |s| && AllPositive(s) && PairwiseCoprime(s)
    ensures ProductExcept(s, i) >= 1
    ensures SmallTools.Gcd(ProductExcept(s, i), s[i]) == 1
    ensures forall j :: 0 <= j < |s| && j != i ==> ProductExcept(s, i) % s[j] == 0
  {
    var others := s[..i] + s[i + 1..];
    assert forall k :: 0 <= k < |others| ==> others[k] == if k < i then s[k] else s[k + 1];
    ProductPositive(others);
    CoprimeProduct(others, s[i]);
    forall j | 0 <= j < |s| && j != i ensures ProductExcept(s, i) % s[j] == 0 {
      ProductMultiple(others, if j < i then j else j - 1);
    }
  }

  // ---------------------------------------------------------------------------
  // The modular inverse.
  // ---------------------------------------------------------------------------

  /**
   * The state of the extended Euclidean loop started from (a0, m0): n and m are consecutive
   * remainders with the GCD of the inputs, n ≡ cur·a0 and m ≡ prev·a0 (mod m0), the two
   * coefficients have opposite signs, and their sizes are bounded by m0.
   */
  ghost predicate EuclidState(a0: int, m0: int, n: int, m: int, cur: int, prev: int)
    requires m0 >= 2
  {
    n >= 1 && m >= 0 &&
    SmallTools.Gcd(n, m) == SmallTools.Gcd(a0, m0) &&
    (n - cur * a0) % m0 == 0 && (m - prev * a0) % m0 == 0 &&
    ((cur >= 0 && prev <= 0) || (cur <= 0 && prev >= 0)) &&
    Abs(prev) * n + Abs(cur) * m == m0 &&
    (prev == 0 || m <= n) &&
    ((prev == 0 && cur == 1) || Abs(cur) * n <= m0)
  }

  /** One turn of the loop keeps the state. */
  lemma EuclidStep(a0: int, m0: int, n: int, m: int, cur: int, prev: int)
    requires m0 >= 2 && EuclidState(a0, m0, n, m, cur, prev) && n > 1 && m > 0
    ensures CSharpInt.Quot(n, m) == n / m && CSharpInt.Rem(n, m) == n % m
    ensures EuclidState(a0, m0, m, n % m, prev, cur - (n / m) * prev)
  {
    CSharpInt.QuotRem(n, m);
    var q, r := n / m, n % m;
    DivStep(n, m);
    SizesStep(m0, n, m, q, r, cur, prev);
    CongruenceStep(a0, m0, n, m, q, r, cur, prev);
    assert SmallTools.Gcd(m, r) == SmallTools.Gcd(n, m);
  }

  /** The bounds on the coefficients survive a division step n = q m + r. */
  lemma SizesStep(m0: int, n: int, m: int, q: int, r: int, cur: int, prev: int)
    requires n == q * m + r && q >= 0 && 0 <= r < m
    requires (cur >= 0 && prev <= 0) || (cur <= 0 && prev >= 0)
    requires Abs(prev) * n + Abs(cur) * m == m0
    requires prev == 0 || m <= n
    ensures var prev' := cur - q * prev;
      ((prev >= 0 && prev' <= 0) || (prev <= 0 && prev' >= 0)) &&
      Abs(prev') * m + Abs(prev) * r == m0 &&
      Abs(prev) * m <= m0
  {
    CoefficientStep(cur, prev, q);
    SizesIdentity(Abs(prev), Abs(cur), n, m, q, r);
    if prev != 0 {
      MulLe(Abs(prev), m, n);
    }
  }

  /** prev' = cur - q·prev has the sign opposite to prev and size |cur| + q |prev|. */
  lemma CoefficientStep(cur: int, prev: int, q: int)
    requires q >= 0 && ((cur >= 0 && prev <= 0) || (cur <= 0 && prev >= 0))
    ensures var prev' := cur - q * prev;
      ((prev >= 0 && prev' <= 0) || (prev <= 0 && prev' >= 0)) &&
      Abs(prev') == Abs(cur) + q * Abs(prev)
  {
    if cur >= 0 && prev <= 0 {
      assert q * prev <= 0;
      assert -(q * prev) == q * Abs(prev);
    } else {
      assert q * prev >= 0;
      assert q * prev == q * Abs(prev);
    }
  }

  /** P n + C m = (C + q P) m + P r when n = q m + r. */
  lemma SizesIdentity(P: int, C: int, n: int, m: int, q: int, r: int)
    requires n == q * m + r
    ensures P * n + C * m == (C + q * P) * m + P * r
  {
    assert P * n == (q * P) * m + P * r by {
      assert P * n == P * (q * m) + P * r;
    }
    assert (C + q * P) * m == C * m + (q * P) * m;
  }

  lemma MulLe(p: int, a: int, b: int)
    requires p >= 0 && a <= b
    ensures p * a <= p * b
  {
  }

  /** The congruence r ≡ prev'·a0 (mod m0) follows from the two before the step. */
  lemma CongruenceStep(a0: int, m0: int, n: int, m: int, q: int, r: int, cur: int, prev: int)
    requires m0 > 0 && n == q * m + r
    requires (n - cur * a0) % m0 == 0 && (m - prev * a0) % m0 == 0
    ensures (r - (cur - q * prev) * a0) % m0 == 0
  {
    var X, Y := m - prev * a0, n - cur * a0;
    SmallTools.ModLinear(m0, X, Y, -q);
    StepIdentity(a0, n, m, q, r, cur, prev);
    ModSame(r - (cur - q * prev) * a0, (-q) * X + Y, m0);
  }

  /** r - prev'·a0 = -q (m - prev·a0) + (n - cur·a0) when n = q m + r. */
  lemma StepIdentity(a0: int, n: int, m: int, q: int, r: int, cur: int, prev: int)
    requires n == q * m + r
    ensures r - (cur - q * prev) * a0 == (-q) * (m - prev * a0) + (n - cur * a0)
  {
    assert (cur - q * prev) * a0 == cur * a0 - q * (prev * a0);
    assert (-q) * (m - prev * a0) == -(q * m) + q * (prev * a0);
  }

  /** At the end of the loop the coefficient, shifted into [0, m0), is the inverse. */
  lemma InverseResult(a0: int, m0: int, cur: int)
    requires m0 >= 2 && Abs(cur) <= m0 && (1 - cur * a0) % m0 == 0
    ensures var r := if cur < 0 then cur + m0 else cur; 0 <= r < m0 && (a0 * r) % m0 == 1
  {
    var k := (1 - cur * a0) / m0;
    ExactQuotient(1 - cur * a0, m0);
    NegateMultiple(a0, cur, k, m0);
    CSharpInt.ModMultiple(1, -k, m0);
    CSharpInt.DivModUnique(1, m0, 0, 1);
    var r := if cur < 0 then cur + m0 else cur;
    if cur < 0 {
      assert a0 * r == a0 * cur + a0 * m0;
      CSharpInt.ModMultiple(a0 * cur, a0, m0);
    }
    if r == m0 {
      CSharpInt.ModMultiple(0, a0, m0);
    }
  }

  lemma NegateMultiple(a0: int, cur: int, k: int, m0: int)
    requires 1 - cur * a0 == k * m0
    ensures a0 * cur == 1 + (-k) * m0
  {
  }

  /**
   * `ComputeModularInverse(number, modulus)`: 0 for modulus 1. For number ≥ 1 and modulus ≥ 2
   * it succeeds exactly when the two are coprime, with the inverse in [0, modulus); otherwise
   * the source divides by zero, which is `None` here.
   */
  method ComputeModularInverse(number: int, modulus: int) returns (r: Option<int>)
    ensures modulus == 1 ==> r == Some(0)
    ensures number >= 1 && modulus >= 2 ==> (r.Some? <==> SmallTools.Gcd(number, modulus) == 1)
    ensures number >= 1 && modulus >= 2 && r.Some? ==> 0 <= r.value < modulus && (number * r.value) % modulus == 1
  {
    if modulus == 1 {
      return Some(0);
    }
    ghost var tracked := number >= 1 && modulus >= 2;
    var n, m := number, modulus;
    var previousCoefficient, currentCoefficient := 0, 1;
    while n > 1
      invariant tracked ==> EuclidState(number, modulus, n, m, currentCoefficient, previousCoefficient)
      decreases Abs(m)
    {
      if m == 0 {
        // The source divides by zero here: n is the GCD and exceeds 1.
        return None;
      }
      CSharpInt.QuotRem(n, m);
      if tracked {
        EuclidStep(number, modulus, n, m, currentCoefficient, previousCoefficient);
      }
      var quotient := CSharpInt.Quot(n, m);
      var temp := m;
      m := CSharpInt.Rem(n, m);
      n := temp;
      temp := previousCoefficient;
      previousCoefficient := currentCoefficient - quotient * previousCoefficient;
      currentCoefficient := temp;
    }
    if tracked {
      GcdOfOne(m);
      InverseResult(number, modulus, currentCoefficient);
    }
    return Some(if currentCoefficient < 0 then currentCoefficient + modulus else currentCoefficient);
  }

  // ---------------------------------------------------------------------------
  // The Chinese remainder theorem.
  // ---------------------------------------------------------------------------

  /** The congruences `moduli[j] | x - remainders[j]` for the first `i` moduli, and `moduli[j] | x` for the rest. */
  ghost predicate SolvesPrefix(moduli: seq<int>, remainders: seq<int>, x: int, i: nat)
    requires AllPositive(moduli) && |remainders| >= |moduli|
  {
    forall j :: 0 <= j < |moduli| ==> (x - (if j < i then remainders[j] else 0)) % moduli[j] == 0
  }

  /** Adding the i-th summand, ≡ remainders[i] modulo moduli[i] and ≡ 0 modulo the others, solves one more congruence. */
  lemma AddSummand(moduli: seq<int>, remainders: seq<int>, x: int, s: int, i: nat)
    requires AllPositive(moduli) && |remainders| >= |moduli| && i < |moduli|
    requires SolvesPrefix(moduli, remainders, x, i)
    requires (s - remainders[i]) % moduli[i] == 0
    requires forall j :: 0 <= j < |moduli| && j != i ==> s % moduli[j] == 0
    ensures SolvesPrefix(moduli, remainders, x + s, i + 1)
  {
    forall j | 0 <= j < |moduli| ensures (x + s - (if j < i + 1 then remainders[j] else 0)) % moduli[j] == 0 {
      var before := x - (if j < i then remainders[j] else 0);
      if j == i {
        SmallTools.ModLinear(moduli[j], before, s - remainders[i], 1);
      } else {
        SmallTools.ModLinear(moduli[j], before, s, 1);
      }
    }
  }

  /** The i-th summand remainders[i] · inverse · partial is ≡ remainders[i] modulo moduli[i]. */
  lemma SummandResidue(r: int, inv: int, partial: int, m: int)
    requires m >= 1 && (m == 1 || (partial * inv) % m == 1)
    ensures (r * inv * partial - r) % m == 0
  {
    if m == 1 {
      CSharpInt.DivModUnique(r * inv * partial - r, 1, r * inv * partial - r, 0);
    } else {
      var k := (partial * inv) / m;
      assert partial * inv == k * m + 1;
      assert r * inv * partial - r == (r * k) * m by {
        assert r * inv * partial == r * (partial * inv);
      }
      CSharpInt.DivModUnique(r * inv * partial - r, m, r * k, 0);
    }
  }

  /** Moduli, remainders and the summand loop under the theorem's hypotheses. */
  predicate Hypotheses(moduli: seq<int>, remainders: seq<int>)
  {
    AllPositive(moduli) && PairwiseCoprime(moduli) && |remainders| >= |moduli|
  }

  /**
   * `GetSmallestNumber(moduli, remainders)`: for pairwise-coprime positive moduli the result
   * satisfies every congruence x ≡ remainders[i] (mod moduli[i]); for non-negative
   * remainders it lies in [0, product of the moduli). A zero modulus (division by zero),
   * too few remainders (an index out of range) and a missing inverse (the inverse divides
   * by zero) are the source's exceptions, `None` here.
   */
  method GetSmallestNumber(moduli: seq<int>, remainders: seq<int>) returns (r: Option<int>)
    ensures Hypotheses(moduli, remainders) ==>
      (r.Some? && forall j :: 0 <= j < |moduli| ==> r.value % moduli[j] == remainders[j] % moduli[j])
    ensures Hypotheses(moduli, remainders) && (forall j :: 0 <= j < |moduli| ==> remainders[j] >= 0) ==>
      r.Some? && 0 <= r.value < SmallTools.Product(moduli)
  {
    ghost var good := Hypotheses(moduli, remainders);
    ghost var nonNegative := forall j :: 0 <= j < |moduli| && j < |remainders| ==> remainders[j] >= 0;
    var productOfModuli := 1;
    var result := 0;
    for i := 0 to |moduli|
      invariant productOfModuli == SmallTools.Product(moduli[..i])
    {
      assert moduli[..i + 1] == moduli[..i] + [moduli[i]];
      SmallTools.ProductSnoc(moduli[..i], moduli[i]);
      productOfModuli := productOfModuli * moduli[i];
    }
    assert moduli[..|moduli|] == moduli;
    if good {
      ProductPositive(moduli);
      SolvesNone(moduli, remainders);
    }
    for i := 0 to |moduli|
      invariant good ==> SolvesPrefix(moduli, remainders, result, i)
      invariant good && nonNegative ==> result >= 0
    {
      if moduli[i] == 0 || i >= |remainders| {
        return None;
      }
      var partialProduct := CSharpInt.Quot(productOfModuli, moduli[i]);
      if good {
        PartialQuotient(moduli, i);
      }
      var modularInverse := ComputeModularInverse(partialProduct, moduli[i]);
      if modularInverse.None? {
        return None;
      }
      var summand := remainders[i] * modularInverse.value * partialProduct;
      if good {
        SummandStep(moduli, remainders, result, i, partialProduct, modularInverse.value);
        if nonNegative {
          NonNegativeProduct(remainders[i], modularInverse.value, partialProduct);
        }
      }
      result := result + summand;
    }
    if productOfModuli == 0 {
      return None;
    }
    var x := CSharpInt.Rem(result, productOfModuli);
    if good {
      FinalReduction(moduli, remainders, result, x);
    }
    return Some(x);
  }

  /** Before the summand loop every congruence reads 0 ≡ 0. */
  lemma SolvesNone(moduli: seq<int>, remainders: seq<int>)
    requires Hypotheses(moduli, remainders)
    ensures SolvesPrefix(moduli, remainders, 0, 0)
  {
    forall j | 0 <= j < |moduli| ensures (0 - 0) % moduli[j] == 0 {
      CSharpInt.DivModUnique(0, moduli[j], 0, 0);
    }
  }

  /** The loop's partial product is the product of the other moduli, at least 1 and coprime to moduli[i]. */
  lemma PartialQuotient(moduli: seq<int>, i: nat)
    requires AllPositive(moduli) && PairwiseCoprime(moduli) && i < |moduli|
    ensures CSharpInt.Quot(SmallTools.Product(moduli), moduli[i]) == ProductExcept(moduli, i)
    ensures ProductExcept(moduli, i) >= 1
    ensures SmallTools.Gcd(ProductExcept(moduli, i), moduli[i]) == 1
  {
    PartialProduct(moduli, i);
    ProductSplit(moduli, i);
    ProductPositive(moduli);
    CSharpInt.QuotRem(SmallTools.Product(moduli), moduli[i]);
    CSharpInt.DivModUnique(SmallTools.Product(moduli), moduli[i], ProductExcept(moduli, i), 0);
  }

  /** Adding the i-th summand of the formula solves the i-th congruence as well. */
  lemma SummandStep(moduli: seq<int>, remainders: seq<int>, result: int, i: nat, partial: int, inv: int)
    requires Hypotheses(moduli, remainders) && i < |moduli|
    requires SolvesPrefix(moduli, remainders, result, i)
    requires partial == ProductExcept(moduli, i)
    requires moduli[i] == 1 || (partial * inv) % moduli[i] == 1
    ensures SolvesPrefix(moduli, remainders, result + remainders[i] * inv * partial, i + 1)
  {
    PartialProduct(moduli, i);
    var summand := remainders[i] * inv * partial;
    SummandResidue(remainders[i], inv, partial, moduli[i]);
    forall j | 0 <= j < |moduli| && j != i ensures summand % moduli[j] == 0 {
      SmallTools.ModLinear(moduli[j], partial, 0, remainders[i] * inv);
      ModSame(summand, (remainders[i] * inv) * partial + 0, moduli[j]);
    }
    AddSummand(moduli, remainders, result, summand, i);
  }

  lemma NonNegativeProduct(a: int, b: int, c: int)
    requires a >= 0 && b >= 0 && c >= 0
    ensures a * b * c >= 0
  {
  }

  /** Reducing a solution modulo the product keeps every congruence, and a non-negative one lands in [0, product). */
  lemma FinalReduction(moduli: seq<int>, remainders: seq<int>, result: int, x: int)
    requires Hypotheses(moduli, remainders) && SolvesPrefix(moduli, remainders, result, |moduli|)
    requires SmallTools.Product(moduli) != 0 && x == CSharpInt.Rem(result, SmallTools.Product(moduli))
    ensures forall j :: 0 <= j < |moduli| ==> x % moduli[j] == remainders[j] % moduli[j]
    ensures result >= 0 ==> 0 <= x < SmallTools.Product(moduli)
  {
    var p := SmallTools.Product(moduli);
    ProductPositive(moduli);
    CSharpInt.QuotRem(result, p);
    var k := CSharpInt.Quot(result, p);
    forall j | 0 <= j < |moduli| ensures x % moduli[j] == remainders[j] % moduli[j] {
      var m := moduli[j];
      ProductMultiple(moduli, j);
      // x - remainders[j] = (result - remainders[j]) - k p
      SubMultiple(m, p, result - remainders[j], k);
      ModSame(x - remainders[j], (result - remainders[j]) - k * p, m);
      Congruent(x, remainders[j], m);
    }
  }

  /**
   * The solution in [0, product) is unique: two numbers with the same remainders modulo
   * pairwise-coprime positive moduli differ by a multiple of the product, so within one
   * period they are equal.
   */
  lemma {:induction false} SolutionUnique(moduli: seq<int>, x: int, y: int)
    requires AllPositive(moduli) && PairwiseCoprime(moduli)
    requires forall j :: 0 <= j < |moduli| ==> x % moduli[j] == y % moduli[j]
    ensures SmallTools.Product(moduli) >= 1
    ensures (x - y) % SmallTools.Product(moduli) == 0
    ensures 0 <= x < SmallTools.Product(moduli) && 0 <= y < SmallTools.Product(moduli) ==> x == y
  {
    ProductPositive(moduli);
    var p := SmallTools.Product(moduli);
    if |moduli| == 0 {
      CSharpInt.DivModUnique(x - y, 1, x - y, 0);
    } else {
      var front := moduli[..|moduli| - 1];
      var last := moduli[|moduli| - 1];
      assert forall k :: 0 <= k < |front| ==> front[k] == moduli[k];
      SolutionUnique(front, x, y);
      ProductPositive(front);
      forall k | 0 <= k < |front| ensures SmallTools.Gcd(front[k], last) == 1 {
        assert front[k] == moduli[k];
      }
      CoprimeProduct(front, last);
      Congruent(x, y, last);
      CoprimeDivides(SmallTools.Product(front), last, x - y);
    }
    WithinPeriod(x, y, p);
  }

  /** Two numbers in [0, p) that differ by a multiple of p are equal. */
  lemma WithinPeriod(x: int, y: int, p: int)
    requires p >= 1 && (x - y) % p == 0
    ensures 0 <= x < p && 0 <= y < p ==> x == y
  {
    var k := (x - y) / p;
    ExactQuotient(x - y, p);
    if k > 0 {
      CSharpInt.MulAtLeast(k, p);
    } else if k < 0 {
      CSharpInt.MulAtLeast(-k, p);
    }
  }
}

/**
 * Day 3, Binary Diagnostic. The report is a list of binary numbers written as strings.
 * Part one builds the gamma rate from the most common bit of each position and the
 * epsilon rate from the least common one. Part two filters the list position by position,
 * keeping the numbers that carry the most common bit (oxygen generator rating) or the
 * least common one (CO2 scrubber rating), until one number is left.
 */
module BinaryDiagnostic {
  import opened Wrappers
  import opened CSharpInt
  import opened Bits

  // ---------------------------------------------------------------------------
  // Numbers as strings.
  // ---------------------------------------------------------------------------

  predicate IsBinary(s: string)
  {
    forall j :: 0 <= j < |s| ==> s[j] == '0' || s[j] == '1'
  }

  predicate AllBinary(nums: seq<string>)
  {
    forall x :: x in nums ==> IsBinary(x)
  }

  /** Every number has at least `k` characters, so position `k - 1` can be read in each. */
  predicate Wide(nums: seq<string>, k: nat)
  {
    forall x :: x in nums ==> k <= |x|
  }

  /** The value of a string of binary digits, most significant first. */
  function BinValue(s: string): nat
  {
    if |s| == 0 then 0 else 2 * BinValue(s[..|s| - 1]) + (if s[|s| - 1] == '1' then 1 else 0)
  }

  /** `s` with every '0' made '1' and every other character made '0'. */
  function Flip(s: string): (r: string)
    ensures |r| == |s|
    ensures forall j :: 0 <= j < |s| ==> (r[j] == '1' <==> s[j] == '0')
  {
    seq(|s|, j requires 0 <= j < |s| => if s[j] == '0' then '1' else '0')
  }

  /**
   * `Convert.ToInt32(s, 2)`: an empty string throws `ArgumentOutOfRangeException`, a
   * character other than a binary digit `FormatException`, a value of more than 32 bits
   * `OverflowException`; 32 bits are read in two's complement.
   */
  function ParseBinary(s: string): Result<int>
  {
    if |s| == 0 then Fail("ArgumentOutOfRangeException")
    else if !IsBinary(s) then Fail("FormatException")
    else if BinValue(s) >= Pow2(32) then Fail("OverflowException")
    else Ok(Wrap32(BinValue(s)))
  }

  /** `Convert.ToInt32(a, 2) * Convert.ToInt32(b, 2)` in unchecked 32-bit arithmetic. */
  function Product(a: Result<int>, b: Result<int>): Result<int>
  {
    if a.Fail? then a else if b.Fail? then b else Ok(Wrap32(a.value * b.value))
  }

  /** A string of n binary digits is below 2^n. */
  lemma {:induction false} BinValueBound(s: string)
    requires IsBinary(s)
    ensures BinValue(s) < Pow2(|s|)
  {
    if |s| > 0 {
      BinValueBound(s[..|s| - 1]);
    }
  }

  /** A number and its flipped digits add up to n ones: 2^n - 1. */
  lemma {:induction false} FlipSum(s: string)
    requires IsBinary(s)
    ensures BinValue(s) + BinValue(Flip(s)) == Pow2(|s|) - 1
  {
    if |s| > 0 {
      var init := s[..|s| - 1];
      assert Flip(s)[..|s| - 1] == Flip(init);
      FlipSum(init);
    }
  }

  lemma {:induction false} Pow2Add(a: nat, b: nat)
    ensures Pow2(a + b) == Pow2(a) * Pow2(b)
  {
    if a > 0 {
      Pow2Add(a - 1, b);
    }
  }

  /** The bounds `Convert.ToInt32` checks against: 2^31 and 2^32. */
  lemma Pow2Bounds()
    ensures Pow2(31) == 0x8000_0000 && Pow2(32) == 0x1_0000_0000
  {
    assert Pow2(2) == 4;
    Pow2Add(2, 2);
    Pow2Add(4, 4);
    Pow2Add(8, 8);
    Pow2Add(16, 16);
    assert Pow2(32) == 2 * Pow2(31);
  }

  /** Up to 31 binary digits parse to their value. */
  lemma ParseShort(s: string)
    requires IsBinary(s) && 0 < |s| <= 31
    ensures ParseBinary(s) == Ok(BinValue(s))
  {
    BinValueBound(s);
    if |s| < 31 {
      Pow2Grows(|s|, 31);
    }
    Pow2Bounds();
  }

  // ---------------------------------------------------------------------------
  // Counting bits (the `Count(x => x[i] == '1')` calls).
  // ---------------------------------------------------------------------------

  /** How many of the numbers have the character `b` at position `i`. */
  function CountBit(nums: seq<string>, i: nat, b: char): (r: nat)
    requires Wide(nums, i + 1)
    ensures r <= |nums|
  {
    if |nums| == 0 then 0
    else (if nums[0][i] == b then 1 else 0) + CountBit(nums[1..], i, b)
  }

  /** The numbers with `b` at position `i`, in their order (`Where`). */
  function Keep(nums: seq<string>, i: nat, b: char): (r: seq<string>)
    requires Wide(nums, i + 1)
    ensures |r| == CountBit(nums, i, b)
    ensures forall x {:trigger x in r} :: x in r <==> x in nums && x[i] == b
  {
    if |nums| == 0 then []
    else (if nums[0][i] == b then [nums[0]] else []) + Keep(nums[1..], i, b)
  }

  /** In binary numbers every position holds a '0' or a '1'. */
  lemma {:induction false} ZerosAndOnes(nums: seq<string>, i: nat)
    requires AllBinary(nums) && Wide(nums, i + 1)
    ensures CountBit(nums, i, '0') + CountBit(nums, i, '1') == |nums|
  {
    if |nums| > 0 {
      assert IsBinary(nums[0]);
      ZerosAndOnes(nums[1..], i);
    }
  }

  // ---------------------------------------------------------------------------
  // Part one (Day03.cs:9-21).
  // ---------------------------------------------------------------------------

  /** Gamma's digit at position `i`: '1' where ones outnumber zeros. */
  function GammaDigit(lines: seq<string>, i: nat): char
    requires Wide(lines, i + 1)
  {
    var ones := CountBit(lines, i, '1');
    if ones > |lines| - ones then '1' else '0'
  }

  /** Epsilon's digit at position `i`: '0' where ones outnumber zeros. */
  function EpsilonDigit(lines: seq<string>, i: nat): char
    requires Wide(lines, i + 1)
  {
    var ones := CountBit(lines, i, '1');
    if ones > |lines| - ones then '0' else '1'
  }

  /** The gamma rate's digits for the first `k` positions. */
  function Gamma(lines: seq<string>, k: nat): (g: string)
    requires Wide(lines, k)
    ensures |g| == k
  {
    if k == 0 then [] else Gamma(lines, k - 1) + [GammaDigit(lines, k - 1)]
  }

  /** The epsilon rate's digits for the first `k` positions. */
  function Epsilon(lines: seq<string>, k: nat): (e: string)
    requires Wide(lines, k)
    ensures |e| == k
  {
    if k == 0 then [] else Epsilon(lines, k - 1) + [EpsilonDigit(lines, k - 1)]
  }

  /** The answer to part one: the product of the two rates, or the exception thrown. */
  function PowerConsumption(lines: seq<string>): Result<int>
  {
    if |lines| == 0 then Fail("ArgumentOutOfRangeException")
    else if !Wide(lines, |lines[0]|) then Fail("IndexOutOfRangeException")
    else Product(ParseBinary(Gamma(lines, |lines[0]|)), ParseBinary(Epsilon(lines, |lines[0]|)))
  }

  /** Gamma holds, position by position, the bit more numbers carry; a tie gives '0'. */
  lemma {:induction false} GammaMostCommon(lines: seq<string>, k: nat, i: nat)
    requires Wide(lines, k) && i < k
    ensures Gamma(lines, k)[i] == '1' <==> CountBit(lines, i, '1') > |lines| - CountBit(lines, i, '1')
  {
    if i < k - 1 {
      GammaMostCommon(lines, k - 1, i);
    }
  }

  /** Epsilon is gamma with every digit flipped, and gamma is binary. */
  lemma {:induction false} EpsilonFlipsGamma(lines: seq<string>, k: nat)
    requires Wide(lines, k)
    ensures IsBinary(Gamma(lines, k)) && Epsilon(lines, k) == Flip(Gamma(lines, k))
  {
    if k > 0 {
      EpsilonFlipsGamma(lines, k - 1);
      var g, e := Gamma(lines, k), Epsilon(lines, k);
      assert g[..k - 1] == Gamma(lines, k - 1) && e[..k - 1] == Epsilon(lines, k - 1);
      forall j | 0 <= j < k
        ensures (g[j] == '0' || g[j] == '1') && e[j] == Flip(g)[j]
      {
        if j < k - 1 {
          assert g[j] == Gamma(lines, k - 1)[j] && e[j] == Epsilon(lines, k - 1)[j];
        }
      }
    }
  }

  /** Gamma and epsilon add up to k ones: 2^k - 1. */
  lemma RatesAddUp(lines: seq<string>, k: nat)
    requires Wide(lines, k)
    ensures BinValue(Gamma(lines, k)) + BinValue(Epsilon(lines, k)) == Pow2(k) - 1
  {
    EpsilonFlipsGamma(lines, k);
    FlipSum(Gamma(lines, k));
  }

  /** For a report of 1 to 31 columns the answer is gamma times its complement, wrapped to 32 bits. */
  lemma PowerOfShortReport(lines: seq<string>)
    requires |lines| > 0 && 0 < |lines[0]| <= 31 && Wide(lines, |lines[0]|)
    ensures PowerConsumption(lines)
      == Ok(Wrap32(BinValue(Gamma(lines, |lines[0]|)) * (Pow2(|lines[0]|) - 1 - BinValue(Gamma(lines, |lines[0]|)))))
  {
    var n := |lines[0]|;
    ParsedRates(lines, n);
    assert PowerConsumption(lines) == Product(Ok(BinValue(Gamma(lines, n))), Ok(BinValue(Epsilon(lines, n))));
  }

  lemma ParsedRates(lines: seq<string>, n: nat)
    requires 0 < n <= 31 && Wide(lines, n)
    ensures ParseBinary(Gamma(lines, n)) == Ok(BinValue(Gamma(lines, n)))
    ensures ParseBinary(Epsilon(lines, n)) == Ok(BinValue(Epsilon(lines, n)))
    ensures BinValue(Epsilon(lines, n)) == Pow2(n) - 1 - BinValue(Gamma(lines, n))
  {
    EpsilonFlipsGamma(lines, n);
    RatesAddUp(lines, n);
    ParseShort(Gamma(lines, n));
    ParseShort(Epsilon(lines, n));
  }

  /**
   * Part one: for each position of the first line, count the ones among all lines and
   * append the majority digit to gamma and the other to epsilon.
   */
  method GetSolution1(lines: seq<string>) returns (r: Result<int>)
    ensures r == PowerConsumption(lines)
  {
    if |lines| == 0 {
      return Fail("ArgumentOutOfRangeException");
    }
    var n := |lines[0]|;
    var gamma, epsilon := "", "";
    for i := 0 to n
      invariant Wide(lines, i) && gamma == Gamma(lines, i) && epsilon == Epsilon(lines, i)
    {
      if exists x :: x in lines && |x| <= i {
        return Fail("IndexOutOfRangeException");
      }
      var nbrOfOnes := CountBit(lines, i, '1');
      var nbrOfZeros := |lines| - nbrOfOnes;
      gamma := gamma + [if nbrOfOnes > nbrOfZeros then '1' else '0'];
      epsilon := epsilon + [if nbrOfOnes > nbrOfZeros then '0' else '1'];
      assert gamma == Gamma(lines, i + 1) && epsilon == Epsilon(lines, i + 1);
    }
    r := Product(ParseBinary(gamma), ParseBinary(epsilon));
  }

  // ---------------------------------------------------------------------------
  // Part two (Day03.cs:23-43).
  // ---------------------------------------------------------------------------

  /** The bit the oxygen filter keeps: '1' unless zeros outnumber ones. */
  function OxygenBit(nums: seq<string>, i: nat): char
    requires Wide(nums, i + 1)
  {
    var ones := CountBit(nums, i, '1');
    if ones >= |nums| - ones then '1' else '0'
  }

  /** One oxygen filter step (Day03.cs:31-33). */
  function OxygenStep(nums: seq<string>, i: nat): seq<string>
    requires Wide(nums, i + 1)
  {
    Keep(nums, i, OxygenBit(nums, i))
  }

  /** One CO2 filter step as written (Day03.cs:37-39): '0' unless zeros outnumber ones. */
  function Co2StepAsWritten(nums: seq<string>, i: nat): seq<string>
    requires Wide(nums, i + 1)
  {
    var ones := CountBit(nums, i, '1');
    Keep(nums, i, if |nums| - ones <= ones then '0' else '1')
  }

  /** One CO2 filter step as intended: when every number carries the same bit, all of them stay. */
  function Co2Step(nums: seq<string>, i: nat): seq<string>
    requires Wide(nums, i + 1)
  {
    var ones := CountBit(nums, i, '1');
    if ones == 0 || ones == |nums| then nums else Co2StepAsWritten(nums, i)
  }

  /** The oxygen filter keeps the majority: never nothing, at least half, and drops the minority when both bits occur. */
  lemma OxygenStepKeepsMajority(nums: seq<string>, i: nat)
    requires AllBinary(nums) && Wide(nums, i + 1) && |nums| > 0
    ensures var r := OxygenStep(nums, i); 0 < |r| && |nums| <= 2 * |r|
    ensures 0 < CountBit(nums, i, '1') < |nums| ==> |OxygenStep(nums, i)| < |nums|
    ensures forall x :: x in OxygenStep(nums, i) ==> x in nums && x[i] == OxygenBit(nums, i)
  {
    ZerosAndOnes(nums, i);
  }

  /** The intended CO2 filter never empties the list and drops the majority when both bits occur. */
  lemma Co2StepKeepsMinority(nums: seq<string>, i: nat)
    requires AllBinary(nums) && Wide(nums, i + 1) && |nums| > 0
    ensures 0 < |Co2Step(nums, i)| <= |nums|
    ensures 0 < CountBit(nums, i, '1') < |nums| ==> 2 * |Co2Step(nums, i)| <= |nums|
    ensures forall x :: x in Co2Step(nums, i) ==> x in nums
  {
    ZerosAndOnes(nums, i);
  }

  /** Where both bits occur, the intended step is the step as written. */
  lemma Co2StepAgrees(nums: seq<string>, i: nat)
    requires Wide(nums, i + 1) && 0 < CountBit(nums, i, '1') < |nums|
    ensures Co2Step(nums, i) == Co2StepAsWritten(nums, i)
  {
  }

  /** As written, the CO2 filter drops every number when all of them carry a '1' at the position. */
  lemma Co2StepAsWrittenEmpties(nums: seq<string>, i: nat)
    requires AllBinary(nums) && Wide(nums, i + 1) && CountBit(nums, i, '1') == |nums|
    ensures Co2StepAsWritten(nums, i) == []
    ensures Co2Step(nums, i) == nums
  {
    ZerosAndOnes(nums, i);
  }

  /** The two filtered lists after some positions. */
  datatype Ratings = Ratings(oxygen: seq<string>, co2: seq<string>)

  /**
   * One list's filter at position `i` (`oxygen` picks which): a list of one number stays as
   * it is; otherwise reading a position past the end of one of its numbers throws.
   */
  function Filter(nums: seq<string>, i: nat, oxygen: bool): Result<seq<string>>
  {
    if |nums| <= 1 then Ok(nums)
    else if !Wide(nums, i + 1) then Fail("IndexOutOfRangeException")
    else if oxygen then Ok(OxygenStep(nums, i))
    else Ok(Co2Step(nums, i))
  }

  /** One pass of the loop at position `i`: the oxygen list first, then the CO2 list. */
  function Round(s: Ratings, i: nat): Result<Ratings>
  {
    var oxygen := Filter(s.oxygen, i, true);
    if oxygen.Fail? then Fail(oxygen.error)
    else
      var co2 := Filter(s.co2, i, false);
      if co2.Fail? then Fail(co2.error) else Ok(Ratings(oxygen.value, co2.value))
  }

  /** The lists after the first `k` positions. */
  function Rounds(lines: seq<string>, k: nat): Result<Ratings>
  {
    if k == 0 then Ok(Ratings(lines, lines))
    else
      var s := Rounds(lines, k - 1);
      if s.Fail? then s else Round(s.value, k - 1)
  }

  /** The answer to part two: the product of the first numbers left in each list. */
  function LifeSupport(lines: seq<string>): Result<int>
  {
    if |lines| == 0 then Fail("ArgumentOutOfRangeException")
    else
      var s := Rounds(lines, |lines[0]|);
      if s.Fail? then Fail(s.error)
      else if |s.value.oxygen| == 0 || |s.value.co2| == 0 then Fail("ArgumentOutOfRangeException")
      else Product(ParseBinary(s.value.oxygen[0]), ParseBinary(s.value.co2[0]))
  }

  /** Both lists are non-empty and hold only numbers of the report. */
  predicate KeepsNumbers(s: Ratings, lines: seq<string>)
  {
    |s.oxygen| > 0 && |s.co2| > 0 && (forall x :: x in s.oxygen ==> x in lines) && (forall x :: x in s.co2 ==> x in lines)
  }

  /** The pass went through and kept both lists non-empty lists of the report's numbers. */
  predicate Kept(r: Result<Ratings>, lines: seq<string>)
  {
    r.Ok? && KeepsNumbers(r.value, lines)
  }

  /** A pass over a position every number of the report has keeps both lists non-empty lists of its numbers. */
  lemma RoundKeepsNumbers(s: Ratings, i: nat, lines: seq<string>)
    requires KeepsNumbers(s, lines) && AllBinary(lines) && Wide(lines, i + 1)
    ensures Kept(Round(s, i), lines)
  {
    assert AllBinary(s.oxygen) && Wide(s.oxygen, i + 1);
    assert AllBinary(s.co2) && Wide(s.co2, i + 1);
    if |s.oxygen| > 1 {
      OxygenStepKeepsMajority(s.oxygen, i);
    }
    if |s.co2| > 1 {
      Co2StepKeepsMinority(s.co2, i);
    }
  }

  lemma RoundsStep(lines: seq<string>, k: nat)
    requires k > 0 && Rounds(lines, k - 1).Ok?
    ensures Rounds(lines, k) == Round(Rounds(lines, k - 1).value, k - 1)
  {
  }

  /** A report of binary numbers at least `k` wide: both lists stay non-empty lists of its numbers. */
  lemma {:induction false} RoundsKeepNumbers(lines: seq<string>, k: nat)
    requires |lines| > 0 && AllBinary(lines) && Wide(lines, k)
    ensures Kept(Rounds(lines, k), lines)
  {
    if k > 0 {
      RoundsKeepNumbers(lines, k - 1);
      RoundKeepsNumbers(Rounds(lines, k - 1).value, k - 1, lines);
      RoundsStep(lines, k);
    }
  }

  /** Once a pass throws, the exception is the outcome of every later count of passes. */
  lemma {:induction false} RoundsFailStays(lines: seq<string>, i: nat, k: nat)
    requires i <= k && Rounds(lines, i).Fail?
    ensures Rounds(lines, k) == Rounds(lines, i)
    decreases k
  {
    if i < k {
      RoundsFailStays(lines, i, k - 1);
    }
  }

  /** For a report of binary numbers of 1 to 31 digits the answer is the product of two of its numbers. */
  lemma LifeSupportOfReport(lines: seq<string>)
    requires |lines| > 0 && AllBinary(lines) && 0 < |lines[0]| <= 31 && forall x :: x in lines ==> |x| == |lines[0]|
    ensures exists a, b :: a in lines && b in lines && LifeSupport(lines) == Ok(Wrap32(BinValue(a) * BinValue(b)))
  {
    RoundsKeepNumbers(lines, |lines[0]|);
    var s := Rounds(lines, |lines[0]|).value;
    var a, b := s.oxygen[0], s.co2[0];
    ParseShort(a);
    ParseShort(b);
  }

  /** "11", "10": at the first position both numbers carry a '1', and as written the CO2 list empties. */
  lemma Co2ListEmptiesAsWritten()
    ensures Co2StepAsWritten(["11", "10"], 0) == []
    ensures Co2Step(["11", "10"], 0) == ["11", "10"]
    ensures Co2Step(Co2Step(["11", "10"], 0), 1) == ["10"]
  {
    var nums: seq<string> := ["11", "10"];
    assert nums[1..] == ["10"] && nums[1..][1..] == [];
    Co2StepAsWrittenEmpties(nums, 0);
    assert CountBit(nums, 1, '1') == 1;
    assert Keep(nums[1..], 1, '0') == ["10"];
  }

  /**
   * Part two: filter both lists position by position while they hold more than one
   * number, then multiply the first numbers left.
   */
  method GetSolution2(lines: seq<string>) returns (r: Result<int>)
    ensures r == LifeSupport(lines)
  {
    if |lines| == 0 {
      return Fail("ArgumentOutOfRangeException");
    }
    var oxygenGeneratorNumbers, co2ScrubberNumbers := lines, lines;
    for i := 0 to |lines[0]|
      invariant Rounds(lines, i) == Ok(Ratings(oxygenGeneratorNumbers, co2ScrubberNumbers))
    {
      ghost var before := Ratings(oxygenGeneratorNumbers, co2ScrubberNumbers);
      assert Rounds(lines, i + 1) == Round(before, i);
      if |oxygenGeneratorNumbers| > 1 {
        if exists x :: x in oxygenGeneratorNumbers && |x| <= i {
          RoundsFailStays(lines, i + 1, |lines[0]|);
          return Fail("IndexOutOfRangeException");
        }
        oxygenGeneratorNumbers := OxygenStep(oxygenGeneratorNumbers, i);
      }
      if |co2ScrubberNumbers| > 1 {
        if exists x :: x in co2ScrubberNumbers && |x| <= i {
          RoundsFailStays(lines, i + 1, |lines[0]|);
          return Fail("IndexOutOfRangeException");
        }
        co2ScrubberNumbers := Co2Step(co2ScrubberNumbers, i);
      }
    }
    if |oxygenGeneratorNumbers| == 0 || |co2ScrubberNumbers| == 0 {
      return Fail("ArgumentOutOfRangeException");
    }
    r := Product(ParseBinary(oxygenGeneratorNumbers[0]), ParseBinary(co2ScrubberNumbers[0]));
  }
}

/**
 * QuickPattern: detection of a block of items that repeats up to the end of a list
 * (AdventOfCode2021/Tools/QuickPattern.cs).
 */
module Patterns {
  import opened Wrappers
  import opened CSharpInt

  /**
   * A detected pattern: where its run of repetitions starts, its length and the repeat count the
   * source reports. The `IncreasePerPattern` sum, computed through `dynamic`, is not part of
   * this model.
   */
  datatype PatternInfo = PatternInfo(startIndex: int, patternLength: int, patternRepeatCount: int)

  /** From position s on, every item equals the one length further on (while that exists). */
  ghost predicate SameBlocks<T>(data: seq<T>, s: int, length: nat)
  {
    forall i :: 0 <= s <= i < |data| - length ==> data[i] == data[i + length]
  }

  /**
   * The last k blocks of the given length all equal the final block, and (beyond the final
   * block itself) each starts strictly after off.
   */
  ghost predicate Repeated<T>(data: seq<T>, off: int, length: nat, k: int)
  {
    1 <= k && k * length <= |data| && (k == 1 || |data| - k * length > off) && SameBlocks(data, |data| - k * length, length)
  }

  /**
   * Lines 82-94: the run of blocks equal to the final one, extended backwards from the block at
   * start while the next block starts strictly after off; gives the run's start and its number
   * of blocks.
   */
  function Run<T(==)>(data: seq<T>, off: int, length: nat, start: nat, reps: nat): (nat, nat)
    requires -1 <= off && 1 <= length && start + length <= |data|
    decreases start
  {
    if start - length > off && data[start - length .. start] == data[|data| - length ..] then
      Run(data, off, length, start - length, reps + 1)
    else (start, reps)
  }

  /** Lines 76-96: the start of the run when it has at least minimumRepetitions blocks, else -1. */
  function StartPosition<T(==)>(data: seq<T>, off: int, length: nat, minimumRepetitions: int): int
    requires -1 <= off && 1 <= length <= |data|
  {
    var run := Run(data, off, length, |data| - length, 1);
    if run.1 >= minimumRepetitions then run.0 else -1
  }

  lemma MulMono(a: nat, b: nat, c: nat)
    requires a <= b
    ensures a * c <= b * c
  {
  }

  /** Fewer blocks of a run are a run too. */
  lemma RepeatedFewer<T>(data: seq<T>, off: int, length: nat, j: int, k: int)
    requires 1 <= j <= k && Repeated(data, off, length, k)
    ensures Repeated(data, off, length, j)
  {
    MulMono(j, k, length);
  }

  /** A block equal to the final one, just before a run of reps blocks, extends the run. */
  lemma RunGrows<T>(data: seq<T>, off: int, length: nat, start: nat, reps: nat)
    requires -1 <= off && 1 <= length && 1 <= reps && start + length <= |data| && start == |data| - reps * length
    requires Repeated(data, off, length, reps) && data[start .. start + length] == data[|data| - length ..]
    requires start - length > off && data[start - length .. start] == data[|data| - length ..]
    ensures Repeated(data, off, length, reps + 1)
  {
    var t := start - length;
    assert t + length == start;
    forall i | t <= i < start ensures data[i] == data[i + length] {
      assert data[i] == data[t .. start][i - t];
      assert data[i + length] == data[start .. start + length][i - t];
    }
  }

  /** The run found from a run of reps blocks is exactly the longest run. */
  lemma {:induction false} RunMeaning<T>(data: seq<T>, off: int, length: nat, start: nat, reps: nat)
    requires -1 <= off && 1 <= length && 1 <= reps && start + length <= |data| && start == |data| - reps * length
    requires Repeated(data, off, length, reps)
    requires data[start .. start + length] == data[|data| - length ..]
    ensures var run := Run(data, off, length, start, reps);
      run.1 >= reps && run.0 == |data| - run.1 * length && Repeated(data, off, length, run.1)
    ensures var run := Run(data, off, length, start, reps);
      forall k :: reps <= k ==> (Repeated(data, off, length, k) <==> k <= run.1)
    decreases start
  {
    var t := start - length;
    var run := Run(data, off, length, start, reps);
    if t > off && data[t .. start] == data[|data| - length ..] {
      RunGrows(data, off, length, start, reps);
      RunMeaning(data, off, length, t, reps + 1);
      forall k | reps <= k && k <= run.1 ensures Repeated(data, off, length, k) {
        RepeatedFewer(data, off, length, k, run.1);
      }
    } else {
      forall k | reps < k ensures !Repeated(data, off, length, k) {
        if Repeated(data, off, length, k) {
          RepeatedFewer(data, off, length, reps + 1, k);
        }
      }
    }
  }

  /**
   * StartPosition is -1 exactly when fewer than minimumRepetitions blocks repeat; otherwise it is
   * the start of the longest run of blocks equal to the final one, with at least that many blocks.
   */
  lemma StartPositionMeaning<T>(data: seq<T>, off: int, length: nat, minimumRepetitions: int)
    requires -1 <= off && 1 <= length <= |data|
    ensures StartPosition(data, off, length, minimumRepetitions) >= 0 <==>
      minimumRepetitions <= 1 || Repeated(data, off, length, minimumRepetitions)
    ensures var r := StartPosition(data, off, length, minimumRepetitions);
      r >= 0 ==> (exists k :: k >= minimumRepetitions && r == |data| - k * length &&
                    Repeated(data, off, length, k) && !Repeated(data, off, length, k + 1))
    ensures StartPosition(data, off, length, minimumRepetitions) == -1 ||
      StartPosition(data, off, length, minimumRepetitions) >= 0
  {
    var n := |data|;
    assert Repeated(data, off, length, 1);
    RunMeaning(data, off, length, n - length, 1);
    var run := Run(data, off, length, n - length, 1);
    if 1 <= minimumRepetitions && Repeated(data, off, length, minimumRepetitions) {
      assert minimumRepetitions <= run.1;
    }
    if StartPosition(data, off, length, minimumRepetitions) >= 0 {
      assert Repeated(data, off, length, run.1) && !Repeated(data, off, length, run.1 + 1);
    }
  }

  /** Lines 76-96: the backward comparison of blocks against the final one. */
  method FindPatternStartPosition<T(==)>(dataPoint: seq<T>, startOffset: int, length: int, minimumRepetitions: int)
    returns (r: int)
    requires 0 <= startOffset && 1 <= length <= |dataPoint|
    ensures r == StartPosition(dataPoint, startOffset, length, minimumRepetitions)
  {
    var refStart := |dataPoint| - length;
    var startIndex := |dataPoint| - length;
    var nbrOfRepetition := 1;
    while startIndex - length > startOffset
      invariant 0 <= startIndex <= refStart && nbrOfRepetition >= 1
      invariant Run(dataPoint, startOffset, length, startIndex, nbrOfRepetition) == Run(dataPoint, startOffset, length, refStart, 1)
      decreases startIndex
    {
      var testedStartIndex := startIndex - length;
      var same := SameBlock(dataPoint, testedStartIndex, refStart, length);
      if !same {
        return if nbrOfRepetition >= minimumRepetitions then startIndex else -1;
      }
      nbrOfRepetition := nbrOfRepetition + 1;
      startIndex := testedStartIndex;
    }
    return if nbrOfRepetition >= minimumRepetitions then startIndex else -1;
  }

  /** The element-by-element comparison of one block with the final block (lines 85-91). */
  method SameBlock<T(==)>(data: seq<T>, tested: nat, reference: nat, length: nat) returns (same: bool)
    requires tested + length <= |data| && reference + length <= |data|
    ensures same <==> data[tested .. tested + length] == data[reference .. reference + length]
  {
    for i := 0 to length
      invariant data[tested .. tested + i] == data[reference .. reference + i]
    {
      if data[tested + i] != data[reference + i] {
        assert data[tested .. tested + length][i] != data[reference .. reference + length][i];
        return false;
      }
      assert data[tested .. tested + i + 1] == data[tested .. tested + i] + [data[tested + i]];
      assert data[reference .. reference + i + 1] == data[reference .. reference + i] + [data[reference + i]];
    }
    return true;
  }

  /**
   * p describes a run found after startOffset: its length lies in the searched range, it starts
   * at or after startOffset, and its count is the number of blocks equal to the final block,
   * at least minimumRepetitions, with no further block before them.
   */
  ghost predicate Found<T>(data: seq<T>, startOffset: int, minimumPatternLength: int, minimumRepetitions: int, p: PatternInfo)
    requires 1 <= minimumPatternLength && 1 <= minimumRepetitions
  {
    minimumPatternLength <= p.patternLength <= (|data| - startOffset) / minimumRepetitions &&
    startOffset <= p.startIndex && p.startIndex == |data| - p.patternRepeatCount * p.patternLength &&
    minimumRepetitions <= p.patternRepeatCount &&
    Repeated(data, startOffset, p.patternLength, p.patternRepeatCount) &&
    !Repeated(data, startOffset, p.patternLength, p.patternRepeatCount + 1)
  }

  /** No length in (shortest - 1, longest] has minimumRepetitions blocks ending the list. */
  ghost predicate NoneBetween<T>(data: seq<T>, startOffset: int, minimumRepetitions: int, shortest: int, longest: int)
  {
    forall length: nat :: shortest <= length <= longest ==> !Repeated(data, startOffset, length, minimumRepetitions)
  }

  /** The answer built from a non-negative start position (lines 61-68, with the corrected count). */
  lemma FoundAt<T>(data: seq<T>, startOffset: int, minimumPatternLength: int, minimumRepetitions: int, length: nat, position: int)
    requires 0 <= startOffset && 1 <= minimumRepetitions && 1 <= minimumPatternLength <= length
    requires length <= (|data| - startOffset) / minimumRepetitions && length <= |data|
    requires position == StartPosition(data, startOffset, length, minimumRepetitions) >= 0
    ensures Found(data, startOffset, minimumPatternLength, minimumRepetitions,
                  PatternInfo(position, length, (|data| - position) / length))
  {
    MulMono(1, minimumRepetitions, length);
    StartPositionMeaning(data, startOffset, length, minimumRepetitions);
    var k :| k >= minimumRepetitions && position == |data| - k * length &&
      Repeated(data, startOffset, length, k) && !Repeated(data, startOffset, length, k + 1);
    DivModUnique(k * length, length, k, 0);
    assert |data| - position == k * length;
  }

  /** A start position of -1 means fewer than minimumRepetitions blocks. */
  lemma NotFoundAt<T>(data: seq<T>, startOffset: int, minimumRepetitions: int, length: nat)
    requires 0 <= startOffset && 1 <= minimumRepetitions && 1 <= length <= |data|
    requires StartPosition(data, startOffset, length, minimumRepetitions) < 0
    ensures !Repeated(data, startOffset, length, minimumRepetitions)
  {
    StartPositionMeaning(data, startOffset, length, minimumRepetitions);
  }

  lemma MulLess(x: int, y: int, m: int)
    requires m > 0 && x * m < y * m
    ensures x < y
  {
  }

  /** q blocks of m fit in a exactly when q is at most a / m. */
  lemma QuotientBound(a: int, m: int, q: int)
    requires m > 0 && q * m <= a
    ensures q <= a / m
  {
    var d := a / m;
    assert a < (d + 1) * m by {
      assert a == d * m + a % m;
    }
    MulLess(q, d + 1, m);
  }

  /** Fewer than n blocks of m fit in a when a < n m. */
  lemma QuotientBelow(a: int, m: int, n: int)
    requires m > 0 && n >= 1 && a < n * m
    ensures a / m < n
  {
    var d := a / m;
    assert d * m <= a by {
      assert a == d * m + a % m;
    }
    if d >= n {
      MulMono(n, d, m);
    }
  }

  /** Dividing a non-negative amount by at least one does not enlarge it. */
  lemma QuotientAtMost(a: int, m: int)
    requires a >= 0 && m >= 1
    ensures 0 <= a / m <= a
  {
    var d := a / m;
    assert d * m <= a by {
      assert a == d * m + a % m;
    }
    if d > a {
      MulMono(1, m, d);
    }
  }

  /** A length without minimumRepetitions final blocks widens the range of such lengths. */
  lemma NoneBetweenGrows<T>(data: seq<T>, startOffset: int, minimumRepetitions: int, length: int, longest: int)
    requires NoneBetween(data, startOffset, minimumRepetitions, length + 1, longest)
    requires length >= 0 ==> !Repeated(data, startOffset, length, minimumRepetitions)
    ensures NoneBetween(data, startOffset, minimumRepetitions, length, longest)
  {
  }

  /**
   * Lines 43-74: the longest pattern length, from (|data| - startOffset) / minimumRepetitions
   * down to minimumPatternLength, whose final block repeats at least minimumRepetitions times
   * after startOffset. The reported count is the number of blocks in the run.
   */
  method FindPattern<T(==)>(data: seq<T>, startOffset: int, minimumPatternLength: int, minimumRepetitions: int)
    returns (r: Option<PatternInfo>)
    requires 0 <= startOffset && 1 <= minimumPatternLength && 1 <= minimumRepetitions
    ensures |data| - startOffset < minimumPatternLength * minimumRepetitions ==> r.None?
    ensures r.Some? ==> Found(data, startOffset, minimumPatternLength, minimumRepetitions, r.value)
    ensures r.Some? ==> NoneBetween(data, startOffset, minimumRepetitions, r.value.patternLength + 1,
                                    (|data| - startOffset) / minimumRepetitions)
    ensures r.None? ==> NoneBetween(data, startOffset, minimumRepetitions, minimumPatternLength,
                                    (|data| - startOffset) / minimumRepetitions)
  {
    var lengthOfDataToCheck := |data| - startOffset;
    var maxLength := lengthOfDataToCheck / minimumRepetitions;
    if lengthOfDataToCheck < minimumPatternLength * minimumRepetitions {
      QuotientBelow(lengthOfDataToCheck, minimumRepetitions, minimumPatternLength);
      return None;
    }
    QuotientBound(lengthOfDataToCheck, minimumRepetitions, minimumPatternLength);
    QuotientAtMost(lengthOfDataToCheck, minimumRepetitions);
    var length := maxLength;
    while length >= minimumPatternLength
      invariant minimumPatternLength - 1 <= length <= maxLength <= |data|
      invariant NoneBetween(data, startOffset, minimumRepetitions, length + 1, maxLength)
    {
      var position := FindPatternStartPosition(data, startOffset, length, minimumRepetitions);
      if position >= 0 {
        FoundAt(data, startOffset, minimumPatternLength, minimumRepetitions, length, position);
        return Some(PatternInfo(position, length, (|data| - position) / length));
      }
      NotFoundAt(data, startOffset, minimumRepetitions, length);
      NoneBetweenGrows(data, startOffset, minimumRepetitions, length, maxLength);
      length := length - 1;
    }
    return None;
  }

  /** Line 66 as written: the count divides the span after startOffset, in C#'s truncating division. */
  function AsWrittenRepeatCount(dataCount: int, startOffset: int, startIndex: int, length: int): int
    requires length != 0
  {
    Quot(dataCount - startOffset - startIndex, length)
  }

  /**
   * With a non-zero startOffset the count of line 66 falls short of the blocks found:
   * in [9, 1, 1, 1, 1] from offset 1, the run of 1s starts at 2 and holds three blocks of length 1,
   * but line 66 reports 2.
   */
  lemma OffsetUndercounts()
    ensures StartPosition([9, 1, 1, 1, 1], 1, 1, 2) == 2
    ensures Repeated([9, 1, 1, 1, 1], 1, 1, 3)
    ensures AsWrittenRepeatCount(5, 1, 2, 1) == 2
  {
    var data := [9, 1, 1, 1, 1];
    assert data[3 .. 4] == data[4 ..];
    assert data[2 .. 3] == data[4 ..];
    assert Run(data, 1, 1, 4, 1) == Run(data, 1, 1, 2, 3);
  }

  // ---------------------------------------------------------------------------
  // A block that begins exactly at startOffset.
  // ---------------------------------------------------------------------------

  /**
   * The corrected run: the last k blocks equal the final block and each begins at or after off,
   * the index where the search begins.
   */
  ghost predicate RepeatedFrom<T>(data: seq<T>, off: int, length: nat, k: int)
  {
    1 <= k && k * length <= |data| && (k == 1 || |data| - k * length >= off) && SameBlocks(data, |data| - k * length, length)
  }

  /**
   * The corrected search: line 82 with `startIndex - length >= startOffset`, which over integers
   * is the strict test against startOffset - 1.
   */
  function StartPositionFrom<T(==)>(data: seq<T>, off: int, length: nat, minimumRepetitions: int): int
    requires 0 <= off && 1 <= length <= |data|
  {
    StartPosition(data, off - 1, length, minimumRepetitions)
  }

  /**
   * The corrected search is -1 exactly when fewer than minimumRepetitions blocks from off on
   * repeat; otherwise it is the start of the longest such run, with at least that many blocks.
   */
  lemma StartPositionFromMeaning<T>(data: seq<T>, off: int, length: nat, minimumRepetitions: int)
    requires 0 <= off && 1 <= length <= |data|
    ensures StartPositionFrom(data, off, length, minimumRepetitions) >= 0 <==>
      minimumRepetitions <= 1 || RepeatedFrom(data, off, length, minimumRepetitions)
    ensures var r := StartPositionFrom(data, off, length, minimumRepetitions);
      r >= 0 ==> (exists k :: k >= minimumRepetitions && r == |data| - k * length &&
                    RepeatedFrom(data, off, length, k) && !RepeatedFrom(data, off, length, k + 1))
  {
    forall k ensures RepeatedFrom(data, off, length, k) <==> Repeated(data, off - 1, length, k) {
    }
    StartPositionMeaning(data, off - 1, length, minimumRepetitions);
    var r := StartPositionFrom(data, off, length, minimumRepetitions);
    if r >= 0 {
      var k :| k >= minimumRepetitions && r == |data| - k * length &&
        Repeated(data, off - 1, length, k) && !Repeated(data, off - 1, length, k + 1);
      assert RepeatedFrom(data, off, length, k) && !RepeatedFrom(data, off, length, k + 1);
    }
  }

  /**
   * Line 82's strict test never counts a block that begins exactly at startOffset: in [1, 1]
   * searched from 0, both items are blocks of length 1, but the search as written finds a single
   * block and answers -1 for two repetitions, where the corrected search finds the run at 0.
   */
  lemma BlockAtOffsetMissed()
    ensures StartPosition([1, 1], 0, 1, 2) == -1
    ensures RepeatedFrom([1, 1], 0, 1, 2) && !Repeated([1, 1], 0, 1, 2)
    ensures StartPositionFrom([1, 1], 0, 1, 2) == 0
  {
    var data := [1, 1];
    assert data[0 .. 1] == data[1 ..];
    assert Run(data, -1, 1, 1, 1) == Run(data, -1, 1, 0, 2);
  }
}

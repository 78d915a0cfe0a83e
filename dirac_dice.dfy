/**
 * Day 21, Dirac Dice. Two pawns move round a circular track of ten spaces (kept 0-based:
 * space n is position n - 1) and each scores the number of the space it lands on.
 * Part one plays with a deterministic 100-sided die, three rolls a turn, until a score
 * reaches 1000. Part two plays with a three-sided Dirac die that splits the universe on
 * every roll and counts, per player, the universes in which that player reaches 21 first.
 */
module DiracDice {
  import opened Wrappers
  import opened CSharpInt
  import Text

  // ---------------------------------------------------------------------------
  // The deterministic die (Day21.cs:99-115).
  // ---------------------------------------------------------------------------

  /** The face after `d`: one more, and 1 again after 100. */
  function NextFace(d: int): int
  {
    if d + 1 > 100 then 1 else d + 1
  }

  /** The sum of `n` rolls starting at face `d` (no roll for `n <= 0`). */
  function RollSum(d: int, n: int): int
    decreases n
  {
    if n <= 0 then 0 else d + RollSum(NextFace(d), n - 1)
  }

  /** The face that comes up after `n` rolls starting at face `d`. */
  function FaceAfter(d: int, n: int): int
    decreases n
  {
    if n <= 0 then d else FaceAfter(NextFace(d), n - 1)
  }

  /** The k-th face (from 0) rolled starting at face `d`, counted round the die. */
  function Face(d: int, k: nat): int
  {
    (d - 1 + k) % 100 + 1
  }

  /** The sum of the faces `Face(d, 0)` up to `Face(d, n - 1)`. */
  function FaceSum(d: int, n: nat): int
  {
    if n == 0 then 0 else FaceSum(d, n - 1) + Face(d, n - 1)
  }

  /**
   * On a die face, rolling `n` times moves round the die: the next face is `n` further on
   * modulo 100, and the sum is that of the `n` faces met on the way.
   */
  lemma {:induction false} RollsGoRound(d: int, n: nat)
    requires 1 <= d <= 100
    ensures FaceAfter(d, n) == Face(d, n) && 1 <= FaceAfter(d, n) <= 100
    ensures RollSum(d, n) == FaceSum(d, n)
    decreases n
  {
    if n > 0 {
      var e := NextFace(d);
      RollsGoRound(e, n - 1);
      FaceShift(d, n - 1);
      SumShift(d, n - 1);
    }
  }

  lemma FaceShift(d: int, k: nat)
    requires 1 <= d <= 100
    ensures Face(NextFace(d), k) == Face(d, k + 1)
  {
    if d == 100 {
      ModMultiple(k, 1, 100);
      assert 100 + k == k + 1 * 100;
    }
  }

  lemma {:induction false} SumShift(d: int, n: nat)
    requires 1 <= d <= 100
    ensures d + FaceSum(NextFace(d), n) == FaceSum(d, n + 1)
  {
    if n == 0 {
      assert Face(d, 0) == d;
    } else {
      SumShift(d, n - 1);
      FaceShift(d, n - 1);
    }
  }

  /** Three rolls from a face no higher than 98 are that face and the next two: 3d + 3; after 100 comes 1. */
  lemma ThreeRollsInARow(d: int)
    requires 1 <= d <= 98
    ensures RollSum(d, 3) == 3 * d + 3 && FaceAfter(d, 3) == (if d == 98 then 1 else d + 3)
  {
    assert RollSum(d + 2, 1) == d + 2 && FaceAfter(d + 2, 1) == NextFace(d + 2);
    assert RollSum(d + 1, 2) == 2 * d + 3 && FaceAfter(d + 1, 2) == NextFace(d + 2);
  }

  /** Every roll is between 1 and 100, so `n` rolls sum to between `n` and `100 n`. */
  lemma {:induction false} RollSumBounds(d: int, n: nat)
    requires 1 <= d <= 100
    ensures n <= RollSum(d, n) <= 100 * n
    decreases n
  {
    if n > 0 {
      RollSumBounds(NextFace(d), n - 1);
    }
  }

  /** `Get100FacesDiceSum`: roll `nbrOfRoll` times, returning the sum and the next face. */
  method Get100FacesDiceSum(diceNextValue: int, nbrOfRoll: int) returns (move: int, next: int)
    ensures move == RollSum(diceNextValue, nbrOfRoll)
    ensures next == FaceAfter(diceNextValue, nbrOfRoll)
  {
    move, next := 0, diceNextValue;
    var roll := 0;
    while roll < nbrOfRoll
      invariant nbrOfRoll <= 0 || 0 <= roll <= nbrOfRoll
      invariant move + RollSum(next, nbrOfRoll - roll) == RollSum(diceNextValue, nbrOfRoll)
      invariant FaceAfter(next, nbrOfRoll - roll) == FaceAfter(diceNextValue, nbrOfRoll)
    {
      move := move + next;
      next := next + 1;
      if next > 100 {
        next := 1;
      }
      roll := roll + 1;
    }
  }

  // ---------------------------------------------------------------------------
  // The track.
  // ---------------------------------------------------------------------------

  /** `(pos + move) % 10` with C#'s remainder. */
  function Advance(pos: int, move: int): (r: int)
    ensures 0 <= pos && 0 <= move ==> 0 <= r < 10 && r == (pos + move) % 10
  {
    QuotRem(pos + move, 10);
    Rem(pos + move, 10)
  }

  // ---------------------------------------------------------------------------
  // Reading the input (Day21.cs:117-135).
  // ---------------------------------------------------------------------------

  /**
   * `int.Parse(s.Split(':', StringSplitOptions.TrimEntries)[1]) - 1`: a line without ':'
   * has no second piece; the piece must be an optional sign and digits within `int` range.
   */
  function ParsePosition(line: string): Result<int>
  {
    var parts := Text.Split(line, ':');
    if |parts| < 2 then Fail("IndexOutOfRangeException")
    else
      match Text.ParseInt(Text.Trim(parts[1]))
      case None => Fail("FormatException")
      case Some(v) => if !IsInt32(v) then Fail("OverflowException") else Ok(Wrap32(v - 1))
  }

  /** `ConvertAll` over the lines: the first line that does not parse throws. */
  function ParsePositions(lines: seq<string>): Result<seq<int>>
  {
    if |lines| == 0 then Ok([])
    else
      var first := ParsePosition(lines[0]);
      if first.Fail? then Fail(first.error)
      else
        var rest := ParsePositions(lines[1..]);
        if rest.Fail? then rest else Ok([first.value] + rest.value)
  }

  /**
   * The positions are those of the lines, in order, when every line parses; otherwise
   * the exception is that of the first line that does not.
   */
  lemma {:induction false} ParsePositionsLineByLine(lines: seq<string>)
    ensures ParsePositions(lines).Ok? ==> (|ParsePositions(lines).value| == |lines|
      && forall k :: 0 <= k < |lines| ==> ParsePosition(lines[k]) == Ok(ParsePositions(lines).value[k]))
    ensures ParsePositions(lines).Fail? ==> (exists k :: (0 <= k < |lines| && ParsePosition(lines[k]).Fail?
      && ParsePositions(lines).error == ParsePosition(lines[k]).error
      && forall j :: 0 <= j < k ==> ParsePosition(lines[j]).Ok?))
  {
    if |lines| > 0 && ParsePosition(lines[0]).Ok? {
      var rest := lines[1..];
      ParsePositionsLineByLine(rest);
      assert forall k :: 1 <= k < |lines| ==> lines[k] == rest[k - 1];
      if ParsePositions(rest).Fail? {
        var k :| 0 <= k < |rest| && ParsePosition(rest[k]).Fail?
          && ParsePositions(rest).error == ParsePosition(rest[k]).error
          && forall j :: 0 <= j < k ==> ParsePosition(rest[j]).Ok?;
        assert ParsePosition(lines[k + 1]).Fail?;
      }
    }
  }

  /** A line "<name>: <n>" whose name holds no ':' reads as the 0-based space n - 1. */
  lemma ParseStartingPosition(name: string, n: nat)
    requires ':' !in name && 1 <= n <= 10
    ensures ParsePosition(name + ": " + Text.IntToString(n)) == Ok(n - 1)
  {
    var tail := Text.IntToString(n);
    var line := name + ": " + tail;
    var k := Text.IndexOf(line, ':');
    assert line[|name|] == ':';
    assert forall j :: 0 <= j < |name| ==> line[j] == name[j];
    assert k == |name|;
    Text.IntToStringChars(n, ':');
    assert line[k + 1..] == " " + tail;
    assert ':' !in " " + tail;
    assert Text.Split(line, ':') == [line[..k], " " + tail];
    assert tail == Text.NatToString(n);
    TrimNumber(tail);
    Text.ParseIntToString(n);
  }

  lemma TrimNumber(digits: string)
    requires |digits| > 0 && Text.AllDigits(digits)
    ensures Text.Trim(" " + digits) == digits
  {
    var padded := " " + digits;
    assert padded[1..] == digits;
    assert Text.TrimStart(padded) == Text.TrimStart(digits);
    assert !Text.IsWhiteSpace(digits[0]) && !Text.IsWhiteSpace(digits[|digits| - 1]);
  }

  /** Every entry of `_diracDicePossibleOutcome`: the sum of three rolls of a 3-sided die. */
  function OutcomeAt(k: nat): int
  {
    (k / 9 + 1) + (k / 3 % 3 + 1) + (k % 3 + 1)
  }

  /** The 27 outcomes in the order of the three nested loops. */
  function DiracOutcomes(): (r: seq<int>)
    ensures |r| == 27
  {
    seq(27, k requires 0 <= k < 27 => OutcomeAt(k))
  }

  lemma OutcomeIndex(a: nat, b: nat, c: nat)
    requires a < 3 && b < 3 && c < 3
    ensures OutcomeAt(9 * a + 3 * b + c) == (a + 1) + (b + 1) + (c + 1)
  {
    var k := 9 * a + 3 * b + c;
    DivModUnique(k, 9, a, 3 * b + c);
    DivModUnique(k, 3, 3 * a + b, c);
    DivModUnique(3 * a + b, 3, a, b);
  }

  /** Each outcome is between 3 and 9. */
  lemma OutcomesInRange()
    ensures forall k :: 0 <= k < 27 ==> 3 <= DiracOutcomes()[k] <= 9
  {
    forall k | 0 <= k < 27
      ensures 3 <= DiracOutcomes()[k] <= 9
    {
      OutcomeIndex(k / 9, k / 3 % 3, k % 3);
      assert k == 9 * (k / 9) + 3 * (k / 3 % 3) + k % 3;
    }
  }

  // ---------------------------------------------------------------------------
  // Part one (Day21.cs:11-38).
  // ---------------------------------------------------------------------------

  /** The table during part one: positions and scores by player, the next die face, the rolls so far. */
  datatype Table = Table(pos: seq<int>, score: seq<int>, die: int, rolls: int)

  /** Two pawns on the track, scores below 1000 and a die face: the game goes on. */
  predicate Playing(t: Table)
  {
    |t.pos| == 2 && |t.score| == 2 && 1 <= t.die <= 100 && t.rolls >= 0
    && (forall p :: 0 <= p < 2 ==> 0 <= t.pos[p] < 10 && 0 <= t.score[p] < 1000)
  }

  /** Points still missing to reach `goal`. */
  function Missing(score: int, goal: int): nat
  {
    if score < goal then goal - score else 0
  }

  /** The points both players still miss to reach 1000. */
  function Budget(t: Table): nat
    requires |t.score| == 2
  {
    Missing(t.score[0], 1000) + Missing(t.score[1], 1000)
  }

  /**
   * Player `p` takes a turn: three rolls move the pawn, and the space it lands on,
   * 1 to 10, is added to the score.
   */
  function Turn(t: Table, p: nat): (r: Table)
    requires Playing(t) && p < 2
    ensures |r.pos| == 2 && |r.score| == 2 && 1 <= r.die <= 100 && r.rolls == t.rolls + 3
    ensures 0 <= r.pos[p] < 10 && r.score[p] == t.score[p] + r.pos[p] + 1
    ensures r.pos[1 - p] == t.pos[1 - p] && r.score[1 - p] == t.score[1 - p]
    ensures Budget(r) < Budget(t)
  {
    RollsGoRound(t.die, 3);
    RollSumBounds(t.die, 3);
    var np := Advance(t.pos[p], RollSum(t.die, 3));
    Table(t.pos[p := np], t.score[p := t.score[p] + np + 1], FaceAfter(t.die, 3), t.rolls + 3)
  }

  /** One player's turn in the part-one loop: roll three times, move the pawn, add the space to the score. */
  method TakeTurn(positions: seq<int>, playerScore: array<int>, diceNextValue: int, nbrOfRoll: int, playerId: nat)
    returns (newPositions: seq<int>, nextValue: int, rolls: int)
    requires playerScore.Length == 2 && playerId < 2 && Playing(Table(positions, playerScore[..], diceNextValue, nbrOfRoll))
    modifies playerScore
    ensures Table(newPositions, playerScore[..], nextValue, rolls)
      == Turn(Table(positions, old(playerScore[..]), diceNextValue, nbrOfRoll), playerId)
  {
    ghost var t := Table(positions, playerScore[..], diceNextValue, nbrOfRoll);
    var move;
    move, nextValue := Get100FacesDiceSum(diceNextValue, 3);
    rolls := nbrOfRoll + 3;
    newPositions := positions[playerId := Rem(positions[playerId] + move, 10)];
    playerScore[playerId] := playerScore[playerId] + newPositions[playerId] + 1;
    assert playerScore[..] == t.score[playerId := t.score[playerId] + newPositions[playerId] + 1];
    TurnComputed(t, playerId, move, nextValue, newPositions, playerScore[..]);
  }

  /**
   * Inside one pass of the part-one loops: the game from this table with player `p`
   * to move (player 0 again after player 1) ends as `goal`, and each of the `p` turns of the pass cost a point of budget.
   */
  predicate InRound(t: Table, p: nat, goal: End, before: nat)
  {
    p <= 2 && Playing(t) && Play(t, if p == 1 then 1 else 0) == goal && Budget(t) + p <= before
  }

  lemma RoundStep(t: Table, p: nat, goal: End, before: nat)
    requires p < 2 && InRound(t, p, goal, before)
    ensures Turn(t, p).score[p] < 1000 ==> InRound(Turn(t, p), p + 1, goal, before)
    ensures Turn(t, p).score[p] >= 1000 ==> goal == End(Turn(t, p), p) && Budget(Turn(t, p)) < before
  {
    PlayStep(t, p);
  }

  /** After a pass in which nobody won, the next pass starts with player 0 and less budget. */
  lemma RoundAgain(t: Table, goal: End, before: nat, start: nat)
    requires InRound(t, 2, goal, before) && before <= start
    ensures InRound(t, 0, goal, start) && Budget(t) + 2 <= before
  {
  }

  /** A turn as the loop body computes it. */
  lemma TurnComputed(t: Table, p: nat, move: int, next: int, pos: seq<int>, score: seq<int>)
    requires Playing(t) && p < 2 && move == RollSum(t.die, 3) && next == FaceAfter(t.die, 3)
    requires pos == t.pos[p := Rem(t.pos[p] + move, 10)]
    requires score == t.score[p := t.score[p] + pos[p] + 1]
    ensures Table(pos, score, next, t.rolls + 3) == Turn(t, p)
  {
  }

  /** The table when the game stops, and who won. */
  datatype End = End(table: Table, winner: nat)

  /** Player `p` and then the other take turns until a score reaches 1000. */
  function Play(t: Table, p: nat): (e: End)
    requires Playing(t) && p < 2
    ensures e.winner < 2 && |e.table.score| == 2
    decreases Budget(t)
  {
    var r := Turn(t, p);
    if r.score[p] >= 1000 then End(r, p) else Play(r, 1 - p)
  }

  /** One turn of the game: it ends with that turn or goes on with the other player. */
  lemma PlayStep(t: Table, p: nat)
    requires Playing(t) && p < 2
    ensures Turn(t, p).score[p] >= 1000 ==> Play(t, p) == End(Turn(t, p), p)
    ensures Turn(t, p).score[p] < 1000 ==> Playing(Turn(t, p)) && Play(t, p) == Play(Turn(t, p), 1 - p)
  {
  }

  /**
   * How a game from a table with `rolls0` rolls made and `budget` points missing ends: the
   * winner has at least 1000 and the other player less, after a positive multiple of three
   * rolls and at most three rolls per missing point.
   */
  predicate Finished(e: End, rolls0: int, budget: nat)
  {
    e.winner < 2 && |e.table.score| == 2
    && e.table.score[e.winner] >= 1000 && 0 <= e.table.score[1 - e.winner] < 1000
    && rolls0 < e.table.rolls <= rolls0 + 3 * budget && (e.table.rolls - rolls0) % 3 == 0
  }

  /** The game ends as soon as one score reaches 1000, and every turn brings a player closer to it. */
  lemma {:induction false} PlayEnds(t: Table, p: nat)
    requires Playing(t) && p < 2
    ensures Finished(Play(t, p), t.rolls, Budget(t))
    decreases Budget(t)
  {
    var r := Turn(t, p);
    if r.score[p] < 1000 {
      PlayEnds(r, 1 - p);
    }
  }

  /** The table at the start: scores 0, die on 1, no roll yet. */
  function Start(positions: seq<int>): Table
  {
    Table(positions, [0, 0], 1, 0)
  }

  /** Two pawns on the track: the only input the game is defined for. */
  predicate ValidStart(positions: seq<int>)
  {
    |positions| == 2 && forall p :: 0 <= p < 2 ==> 0 <= positions[p] < 10
  }

  /** `nbrOfRoll * playerScore[looserId]`, in 32-bit arithmetic. */
  function LoserProduct(e: End): int
    requires e.winner < 2 && |e.table.score| == 2
  {
    Wrap32(e.table.rolls * e.table.score[1 - e.winner])
  }

  /** Part one's answer for valid positions: the rolls times the loser's score. */
  function Solution1(input: seq<string>): Result<int>
    requires ParsePositions(input).Ok? ==> ValidStart(ParsePositions(input).value)
  {
    var ps := ParsePositions(input);
    if ps.Fail? then Fail(ps.error)
    else
      PlayEnds(Start(ps.value), 0);
      Ok(LoserProduct(Play(Start(ps.value), 0)))
  }

  /** From the start at most 6000 rolls are made, so the product fits in an `int` and does not wrap. */
  lemma AnswerFits(positions: seq<int>)
    requires ValidStart(positions)
    ensures Finished(Play(Start(positions), 0), 0, 2000)
    ensures Play(Start(positions), 0).table.rolls <= 6000
    ensures LoserProduct(Play(Start(positions), 0))
      == Play(Start(positions), 0).table.rolls * Play(Start(positions), 0).table.score[1 - Play(Start(positions), 0).winner]
  {
    var t := Start(positions);
    assert Budget(t) == 2000;
    PlayEnds(t, 0);
    var e := Play(t, 0);
    ProductFits(e.table.rolls, e.table.score[1 - e.winner]);
  }

  lemma ProductFits(a: int, b: int)
    requires 0 <= a <= 6000 && 0 <= b < 1000
    ensures IsInt32(a * b)
  {
    assert a * b <= a * 1000 <= 6000 * 1000;
  }

  /**
   * The part-one loops: each player in turn rolls three times, moves and scores, until a
   * score reaches 1000. Returns the final positions and the answer.
   */
  method PlayGame(positions: seq<int>) returns (finalPositions: seq<int>, answer: int)
    requires ValidStart(positions)
    ensures finalPositions == Play(Start(positions), 0).table.pos
    ensures answer == LoserProduct(Play(Start(positions), 0))
  {
    var playersPositions := positions;
    var playerScore := new int[2](_ => 0);
    var looserId, nbrOfRoll, diceNextValue := -1, 0, 1;
    ghost var goal := Play(Start(positions), 0);
    PlayEnds(Start(positions), 0);
    assert Start(positions) == Table(playersPositions, playerScore[..], diceNextValue, nbrOfRoll);
    while looserId < 0
      invariant |playersPositions| == 2 && playerScore.Length == 2
      invariant looserId < 0 ==> InRound(Table(playersPositions, playerScore[..], diceNextValue, nbrOfRoll), 0, goal, Budget(Start(positions)))
      invariant looserId >= 0 ==> looserId < 2 && goal == End(Table(playersPositions, playerScore[..], diceNextValue, nbrOfRoll), 1 - looserId)
      decreases if looserId < 0 then Budget(Table(playersPositions, playerScore[..], diceNextValue, nbrOfRoll)) + 1 else 0
    {
      ghost var before := Budget(Table(playersPositions, playerScore[..], diceNextValue, nbrOfRoll));
      var playerId := 0;
      while playerId < |playersPositions|
        invariant 0 <= playerId <= 2 && |playersPositions| == 2 && looserId < 0
        invariant InRound(Table(playersPositions, playerScore[..], diceNextValue, nbrOfRoll), playerId, goal, before)
      {
        ghost var t := Table(playersPositions, playerScore[..], diceNextValue, nbrOfRoll);
        playersPositions, diceNextValue, nbrOfRoll := TakeTurn(playersPositions, playerScore, diceNextValue, nbrOfRoll, playerId);
        RoundStep(t, playerId, goal, before);
        if playerScore[playerId] >= 1000 {
          looserId := 1 - playerId;
          break;
        }
        playerId := playerId + 1;
      }
      if looserId < 0 {
        RoundAgain(Table(playersPositions, playerScore[..], diceNextValue, nbrOfRoll), goal, before, Budget(Start(positions)));
      }
    }
    finalPositions := playersPositions;
    answer := Wrap32(nbrOfRoll * playerScore[looserId]);
  }

  // ---------------------------------------------------------------------------
  // Part two (Day21.cs:40-97).
  // ---------------------------------------------------------------------------

  /** The memoisation key: both positions and scores, and the turn number. */
  datatype State = State(p1Pos: int, p1Score: int, p2Pos: int, p2Score: int, turn: int)

  /** The universes each player wins. */
  datatype Wins = Wins(p1Win: int, p2Win: int)

  function Plus(a: Wins, b: Wins): Wins
  {
    Wins(a.p1Win + b.p1Win, a.p2Win + b.p2Win)
  }

  /**
   * The largest position from which a roll of at most 9 cannot overflow `int`: a start
   * position above the ring is brought back to it by the first move, with no wrap-around.
   */
  const LastSafePosition := 0x7fff_ffff - 9

  predicate ValidState(s: State)
  {
    0 <= s.p1Pos <= LastSafePosition && 0 <= s.p2Pos <= LastSafePosition
    && s.p1Score >= 0 && s.p2Score >= 0 && s.turn >= 0
  }

  predicate Over(s: State)
  {
    s.p1Score >= 21 || s.p2Score >= 21
  }

  /** The points both players still miss to reach 21. */
  function Distance(s: State): nat
  {
    Missing(s.p1Score, 21) + Missing(s.p2Score, 21)
  }

  /** The universe after the three rolls summing to `o`: on even turns player 1 moves. */
  function Roll(s: State, o: int): (r: State)
    requires ValidState(s) && o >= 0
    ensures ValidState(r) && r.turn == s.turn + 1
    ensures !Over(s) ==> Distance(r) < Distance(s)
  {
    if s.turn % 2 == 0 then
      var np := Advance(s.p1Pos, o);
      State(np, s.p1Score + np + 1, s.p2Pos, s.p2Score, s.turn + 1)
    else
      var np := Advance(s.p2Pos, o);
      State(s.p1Pos, s.p1Score, np, s.p2Score + np + 1, s.turn + 1)
  }

  /** The wins counted from a universe: a finished game is one win for whoever reached 21. */
  function CountWins(s: State): Wins
    requires ValidState(s)
    decreases Distance(s), 1
  {
    if Over(s) then (if s.p1Score >= 21 then Wins(1, 0) else Wins(0, 1))
    else SumWins(s, 27)
  }

  /** One more outcome adds the wins of its universe. */
  lemma SumWinsStep(s: State, i: nat, next: State, w: Wins)
    requires ValidState(s) && !Over(s) && i < 27 && DiracOutcomes()[i] >= 0
    requires next == Roll(s, DiracOutcomes()[i]) && w == CountWins(next)
    ensures SumWins(s, i + 1) == Plus(SumWins(s, i), w)
  {
  }

  /** The wins over the universes of the first `n` outcomes. */
  function SumWins(s: State, n: nat): Wins
    requires ValidState(s) && !Over(s) && n <= 27
    decreases Distance(s), 0, n
  {
    if n == 0 then Wins(0, 0)
    else
      OutcomesInRange();
      Plus(SumWins(s, n - 1), CountWins(Roll(s, DiracOutcomes()[n - 1])))
  }

  /** Every finished game is won by one of the two, so each universe counts at least one win and none negative. */
  lemma {:induction false} WinsCounted(s: State)
    requires ValidState(s)
    ensures CountWins(s).p1Win >= 0 && CountWins(s).p2Win >= 0 && CountWins(s).p1Win + CountWins(s).p2Win >= 1
    decreases Distance(s), 1
  {
    if !Over(s) {
      SumCounted(s, 27);
    }
  }

  lemma {:induction false} SumCounted(s: State, n: nat)
    requires ValidState(s) && !Over(s) && 0 < n <= 27
    ensures SumWins(s, n).p1Win >= 0 && SumWins(s, n).p2Win >= 0 && SumWins(s, n).p1Win + SumWins(s, n).p2Win >= n
    decreases Distance(s), 0, n
  {
    OutcomesInRange();
    WinsCounted(Roll(s, DiracOutcomes()[n - 1]));
    if n > 1 {
      SumCounted(s, n - 1);
    }
  }

  /** The same universe seen from the other side: players exchanged, the turn one further. */
  function Swap(s: State): State
  {
    State(s.p2Pos, s.p2Score, s.p1Pos, s.p1Score, s.turn + 1)
  }

  function Swapped(w: Wins): Wins
  {
    Wins(w.p2Win, w.p1Win)
  }

  /** Exchanging the players exchanges their wins (in a universe where at most one has 21). */
  lemma {:induction false} WinsSymmetric(s: State)
    requires ValidState(s) && (s.p1Score < 21 || s.p2Score < 21)
    ensures CountWins(Swap(s)) == Swapped(CountWins(s))
    decreases Distance(s), 1
  {
    if !Over(s) {
      SumSymmetric(s, 27);
    }
  }

  lemma {:induction false} SumSymmetric(s: State, n: nat)
    requires ValidState(s) && !Over(s) && n <= 27
    ensures SumWins(Swap(s), n) == Swapped(SumWins(s, n))
    decreases Distance(s), 0, n
  {
    if n > 0 {
      OutcomesInRange();
      var o := DiracOutcomes()[n - 1];
      SumSymmetric(s, n - 1);
      RollSwap(s, o);
      WinsSymmetric(Roll(s, o));
    }
  }

  lemma RollSwap(s: State, o: int)
    requires ValidState(s) && !Over(s) && o >= 0
    ensures Roll(Swap(s), o) == Swap(Roll(s, o))
    ensures Roll(s, o).p1Score < 21 || Roll(s, o).p2Score < 21
  {
    assert (s.turn + 1) % 2 == 0 <==> s.turn % 2 != 0;
  }

  /**
   * The starts part two is modelled for: with two or more positions, the first two are not
   * negative and are far enough from `int.MaxValue` that a roll cannot overflow.
   */
  predicate PlayableStart(positions: seq<int>)
  {
    |positions| < 2 || (0 <= positions[0] <= LastSafePosition && 0 <= positions[1] <= LastSafePosition)
  }

  /** `winPerPlayer`: one entry per position read, the first two holding the two players' wins. */
  function WinPerPlayer(w: Wins, n: nat): (r: seq<int>)
    requires n >= 2
    ensures |r| == n && r[0] == w.p1Win && r[1] == w.p2Win
    ensures forall k :: 2 <= k < n ==> r[k] == 0
  {
    [w.p1Win, w.p2Win] + seq(n - 2, k => 0)
  }

  /** `Max()` over a non-empty array: an entry no smaller than any other. */
  function Largest(s: seq<int>): (m: int)
    requires |s| > 0
    ensures m in s && forall k :: 0 <= k < |s| ==> s[k] <= m
  {
    if |s| == 1 then s[0]
    else
      var rest := Largest(s[1..]);
      if s[0] >= rest then s[0] else rest
  }

  /**
   * Part two's answer: the largest entry of `winPerPlayer`. Fewer than two positions make
   * `_playersPositions[1]` (or `[0]`) throw before anything is simulated.
   */
  function Solution2(input: seq<string>): Result<int>
    requires ParsePositions(input).Ok? ==> PlayableStart(ParsePositions(input).value)
  {
    var ps := ParsePositions(input);
    if ps.Fail? then Fail(ps.error)
    else if |ps.value| < 2 then Fail("ArgumentOutOfRangeException")
    else
      var w := CountWins(State(ps.value[0], 0, ps.value[1], 0, 0));
      Ok(Largest(WinPerPlayer(w, |ps.value|)))
  }

  /**
   * Whatever the number of lines, the answer is the larger of the two players' wins: the
   * entries for further lines stay 0 and no count of wins is negative.
   */
  lemma BestPlayerWins(input: seq<string>)
    requires ParsePositions(input).Ok? && |ParsePositions(input).value| >= 2
    requires PlayableStart(ParsePositions(input).value)
    ensures var ps := ParsePositions(input).value;
      var w := CountWins(State(ps[0], 0, ps[1], 0, 0));
      Solution2(input) == Ok(if w.p1Win >= w.p2Win then w.p1Win else w.p2Win)
  {
    var ps := ParsePositions(input).value;
    var w := CountWins(State(ps[0], 0, ps[1], 0, 0));
    WinsCounted(State(ps[0], 0, ps[1], 0, 0));
    var r := WinPerPlayer(w, |ps|);
    var m := Largest(r);
    assert r[0] <= m && r[1] <= m;
  }

  // ---------------------------------------------------------------------------
  // The solver object.
  // ---------------------------------------------------------------------------

  class Day21 {
    var playersPositions: seq<int>
    var diracDicePossibleOutcome: seq<int>
    var memo: map<State, Wins>

    /** Every memoised entry is the count of wins of its universe. */
    ghost predicate Valid()
      reads this
    {
      forall s :: s in memo ==> ValidState(s) && memo[s] == CountWins(s)
    }

    constructor ()
      ensures Valid() && playersPositions == [] && diracDicePossibleOutcome == [] && memo == map[]
    {
      playersPositions := [];
      diracDicePossibleOutcome := [];
      memo := map[];
    }

    /**
     * `ExtractData`: the positions are cleared and re-read; a line that does not parse
     * throws, leaving no position and the outcome list untouched. Then the 27 outcomes.
     */
    method ExtractData(input: seq<string>) returns (err: Option<string>)
      modifies this
      ensures memo == old(memo)
      ensures ParsePositions(input).Ok? ==> (err == None && playersPositions == ParsePositions(input).value
        && diracDicePossibleOutcome == DiracOutcomes())
      ensures ParsePositions(input).Fail? ==> (err == Some(ParsePositions(input).error)
        && playersPositions == [] && diracDicePossibleOutcome == old(diracDicePossibleOutcome))
    {
      playersPositions := [];
      var parsed := ParsePositions(input);
      if parsed.Fail? {
        return Some(parsed.error);
      }
      playersPositions := parsed.value;
      diracDicePossibleOutcome := DiceOutcomes();
      err := None;
    }

    /** Part one: play with the deterministic die until a score reaches 1000; the positions are left where the game ended. */
    method GetSolution1(input: seq<string>) returns (r: Result<int>)
      requires ParsePositions(input).Ok? ==> ValidStart(ParsePositions(input).value)
      modifies this
      ensures r == Solution1(input)
      ensures memo == old(memo)
      ensures r.Ok? ==> playersPositions == Play(Start(ParsePositions(input).value), 0).table.pos
    {
      var err := ExtractData(input);
      if err.Some? {
        return Fail(err.value);
      }
      var answer;
      playersPositions, answer := PlayGame(playersPositions);
      r := Ok(answer);
    }

    /**
     * `PerformSimulation`: a memoised universe gives its entry back; a finished game is one
     * win; otherwise the wins of the 27 universes the next three rolls open are added up and
     * memoised. Every universe the recursion memoises is nearer to the end than this one, so
     * this universe is not yet in the dictionary when it is added (`Dictionary.Add` would throw).
     */
    method PerformSimulation(initalState: State) returns (r: Wins)
      requires Valid() && ValidState(initalState) && diracDicePossibleOutcome == DiracOutcomes()
      modifies this
      ensures Valid() && r == CountWins(initalState)
      ensures playersPositions == old(playersPositions) && diracDicePossibleOutcome == old(diracDicePossibleOutcome)
      ensures old(memo).Keys <= memo.Keys
      ensures forall s :: s in memo && s !in old(memo) ==> Distance(s) <= Distance(initalState)
      decreases Distance(initalState)
    {
      if initalState in memo {
        return memo[initalState];
      }
      if initalState.p1Score >= 21 || initalState.p2Score >= 21 {
        return if initalState.p1Score >= 21 then Wins(1, 0) else Wins(0, 1);
      }
      OutcomesInRange();
      var p1TotalWin, p2TotalWin := 0, 0;
      for i := 0 to |diracDicePossibleOutcome|
        invariant Valid() && diracDicePossibleOutcome == DiracOutcomes() && playersPositions == old(playersPositions)
        invariant Wins(p1TotalWin, p2TotalWin) == SumWins(initalState, i)
        invariant old(memo).Keys <= memo.Keys
        invariant forall s :: s in memo && s !in old(memo) ==> Distance(s) < Distance(initalState)
      {
        var diceOutcome := diracDicePossibleOutcome[i];
        var p1NewPos, p1NewScore := initalState.p1Pos, initalState.p1Score;
        var p2NewPos, p2NewScore := initalState.p2Pos, initalState.p2Score;
        if initalState.turn % 2 == 0 {
          p1NewPos := Advance(p1NewPos, diceOutcome);
          p1NewScore := p1NewScore + p1NewPos + 1;
        } else {
          p2NewPos := Advance(p2NewPos, diceOutcome);
          p2NewScore := p2NewScore + p2NewPos + 1;
        }
        var next := State(p1NewPos, p1NewScore, p2NewPos, p2NewScore, initalState.turn + 1);
        assert next == Roll(initalState, diceOutcome);
        var result := PerformSimulation(next);
        SumWinsStep(initalState, i, next, result);
        p1TotalWin := p1TotalWin + result.p1Win;
        p2TotalWin := p2TotalWin + result.p2Win;
      }
      assert initalState !in memo;
      memo := memo[initalState := Wins(p1TotalWin, p2TotalWin)];
      r := Wins(p1TotalWin, p2TotalWin);
    }

    /**
     * Part two: count the wins of both players over all universes from the first two
     * positions, and give the largest entry of the win array.
     */
    method GetSolution2(input: seq<string>) returns (r: Result<int>)
      requires Valid()
      requires ParsePositions(input).Ok? ==> PlayableStart(ParsePositions(input).value)
      modifies this
      ensures Valid() && r == Solution2(input)
    {
      var err := ExtractData(input);
      if err.Some? {
        return Fail(err.value);
      }
      if |playersPositions| < 2 {
        return Fail("ArgumentOutOfRangeException");
      }
      var winPerPlayer := seq(|playersPositions|, k => 0);
      var w := PerformSimulation(State(playersPositions[0], 0, playersPositions[1], 0, 0));
      winPerPlayer := winPerPlayer[0 := w.p1Win][1 := w.p2Win];
      assert winPerPlayer == WinPerPlayer(w, |playersPositions|);
      r := Ok(Largest(winPerPlayer));
    }
  }

  /** The three nested loops that list the 27 outcomes. */
  method DiceOutcomes() returns (outcomes: seq<int>)
    ensures outcomes == DiracOutcomes()
  {
    outcomes := [];
    for roll1 := 1 to 4
      invariant |outcomes| == 9 * (roll1 - 1)
      invariant forall k :: 0 <= k < |outcomes| ==> outcomes[k] == OutcomeAt(k)
    {
      for roll2 := 1 to 4
        invariant |outcomes| == 9 * (roll1 - 1) + 3 * (roll2 - 1)
        invariant forall k :: 0 <= k < |outcomes| ==> outcomes[k] == OutcomeAt(k)
      {
        for roll3 := 1 to 4
          invariant |outcomes| == 9 * (roll1 - 1) + 3 * (roll2 - 1) + (roll3 - 1)
          invariant forall k :: 0 <= k < |outcomes| ==> outcomes[k] == OutcomeAt(k)
        {
          OutcomeIndex(roll1 - 1, roll2 - 1, roll3 - 1);
          outcomes := outcomes + [roll1 + roll2 + roll3];
        }
      }
    }
  }
}

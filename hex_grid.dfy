/**
 * QuickHexGrid: hexagonal tiles in the "double-height" and "double-width" coordinate
 * layouts, paths of moves written without separators, neighbours and distances
 * (AdventOfCode2021/Tools/QuickHexGrid.cs).
 */
module HexGrids {
  import opened Wrappers
  import opened PointExtensions

  datatype HexGridType = DoubleHeight | DoubleWidth

  /** The move dictionary, in insertion order: direction names and their vectors. */
  type MoveTable = seq<(string, Point)>

  /** Lines 28-50: the six moves of each layout. Every vector keeps the parity of x + y. */
  function Moves(gridType: HexGridType): (t: MoveTable)
    ensures |t| == 6
    ensures forall i :: 0 <= i < |t| ==> (t[i].1.x + t[i].1.y) % 2 == 0 && |t[i].0| >= 1
  {
    match gridType
    case DoubleHeight =>
      [("n", Point(0, 2)), ("ne", Point(1, 1)), ("se", Point(1, -1)),
       ("s", Point(0, -2)), ("sw", Point(-1, -1)), ("nw", Point(-1, 1))]
    case DoubleWidth =>
      [("e", Point(2, 0)), ("se", Point(1, -1)), ("sw", Point(-1, -1)),
       ("w", Point(-2, 0)), ("nw", Point(-1, 1)), ("ne", Point(1, 1))]
  }

  predicate IsKey(t: MoveTable, key: string)
  {
    exists i :: 0 <= i < |t| && t[i].0 == key
  }

  predicate AllKeys(t: MoveTable, keys: seq<string>)
  {
    forall k :: 0 <= k < |keys| ==> IsKey(t, keys[k])
  }

  /** `_hexMoveDic[key]`: the vector stored under a key. */
  function Vector(t: MoveTable, key: string): (v: Point)
    requires IsKey(t, key)
    ensures exists i :: 0 <= i < |t| && t[i] == (key, v)
  {
    if t[0].0 == key then t[0].1 else Vector(t[1..], key)
  }

  /** The path a list of moves spells out, without separators. */
  function Concat(keys: seq<string>): string
  {
    if keys == [] then "" else keys[0] + Concat(keys[1..])
  }

  predicate IsPrefix(key: string, path: string)
  {
    |key| <= |path| && path[..|key|] == key
  }

  /** Lines 71-76: the tile reached from start by the moves, added one after the other. */
  function Walk(t: MoveTable, start: Point, keys: seq<string>): Point
    requires AllKeys(t, keys)
  {
    if keys == [] then start
    else Add(Walk(t, start, keys[..|keys| - 1]), Vector(t, keys[|keys| - 1]))
  }

  // ---------------------------------------------------------------------------------------
  // Parsing a path as written: the first key of the table that is a prefix of the path.
  // ---------------------------------------------------------------------------------------

  /** Line 84: the first entry, in table order, whose key starts the path. */
  function FirstMatch(t: MoveTable, path: string, i: nat): (r: Option<nat>)
    requires i <= |t|
    ensures r.Some? ==> (i <= r.value < |t| && IsPrefix(t[r.value].0, path) &&
                         forall j :: i <= j < r.value ==> !IsPrefix(t[j].0, path))
    ensures r.None? ==> forall j :: i <= j < |t| ==> !IsPrefix(t[j].0, path)
    decreases |t| - i
  {
    if i == |t| then None
    else if IsPrefix(t[i].0, path) then Some(i)
    else FirstMatch(t, path, i + 1)
  }

  predicate NonEmptyKeys(t: MoveTable)
  {
    forall i :: 0 <= i < |t| ==> |t[i].0| >= 1
  }

  /**
   * Lines 79-92 as written. `None` stands for the case where no key starts the rest of the
   * path: the source's loop then makes no progress and never ends.
   */
  function AsWrittenMoves(t: MoveTable, path: string): Option<seq<string>>
    requires NonEmptyKeys(t)
    decreases |path|
  {
    if |path| == 0 then Some([])
    else match FirstMatch(t, path, 0)
      case None => None
      case Some(i) =>
        match AsWrittenMoves(t, path[|t[i].0|..])
        case None => None
        case Some(rest) => Some([t[i].0] + rest)
  }

  /**
   * In the double-height table "n" comes before "ne", so the path "ne", a single move,
   * is read as "n" followed by "e", and no key starts "e".
   */
  lemma NorthEastStalls()
    ensures Concat(["ne"]) == "ne" && IsKey(Moves(DoubleHeight), "ne")
    ensures AsWrittenMoves(Moves(DoubleHeight), "ne").None?
  {
    var t := Moves(DoubleHeight);
    assert t[1].0 == "ne";
    assert IsPrefix(t[0].0, "ne");
    assert FirstMatch(t, "ne", 0) == Some(0);
    assert "ne"[1..] == "e";
    assert forall j :: 0 <= j < |t| ==> !IsPrefix(t[j].0, "e") by {
      forall j | 0 <= j < |t|
        ensures !IsPrefix(t[j].0, "e")
      {
        assert |t[j].0| >= 1 && t[j].0[0] != 'e';
      }
    }
  }

  // ---------------------------------------------------------------------------------------
  // Parsing with the longest matching key.
  // ---------------------------------------------------------------------------------------

  /** The entry with the longest key that starts the path (the first among equals), from entry i on. */
  function LongestMatch(t: MoveTable, path: string, i: nat, best: Option<nat>): (r: Option<nat>)
    requires i <= |t|
    requires best.Some? ==> (best.value < i && IsPrefix(t[best.value].0, path) &&
                             forall j :: 0 <= j < i && IsPrefix(t[j].0, path) ==> |t[j].0| <= |t[best.value].0|)
    requires best.None? ==> forall j :: 0 <= j < i ==> !IsPrefix(t[j].0, path)
    ensures r.Some? ==> (r.value < |t| && IsPrefix(t[r.value].0, path) &&
                         forall j :: 0 <= j < |t| && IsPrefix(t[j].0, path) ==> |t[j].0| <= |t[r.value].0|)
    ensures r.None? ==> forall j :: 0 <= j < |t| ==> !IsPrefix(t[j].0, path)
    decreases |t| - i
  {
    if i == |t| then best
    else if IsPrefix(t[i].0, path) && (best.None? || |t[i].0| > |t[best.value].0|) then
      LongestMatch(t, path, i + 1, Some(i))
    else LongestMatch(t, path, i + 1, best)
  }

  /** The moves a path spells out, reading the longest matching key each time; `None` if none fits. */
  function ParseMoves(t: MoveTable, path: string): (r: Option<seq<string>>)
    requires NonEmptyKeys(t)
    decreases |path|
  {
    if |path| == 0 then Some([])
    else match LongestMatch(t, path, 0, None)
      case None => None
      case Some(i) =>
        match ParseMoves(t, path[|t[i].0|..])
        case None => None
        case Some(rest) => Some([t[i].0] + rest)
  }

  /** What ParseMoves returns is a list of table keys that spells out the path. */
  lemma {:induction false} ParseSound(t: MoveTable, path: string)
    requires NonEmptyKeys(t)
    ensures ParseMoves(t, path).Some? ==>
      AllKeys(t, ParseMoves(t, path).value) && Concat(ParseMoves(t, path).value) == path
    decreases |path|
  {
    if |path| > 0 {
      var m := LongestMatch(t, path, 0, None);
      if m.Some? {
        var key := t[m.value].0;
        ParseSound(t, path[|key|..]);
        var rest := ParseMoves(t, path[|key|..]);
        if rest.Some? {
          var keys := [key] + rest.value;
          assert keys[1..] == rest.value;
          assert IsKey(t, keys[0]);
          assert forall k :: 1 <= k < |keys| ==> keys[k] == rest.value[k - 1];
          assert path == key + path[|key|..];
        }
      }
    }
  }

  /**
   * A table is read unambiguously by longest match when its keys are distinct and non-empty,
   * and whenever a key extends a shorter key, the character after the shorter key begins no key.
   */
  predicate Decodable(t: MoveTable)
  {
    NonEmptyKeys(t) &&
    (forall i, j :: 0 <= i < j < |t| ==> t[i].0 != t[j].0) &&
    (forall i, j, m ::
       (0 <= i < |t| && 0 <= j < |t| && 0 <= m < |t| && |t[i].0| < |t[j].0| && IsPrefix(t[i].0, t[j].0)) ==>
       t[m].0[0] != t[j].0[|t[i].0|])
  }

  /** The first letters and the lengths of the keys of a table. */
  predicate KeyShapes(t: MoveTable, firsts: set<char>, seconds: set<char>)
  {
    forall i :: 0 <= i < |t| ==>
      1 <= |t[i].0| <= 2 && t[i].0[0] in firsts && (|t[i].0| == 2 ==> t[i].0[1] in seconds)
  }

  /** Keys that differ in length or in a letter are distinct. */
  lemma DistinctKeys(t: MoveTable)
    requires |t| == 6 && forall i :: 0 <= i < |t| ==> 1 <= |t[i].0| <= 2
    requires forall i, j :: 0 <= i < j < |t| ==>
      |t[i].0| != |t[j].0| || t[i].0[0] != t[j].0[0] || (|t[i].0| == 2 && t[i].0[1] != t[j].0[1])
    ensures forall i, j :: 0 <= i < j < |t| ==> t[i].0 != t[j].0
  {
  }

  /** Double-height: "n" and "s" are extended only by "e" and "w", which begin no key. */
  lemma DoubleHeightDecodable()
    ensures Decodable(Moves(DoubleHeight))
  {
    var t := Moves(DoubleHeight);
    assert KeyShapes(t, {'n', 's'}, {'e', 'w'});
    DistinctKeys(t);
    forall i, j, m | 0 <= i < |t| && 0 <= j < |t| && 0 <= m < |t| && |t[i].0| < |t[j].0| && IsPrefix(t[i].0, t[j].0)
      ensures t[m].0[0] != t[j].0[|t[i].0|]
    {
      assert |t[i].0| == 1;
    }
  }

  /** Double-width: no key is a prefix of another. */
  lemma DoubleWidthDecodable()
    ensures Decodable(Moves(DoubleWidth))
  {
    var t := Moves(DoubleWidth);
    DistinctKeys(t);
    forall i, j | 0 <= i < |t| && 0 <= j < |t| && |t[i].0| < |t[j].0|
      ensures !IsPrefix(t[i].0, t[j].0)
    {
      assert t[i].0[0] != t[j].0[0];
    }
  }

  lemma MovesDecodable(gridType: HexGridType)
    ensures Decodable(Moves(gridType))
  {
    if gridType == DoubleHeight {
      DoubleHeightDecodable();
    } else {
      DoubleWidthDecodable();
    }
  }

  /** Two keys that both start a path and have the same length are the same key. */
  lemma SamePrefix(a: string, b: string, path: string)
    requires IsPrefix(a, path) && IsPrefix(b, path) && |a| <= |b|
    ensures IsPrefix(a, b)
  {
    assert b[..|a|] == path[..|b|][..|a|];
  }

  /** In a decodable table, the longest key starting `key + rest` is `key` itself. */
  lemma LongestIsFirst(t: MoveTable, key: string, rest: seq<string>)
    requires Decodable(t) && IsKey(t, key) && AllKeys(t, rest)
    ensures var path := key + Concat(rest);
      var m := LongestMatch(t, path, 0, None);
      m.Some? && t[m.value].0 == key
  {
    var path := key + Concat(rest);
    var i :| 0 <= i < |t| && t[i].0 == key;
    assert IsPrefix(key, path) by {
      assert path[..|key|] == key;
    }
    var m := LongestMatch(t, path, 0, None);
    var j := m.value;
    var found := t[j].0;
    SamePrefix(key, found, path);
    if |key| < |found| {
      // The character after `key` in `found` would start the next key of the path.
      assert false;
    }
    assert found == path[..|key|] == key;
  }

  function Prepend(key: string, moves: Option<seq<string>>): Option<seq<string>>
  {
    match moves
    case None => None
    case Some(rest) => Some([key] + rest)
  }

  /** One step of ParseMoves: the longest matching key, then the rest of the path. */
  lemma ParseStep(t: MoveTable, path: string, key: string)
    requires NonEmptyKeys(t) && |path| > 0
    requires var m := LongestMatch(t, path, 0, None); m.Some? && t[m.value].0 == key
    ensures ParseMoves(t, path) == Prepend(key, ParseMoves(t, path[|key|..]))
  {
  }

  lemma AllKeysTail(t: MoveTable, keys: seq<string>)
    requires AllKeys(t, keys) && keys != []
    ensures IsKey(t, keys[0]) && AllKeys(t, keys[1..])
  {
    forall k | 0 <= k < |keys[1..]|
      ensures IsKey(t, keys[1..][k])
    {
      assert keys[1..][k] == keys[k + 1];
    }
  }

  /** A key put in front of a path that reads back: the longer path reads back too. */
  lemma ParseCons(t: MoveTable, key: string, rest: seq<string>)
    requires Decodable(t) && IsKey(t, key) && AllKeys(t, rest)
    requires ParseMoves(t, Concat(rest)) == Some(rest)
    ensures ParseMoves(t, key + Concat(rest)) == Some([key] + rest)
  {
    var path := key + Concat(rest);
    LongestIsFirst(t, key, rest);
    var i :| 0 <= i < |t| && t[i].0 == key;
    assert |path| > 0 by {
      assert |t[i].0| >= 1;
    }
    ParseStep(t, path, key);
    assert path[|key|..] == Concat(rest);
  }

  /** Longest match reads back every list of moves: the round trip of `Concat`. */
  lemma {:induction false} ParseConcat(t: MoveTable, keys: seq<string>)
    requires Decodable(t) && AllKeys(t, keys)
    ensures ParseMoves(t, Concat(keys)) == Some(keys)
    decreases |keys|
  {
    if keys != [] {
      var key, rest := keys[0], keys[1..];
      AllKeysTail(t, keys);
      ParseConcat(t, rest);
      ParseCons(t, key, rest);
      assert Concat(keys) == key + Concat(rest);
      assert [key] + rest == keys;
    }
  }

  // ---------------------------------------------------------------------------------------
  // Walks: where a list of moves leads.
  // ---------------------------------------------------------------------------------------

  lemma {:induction false} VectorAt(t: MoveTable, i: nat)
    requires i < |t| && forall a, b :: 0 <= a < b < |t| ==> t[a].0 != t[b].0
    ensures IsKey(t, t[i].0) && Vector(t, t[i].0) == t[i].1
    decreases i
  {
    if i > 0 {
      var u := t[1..];
      assert u[i - 1] == t[i];
      VectorAt(u, i - 1);
    }
  }

  /** The vector of the move at entry i of a layout's table. */
  lemma MoveVector(gridType: HexGridType, i: nat)
    requires i < 6
    ensures IsKey(Moves(gridType), Moves(gridType)[i].0)
    ensures Vector(Moves(gridType), Moves(gridType)[i].0) == Moves(gridType)[i].1
  {
    MovesDecodable(gridType);
    VectorAt(Moves(gridType), i);
  }

  lemma AllKeysAppend(t: MoveTable, a: seq<string>, b: seq<string>)
    requires AllKeys(t, a) && AllKeys(t, b)
    ensures AllKeys(t, a + b)
  {
    forall k | 0 <= k < |a + b|
      ensures IsKey(t, (a + b)[k])
    {
      if k >= |a| {
        assert (a + b)[k] == b[k - |a|];
      }
    }
  }

  /** Following moves one list after the other reaches the same tile as following both at once. */
  lemma {:induction false} WalkAppend(t: MoveTable, start: Point, a: seq<string>, b: seq<string>)
    requires AllKeys(t, a) && AllKeys(t, b)
    ensures AllKeys(t, a + b) && Walk(t, start, a + b) == Walk(t, Walk(t, start, a), b)
    decreases |b|
  {
    AllKeysAppend(t, a, b);
    if b == [] {
      assert a + b == a;
    } else {
      var b0 := b[..|b| - 1];
      AllKeysInit(t, b);
      WalkAppend(t, start, a, b0);
      assert (a + b)[..|a + b| - 1] == a + b0;
      assert (a + b)[|a + b| - 1] == b[|b| - 1];
    }
  }

  lemma AllKeysInit(t: MoveTable, keys: seq<string>)
    requires AllKeys(t, keys) && keys != []
    ensures AllKeys(t, keys[..|keys| - 1]) && IsKey(t, keys[|keys| - 1])
  {
    var rest := keys[..|keys| - 1];
    assert forall k :: 0 <= k < |rest| ==> rest[k] == keys[k];
  }

  /** Every vector of the table keeps the parity of x + y. */
  predicate EvenMoves(t: MoveTable)
  {
    forall i :: 0 <= i < |t| ==> (t[i].1.x + t[i].1.y) % 2 == 0
  }

  lemma ParityStep(start: Point, end: Point, v: Point)
    requires (end.x + end.y - start.x - start.y) % 2 == 0 && (v.x + v.y) % 2 == 0
    ensures (Add(end, v).x + Add(end, v).y - start.x - start.y) % 2 == 0
  {
  }

  /** Every move keeps the parity of x + y, so every walk does. */
  lemma {:induction false} WalkParity(t: MoveTable, start: Point, keys: seq<string>)
    requires EvenMoves(t) && AllKeys(t, keys)
    ensures var end := Walk(t, start, keys);
      (end.x + end.y - start.x - start.y) % 2 == 0
    decreases |keys|
  {
    if keys != [] {
      AllKeysInit(t, keys);
      var rest, key := keys[..|keys| - 1], keys[|keys| - 1];
      WalkParity(t, start, rest);
      var i :| 0 <= i < |t| && t[i] == (key, Vector(t, key));
      ParityStep(start, Walk(t, start, rest), Vector(t, key));
    }
  }

  // ---------------------------------------------------------------------------------------
  // Distances.
  // ---------------------------------------------------------------------------------------

  function Min(a: int, b: int): int { if a <= b then a else b }
  function Max(a: int, b: int): int { if a <= b then b else a }

  /** Lines 104-109 as written: min(dx, dy) + (max(dx, dy) - min(dx, dy)) / 2, whatever the layout. */
  function ComputeDistance(p1: Point, p2: Point): (r: nat)
    ensures r <= Abs(p2.x - p1.x) + Abs(p2.y - p1.y)
  {
    var x := Abs(p2.x - p1.x);
    var y := Abs(p2.y - p1.y);
    Min(x, y) + (Max(x, y) - Min(x, y)) / 2
  }

  /** ComputeDistance does not depend on the order of its arguments, and between tiles of the same parity it is 0 only for one tile. */
  lemma ComputeDistanceMetric(p1: Point, p2: Point)
    ensures ComputeDistance(p1, p2) == ComputeDistance(p2, p1)
    ensures (p2.x + p2.y - p1.x - p1.y) % 2 == 0 ==> (ComputeDistance(p1, p2) == 0 <==> p1 == p2)
  {
  }

  predicate SameParity(p: Point, q: Point)
  {
    (q.x + q.y - p.x - p.y) % 2 == 0
  }

  /**
   * The number of moves between two tiles of the same parity: in double-height coordinates the
   * column difference plus half of what the row difference has in excess of it, and in
   * double-width coordinates the same with the axes exchanged.
   */
  function HexDistance(gridType: HexGridType, p1: Point, p2: Point): (r: nat)
    ensures SameParity(p1, p2) ==> (r == 0 <==> p1 == p2)
  {
    var x := Abs(p2.x - p1.x);
    var y := Abs(p2.y - p1.y);
    match gridType
    case DoubleHeight => x + Max(0, y - x) / 2
    case DoubleWidth => y + Max(0, x - y) / 2
  }

  /** One move changes the coordinates by at most this much. */
  predicate SmallStep(gridType: HexGridType, v: Point)
  {
    match gridType
    case DoubleHeight => Abs(v.x) <= 1 && Abs(v.x) + Abs(v.y) <= 2
    case DoubleWidth => Abs(v.y) <= 1 && Abs(v.x) + Abs(v.y) <= 2
  }

  /** A walk of n moves moves at most n on the narrow axis and 2n on both axes together. */
  predicate Span(gridType: HexGridType, start: Point, end: Point, n: nat)
  {
    var x := Abs(end.x - start.x);
    var y := Abs(end.y - start.y);
    x + y <= 2 * n &&
    match gridType
    case DoubleHeight => x <= n
    case DoubleWidth => y <= n
  }

  lemma SpanStep(gridType: HexGridType, start: Point, end: Point, v: Point, n: nat)
    requires Span(gridType, start, end, n) && SmallStep(gridType, v)
    ensures Span(gridType, start, Add(end, v), n + 1)
  {
  }

  lemma {:induction false} WalkSpan(gridType: HexGridType, t: MoveTable, start: Point, keys: seq<string>)
    requires (forall i :: 0 <= i < |t| ==> SmallStep(gridType, t[i].1)) && AllKeys(t, keys)
    ensures Span(gridType, start, Walk(t, start, keys), |keys|)
    decreases |keys|
  {
    if keys != [] {
      AllKeysInit(t, keys);
      var rest, key := keys[..|keys| - 1], keys[|keys| - 1];
      WalkSpan(gridType, t, start, rest);
      var i :| 0 <= i < |t| && t[i] == (key, Vector(t, key));
      SpanStep(gridType, start, Walk(t, start, rest), Vector(t, key), |rest|);
    }
  }

  /** No walk reaches a tile in fewer moves than HexDistance. */
  lemma MinimalMoves(gridType: HexGridType, start: Point, keys: seq<string>)
    requires AllKeys(Moves(gridType), keys)
    ensures HexDistance(gridType, start, Walk(Moves(gridType), start, keys)) <= |keys|
  {
    var t := Moves(gridType);
    assert forall i :: 0 <= i < |t| ==> SmallStep(gridType, t[i].1);
    WalkSpan(gridType, t, start, keys);
  }

  /** The entry of the table that moves from p toward q. */
  function Toward(gridType: HexGridType, p: Point, q: Point): (i: nat)
    ensures i < 6
  {
    var x := q.x - p.x;
    var y := q.y - p.y;
    match gridType
    case DoubleHeight =>
      if x > 0 then (if y >= 0 then 1 else 2)
      else if x < 0 then (if y >= 0 then 5 else 4)
      else if y > 0 then 0 else 3
    case DoubleWidth =>
      if y > 0 then (if x >= 0 then 5 else 4)
      else if y < 0 then (if x >= 0 then 1 else 2)
      else if x > 0 then 0 else 3
  }


  /** The move toward q brings the tile one move closer. */
  lemma TowardCloser(gridType: HexGridType, p: Point, q: Point)
    requires p != q && SameParity(p, q)
    ensures var next := Add(p, Moves(gridType)[Toward(gridType, p, q)].1);
      SameParity(next, q) && HexDistance(gridType, next, q) + 1 == HexDistance(gridType, p, q)
  {
  }

  /** A shortest list of moves from p to q. */
  function Route(gridType: HexGridType, p: Point, q: Point): seq<string>
    requires SameParity(p, q)
    decreases HexDistance(gridType, p, q)
  {
    if p == q then []
    else
      var i := Toward(gridType, p, q);
      TowardCloser(gridType, p, q);
      [Moves(gridType)[i].0] + Route(gridType, Add(p, Moves(gridType)[i].1), q)
  }

  /** Every tile of the same parity is reached in exactly HexDistance moves. */
  lemma {:induction false} RouteReaches(gridType: HexGridType, p: Point, q: Point)
    requires SameParity(p, q)
    ensures var r := Route(gridType, p, q);
      AllKeys(Moves(gridType), r) && |r| == HexDistance(gridType, p, q) && Walk(Moves(gridType), p, r) == q
    decreases HexDistance(gridType, p, q)
  {
    if p != q {
      var t := Moves(gridType);
      var i := Toward(gridType, p, q);
      TowardCloser(gridType, p, q);
      var next := Add(p, t[i].1);
      RouteReaches(gridType, next, q);
      var rest := Route(gridType, next, q);
      MoveVector(gridType, i);
      assert AllKeys(t, [t[i].0]);
      assert Walk(t, p, [t[i].0]) == next by {
        assert [t[i].0][..0] == [];
      }
      WalkAppend(t, p, [t[i].0], rest);
    }
  }

  /** ComputeDistance is HexDistance of the layout whose narrow axis carries the smaller difference, and never more than either. */
  lemma ComputeDistanceLayouts(p1: Point, p2: Point)
    ensures ComputeDistance(p1, p2) <= HexDistance(DoubleHeight, p1, p2)
    ensures ComputeDistance(p1, p2) <= HexDistance(DoubleWidth, p1, p2)
    ensures Abs(p2.x - p1.x) <= Abs(p2.y - p1.y) ==> ComputeDistance(p1, p2) == HexDistance(DoubleHeight, p1, p2)
    ensures Abs(p2.y - p1.y) <= Abs(p2.x - p1.x) ==> ComputeDistance(p1, p2) == HexDistance(DoubleWidth, p1, p2)
  {
  }

  /**
   * ComputeDistance is below the number of moves needed in either layout: (1, 3) is two away
   * from the origin by the formula, yet no double-width walk gets there in fewer than three
   * moves, and likewise (3, 1) in double-height coordinates.
   */
  lemma DistanceUnderestimates(keys: seq<string>)
    ensures ComputeDistance(Point(0, 0), Point(1, 3)) == 2 && ComputeDistance(Point(0, 0), Point(3, 1)) == 2
    ensures AllKeys(Moves(DoubleWidth), keys) && Walk(Moves(DoubleWidth), Point(0, 0), keys) == Point(1, 3) ==> |keys| >= 3
    ensures AllKeys(Moves(DoubleHeight), keys) && Walk(Moves(DoubleHeight), Point(0, 0), keys) == Point(3, 1) ==> |keys| >= 3
  {
    if AllKeys(Moves(DoubleWidth), keys) {
      MinimalMoves(DoubleWidth, Point(0, 0), keys);
    }
    if AllKeys(Moves(DoubleHeight), keys) {
      MinimalMoves(DoubleHeight, Point(0, 0), keys);
    }
  }

  // ---------------------------------------------------------------------------------------
  // The grid object.
  // ---------------------------------------------------------------------------------------

  /** One move from p, by the key at entry i, lands on p plus that entry's vector. */
  lemma OneMove(t: MoveTable, p: Point)
    requires Decodable(t)
    ensures forall i :: 0 <= i < |t| ==>
      AllKeys(t, [t[i].0]) && Walk(t, p, [t[i].0]) == Add(p, t[i].1)
  {
    forall i | 0 <= i < |t|
      ensures AllKeys(t, [t[i].0]) && Walk(t, p, [t[i].0]) == Add(p, t[i].1)
    {
      VectorAt(t, i);
      assert [t[i].0][..0] == [];
    }
  }

  /** The tiles of the square [-d, d] x [-d, d] filled so far: whole columns before x, then rows before y. */
  ghost predicate Filled(tiles: map<Point, bool>, d: int, x: int, y: int)
  {
    (forall p :: p in tiles <==> (-d <= p.x < x && -d <= p.y <= d) || (p.x == x && -d <= p.y < y)) &&
    (forall p :: p in tiles ==> !tiles[p])
  }

  /** All (2d + 1)^2 tiles with both coordinates in [-d, d], every one off. */
  ghost predicate Square(tiles: map<Point, bool>, d: int)
  {
    (forall p :: p in tiles <==> -d <= p.x <= d && -d <= p.y <= d) &&
    (forall p :: p in tiles ==> !tiles[p]) &&
    |tiles| == if d >= 0 then (2 * d + 1) * (2 * d + 1) else 0
  }

  /** Lines 55-59: the column x of the square, every tile set to false. */
  method FillColumn(tiles: map<Point, bool>, d: int, x: int) returns (filled: map<Point, bool>)
    requires -d <= x <= d && Filled(tiles, d, x, -d)
    ensures Filled(filled, d, x + 1, -d) && |filled| == |tiles| + (2 * d + 1)
  {
    filled := tiles;
    var y := -d;
    while y <= d
      invariant -d <= y <= d + 1
      invariant Filled(filled, d, x, y) && |filled| == |tiles| + (y + d)
      decreases d - y
    {
      FilledStep(filled, d, x, y);
      filled := filled[Point(x, y) := false];
      y := y + 1;
    }
    ColumnDone(filled, d, x);
  }

  lemma FilledStep(tiles: map<Point, bool>, d: int, x: int, y: int)
    requires Filled(tiles, d, x, y) && -d <= y <= d
    ensures Point(x, y) !in tiles && Filled(tiles[Point(x, y) := false], d, x, y + 1)
  {
  }

  lemma ColumnDone(tiles: map<Point, bool>, d: int, x: int)
    requires -d <= x && Filled(tiles, d, x, d + 1)
    ensures Filled(tiles, d, x + 1, -d)
  {
  }

  /** Lines 52-60: every tile of the square, set to false. */
  method CreateTiles(maxDistanceFromCenter: int) returns (tiles: map<Point, bool>)
    ensures Square(tiles, maxDistanceFromCenter)
  {
    var d := maxDistanceFromCenter;
    tiles := map[];
    var x := -d;
    while x <= d
      invariant d >= 0 ==> -d <= x <= d + 1
      invariant Filled(tiles, d, x, -d) && |tiles| == (x + d) * (2 * d + 1)
      decreases d - x
    {
      tiles := FillColumn(tiles, d, x);
      assert (x + d) * (2 * d + 1) + (2 * d + 1) == (x + 1 + d) * (2 * d + 1);
      x := x + 1;
    }
    if d < 0 {
      assert tiles == map[];
    }
  }

  /** A grid of hexagonal tiles, each on or off, with the move table of its layout. */
  class QuickHexGrid {
    const gridType: HexGridType
    const moveTable: MoveTable
    var hexTiles: map<Point, bool>

    /** Lines 22-24: a double-height grid with the single tile (0, 0), off. */
    constructor Default()
      ensures gridType == DoubleHeight && moveTable == Moves(DoubleHeight) && Decodable(moveTable)
      ensures Square(hexTiles, 0)
    {
      gridType := DoubleHeight;
      moveTable := Moves(DoubleHeight);
      MovesDecodable(DoubleHeight);
      var tiles := CreateTiles(0);
      hexTiles := tiles;
    }

    /** Lines 26-61: the move table of the layout and the square of tiles within the distance, all off. */
    constructor (gridType: HexGridType, maxDistanceFromCenter: int)
      ensures this.gridType == gridType && moveTable == Moves(gridType) && Decodable(moveTable)
      ensures Square(hexTiles, maxDistanceFromCenter)
    {
      this.gridType := gridType;
      moveTable := Moves(gridType);
      MovesDecodable(gridType);
      var tiles := CreateTiles(maxDistanceFromCenter);
      hexTiles := tiles;
    }

    /** Lines 63-66: replaces every tile by a copy of the given state. */
    method SetAllTiles(newState: map<Point, bool>)
      modifies this
      ensures hexTiles == newState
    {
      hexTiles := newState;
    }

    predicate IsOn(position: Point)
      reads this
    {
      position in hexTiles && hexTiles[position]
    }

    /**
     * Lines 94-102: one answer per move of the table, in table order: whether the tile that
     * move leads to exists and is on.
     */
    function GetNeighbours(position: Point): (r: seq<bool>)
      requires Decodable(moveTable)
      reads this
      ensures |r| == |moveTable|
      ensures forall i :: 0 <= i < |r| ==> (AllKeys(moveTable, [moveTable[i].0]) &&
        (r[i] <==> IsOn(Walk(moveTable, position, [moveTable[i].0]))))
    {
      OneMove(moveTable, position);
      seq(|moveTable|, i requires 0 <= i < |moveTable| reads this => IsOn(Add(position, moveTable[i].1)))
    }

    /** The longest key of the table that starts the path (the search of line 84, corrected). */
    method MatchKey(path: string) returns (m: Option<nat>)
      ensures m == LongestMatch(moveTable, path, 0, None)
    {
      var best: Option<nat> := None;
      for i := 0 to |moveTable|
        invariant Best(moveTable, path, i, best)
        invariant LongestMatch(moveTable, path, i, best) == LongestMatch(moveTable, path, 0, None)
      {
        var key := moveTable[i].0;
        if |key| <= |path| && path[..|key|] == key && (best.None? || |key| > |moveTable[best.value].0|) {
          best := Some(i);
        }
      }
      return best;
    }

    /**
     * Lines 79-92 with the longest key taken at each step: the moves the path spells out, or
     * `None` where no key fits the rest of the path.
     */
    method GetMoves(path: string) returns (r: Option<seq<string>>)
      requires Decodable(moveTable)
      ensures r == ParseMoves(moveTable, path)
    {
      var rest := path;
      var moves: seq<string> := [];
      var whole := ParseMoves(moveTable, path);
      assert Join(moves, whole) == whole by {
        if whole.Some? {
          assert [] + whole.value == whole.value;
        }
      }
      while |rest| > 0
        invariant ParseMoves(moveTable, path) == Join(moves, ParseMoves(moveTable, rest))
        decreases |rest|
      {
        var m := MatchKey(rest);
        if m.None? {
          return None;
        }
        var key := moveTable[m.value].0;
        ParseStep(moveTable, rest, key);
        JoinPrepend(moves, key, ParseMoves(moveTable, rest[|key|..]));
        rest := rest[|key|..];
        moves := moves + [key];
      }
      assert moves + [] == moves;
      return Some(moves);
    }

    /**
     * Lines 68-77: the tile reached from startTile by the moves of the path. A path that spells
     * out a list of moves leads where those moves lead.
     */
    method GetTileCoordinate(startTile: Point, pathWithoutSeparators: string) returns (r: Option<Point>)
      requires Decodable(moveTable)
      ensures r == TileCoordinate(moveTable, startTile, pathWithoutSeparators)
      ensures forall keys :: AllKeys(moveTable, keys) && Concat(keys) == pathWithoutSeparators ==>
        r == Some(Walk(moveTable, startTile, keys))
    {
      CoordinateOfConcat(moveTable, startTile, pathWithoutSeparators);
      var moves := GetMoves(pathWithoutSeparators);
      if moves.None? {
        return None;
      }
      ParseSound(moveTable, pathWithoutSeparators);
      var result := Follow(startTile, moves.value);
      return Some(result);
    }

    /** Lines 71-76: the moves' vectors added one after the other to the start tile. */
    method Follow(startTile: Point, moves: seq<string>) returns (result: Point)
      requires AllKeys(moveTable, moves)
      ensures result == Walk(moveTable, startTile, moves)
    {
      result := startTile;
      for i := 0 to |moves|
        invariant AllKeys(moveTable, moves[..i]) && result == Walk(moveTable, startTile, moves[..i])
      {
        WalkPrefix(moveTable, startTile, moves, i);
        result := Add(result, Vector(moveTable, moves[i]));
      }
      assert moves[..|moves|] == moves;
    }
  }

  /** The invariant of the search for the longest key over entries before i. */
  predicate Best(t: MoveTable, path: string, i: nat, best: Option<nat>)
  {
    i <= |t| &&
    (best.Some? ==> (best.value < i && IsPrefix(t[best.value].0, path) &&
                     forall j :: 0 <= j < i && IsPrefix(t[j].0, path) ==> |t[j].0| <= |t[best.value].0|)) &&
    (best.None? ==> forall j :: 0 <= j < i ==> !IsPrefix(t[j].0, path))
  }

  lemma WalkPrefix(t: MoveTable, start: Point, keys: seq<string>, i: nat)
    requires i < |keys| && AllKeys(t, keys[..i]) && AllKeys(t, keys)
    ensures AllKeys(t, keys[..i + 1])
    ensures Walk(t, start, keys[..i + 1]) == Add(Walk(t, start, keys[..i]), Vector(t, keys[i]))
  {
    assert keys[..i + 1][..i] == keys[..i];
    assert forall k :: 0 <= k < i + 1 ==> keys[..i + 1][k] == keys[k];
  }

  /** A path spelling out a list of keys leads where that list leads. */
  lemma CoordinateOfConcat(t: MoveTable, start: Point, path: string)
    requires Decodable(t)
    ensures forall keys :: AllKeys(t, keys) && Concat(keys) == path ==>
      TileCoordinate(t, start, path) == Some(Walk(t, start, keys))
  {
    forall keys | AllKeys(t, keys) && Concat(keys) == path
      ensures TileCoordinate(t, start, path) == Some(Walk(t, start, keys))
    {
      ParseConcat(t, keys);
    }
  }

  /** The tile the moves of a path lead to from start, or `None` if the path does not parse. */
  function TileCoordinate(t: MoveTable, start: Point, path: string): Option<Point>
    requires NonEmptyKeys(t)
  {
    ParseSound(t, path);
    match ParseMoves(t, path)
    case None => None
    case Some(keys) => Some(Walk(t, start, keys))
  }

  function Join(moves: seq<string>, rest: Option<seq<string>>): Option<seq<string>>
  {
    match rest
    case None => None
    case Some(more) => Some(moves + more)
  }

  lemma JoinPrepend(moves: seq<string>, key: string, rest: Option<seq<string>>)
    ensures Join(moves, Prepend(key, rest)) == Join(moves + [key], rest)
  {
    if rest.Some? {
      assert moves + ([key] + rest.value) == moves + [key] + rest.value;
    }
  }
}

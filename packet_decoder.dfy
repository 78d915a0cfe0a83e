/**
 * PacketDecoder: the BITS transmission of the Day 16 solver.
 *
 * The hexadecimal input is read into one big natural number, four bits per character; the
 * number is then mirrored so that the first bit of the transmission is its least significant
 * bit, and packets are read off the low end with masks and right shifts. Here a natural number
 * stands for the C# BigInteger, and the bits of a number are related to a sequence of booleans
 * (`LowBits`, `Num`) so that the decoder can be proved the inverse of an encoder.
 */
module PacketDecoder {
  import opened Wrappers
  import Bits

  // ---------------------------------------------------------------------------------------
  // Bits of a natural number
  // ---------------------------------------------------------------------------------------

  function Pow2(k: nat): nat { Bits.Pow2(k) }

  /** The n lowest bits of v, least significant first (what `value & 1; value >>= 1` visits). */
  function LowBits(v: nat, n: nat): (b: seq<bool>)
    ensures |b| == n
  {
    if n == 0 then [] else [v % 2 == 1] + LowBits(v / 2, n - 1)
  }

  /** The number whose bits, least significant first, are b. */
  function Num(b: seq<bool>): nat
  {
    if |b| == 0 then 0 else (if b[0] then 1 else 0) + 2 * Num(b[1..])
  }

  function Reverse(b: seq<bool>): (r: seq<bool>)
    ensures |r| == |b|
    ensures forall i :: 0 <= i < |b| ==> r[i] == b[|b| - 1 - i]
  {
    if |b| == 0 then [] else Reverse(b[1..]) + [b[0]]
  }

  /** `MirrorBits(value, bitCount)`: the lowest bitCount bits of value in the opposite order. */
  function Mirror(v: nat, n: nat): nat
  {
    Num(Reverse(LowBits(v, n)))
  }

  /** A field of width k as it stands in the transmission: most significant bit first. */
  function FieldBits(x: nat, k: nat): (b: seq<bool>)
    ensures |b| == k
  {
    Reverse(LowBits(x, k))
  }

  lemma MulCommutes(m: int, q: int, p: int)
    requires p == m * q
    ensures p == q * m
  {
  }

  lemma DivModUnique(n: int, m: int, q: int, r: int)
    requires m > 0 && 0 <= r < m && n == q * m + r
    ensures n / m == q && n % m == r
  {
    var q0, r0 := n / m, n % m;
    assert (q - q0) * m == r0 - r;
    if q > q0 {
      MulAtLeast(q - q0, m);
    } else if q < q0 {
      MulAtLeast(q0 - q, m);
    }
  }

  lemma DivBounds(d: int, m: int)
    requires d >= 0 && m >= 1
    ensures 0 <= d / m <= d
    ensures d > 0 && m >= 2 ==> d / m < d
  {
    var q, r := d / m, d % m;
    assert d == q * m + r;
    if q < 0 {
      MulAtLeast(-q, m);
    }
    if q > d {
      MulAtLeast(m, q);
    }
    if d > 0 && m >= 2 && q >= d {
      MulAtLeast(m - 1, q);
    }
  }

  lemma MulAtLeast(k: int, m: int)
    requires k >= 1 && m > 0
    ensures k * m >= m
  {
    assert k * m == (k - 1) * m + m;
  }

  lemma Pow2Add(a: nat, b: nat)
    ensures Pow2(a + b) == Pow2(a) * Pow2(b)
    decreases a
  {
    if a > 0 {
      Pow2Add(a - 1, b);
    }
  }

  lemma {:induction false} NumBound(b: seq<bool>)
    ensures Num(b) < Pow2(|b|)
    decreases |b|
  {
    if |b| > 0 {
      NumBound(b[1..]);
    }
  }

  lemma {:induction false} NumAppend(a: seq<bool>, t: seq<bool>)
    ensures Num(a + t) == Num(a) + Pow2(|a|) * Num(t)
    decreases |a|
  {
    if |a| > 0 {
      assert (a + t)[1..] == a[1..] + t;
      assert (a + t)[0] == a[0];
      NumAppend(a[1..], t);
      var bit := if a[0] then 1 else 0;
      Regroup(bit, Num(a[1..]), Pow2(|a| - 1), Num(t));
    } else {
      assert a + t == t;
    }
  }

  lemma Regroup(bit: int, x: int, p: int, y: int)
    ensures bit + 2 * (x + p * y) == (bit + 2 * x) + (2 * p) * y
  {
  }

  /** Masking off |a| bits of the number of a + t gives a, shifting them out gives t. */
  lemma SplitNum(a: seq<bool>, t: seq<bool>)
    ensures Num(a + t) % Pow2(|a|) == Num(a)
    ensures Num(a + t) / Pow2(|a|) == Num(t)
  {
    var n, m, q, r := Num(a + t), Pow2(|a|), Num(t), Num(a);
    assert n == r + m * q by {
      NumAppend(a, t);
    }
    assert r < m by {
      NumBound(a);
    }
    assert n == q * m + r by {
      MulCommutes(m, q, n - r);
    }
    DivModUnique(n, m, q, r);
  }

  lemma {:induction false} LowBitsNum(v: nat, n: nat)
    ensures Num(LowBits(v, n)) == v % Pow2(n)
    decreases n
  {
    if n > 0 {
      LowBitsNum(v / 2, n - 1);
      ModDouble(v, Pow2(n - 1));
    }
  }

  lemma ModDouble(v: nat, p: nat)
    requires p >= 1
    ensures v % (2 * p) == v % 2 + 2 * ((v / 2) % p)
  {
    var q, r := (v / 2) / p, (v / 2) % p;
    assert v / 2 == q * p + r;
    assert v == q * (2 * p) + (2 * r + v % 2);
    DivModUnique(v, 2 * p, q, 2 * r + v % 2);
  }

  lemma {:induction false} NumLowBits(b: seq<bool>)
    ensures LowBits(Num(b), |b|) == b
    decreases |b|
  {
    if |b| > 0 {
      var bit := if b[0] then 1 else 0;
      DivModUnique(Num(b), 2, Num(b[1..]), bit);
      NumLowBits(b[1..]);
    }
  }

  lemma ReverseReverse(b: seq<bool>)
    ensures Reverse(Reverse(b)) == b
  {
  }

  lemma {:induction false} ReverseAppend(a: seq<bool>, b: seq<bool>)
    ensures Reverse(a + b) == Reverse(b) + Reverse(a)
  {
    assert Reverse(a + b) == Reverse(b) + Reverse(a);
  }

  /** The mirrored value fits in the bits it was given. */
  lemma MirrorBound(v: nat, n: nat)
    ensures Mirror(v, n) < Pow2(n)
  {
    NumBound(Reverse(LowBits(v, n)));
  }

  /** Mirroring twice gives back the bits that were mirrored. */
  lemma MirrorInvolution(v: nat, n: nat)
    ensures Mirror(Mirror(v, n), n) == v % Pow2(n)
  {
    var r := Reverse(LowBits(v, n));
    NumLowBits(r);
    ReverseReverse(LowBits(v, n));
    LowBitsNum(v, n);
  }

  lemma {:induction false} MirrorZero(n: nat)
    ensures Mirror(0, n) == 0
  {
    ZeroLowBits(n);
    ZeroBitsNum(Reverse(LowBits(0, n)));
  }

  lemma {:induction false} ZeroLowBits(n: nat)
    ensures forall i :: 0 <= i < n ==> !LowBits(0, n)[i]
    decreases n
  {
    if n > 0 {
      ZeroLowBits(n - 1);
    }
  }

  lemma {:induction false} ZeroBitsNum(b: seq<bool>)
    requires forall i :: 0 <= i < |b| ==> !b[i]
    ensures Num(b) == 0
    decreases |b|
  {
    if |b| > 0 {
      ZeroBitsNum(b[1..]);
    }
  }

  /** `data >> k`. */
  function Shift(d: nat, k: nat): (r: nat)
    ensures r <= d
    ensures d > 0 && k >= 1 ==> r < d
  {
    var m := Pow2(k);
    assert k >= 1 ==> m >= 2 by {
      if k >= 1 {
        Bits.Pow2Grows(0, k);
      }
    }
    DivBounds(d, m);
    d / m
  }

  /** `MirrorBits(data & (2^k - 1), k)`: the next k bits of the transmission, first one most significant. */
  function Field(d: nat, k: nat): (r: nat)
    ensures r < Pow2(k)
  {
    MirrorBound(d % Pow2(k), k);
    Mirror(d % Pow2(k), k)
  }

  /** Reading a field of width k back, then shifting it out. */
  lemma ReadField(x: nat, k: nat, t: seq<bool>)
    requires x < Pow2(k)
    ensures Field(Num(FieldBits(x, k) + t), k) == x
    ensures Shift(Num(FieldBits(x, k) + t), k) == Num(t)
  {
    var b := FieldBits(x, k);
    var d := Num(b + t);
    assert d % Pow2(k) == Num(b) && d / Pow2(k) == Num(t) by {
      SplitNum(b, t);
    }
    assert Mirror(Num(b), k) == x by {
      MirrorInvolution(x, k);
      DivModUnique(x, Pow2(k), 0, x);
    }
  }

  lemma LowBitsShift(v: nat, y: nat, n: nat)
    requires n >= 1
    ensures LowBits(v + 2 * y, n) == [v % 2 == 1] + LowBits(v / 2 + y, n - 1)
  {
    DivModUnique(v + 2 * y, 2, v / 2 + y, v % 2);
  }

  lemma HalfSplit(v: nat, p: nat, x: nat)
    requires v < 2 * p
    ensures v + (2 * p) * x == v + 2 * (p * x)
    ensures v / 2 < p
  {
  }

  /** The low bits of `v + (x << k)` are those of v followed by those of x. */
  lemma {:induction false} LowBitsAppend(v: nat, k: nat, x: nat, n: nat, z: nat, w: nat)
    requires v < Pow2(k) && z == v + Pow2(k) * x && w == k + n
    ensures LowBits(z, w) == LowBits(v, k) + LowBits(x, n)
    decreases k
  {
    if k == 0 {
      assert v == 0 && z == x;
    } else {
      var p := Pow2(k - 1);
      assert v / 2 < p by {
        HalfSplit(v, p, x);
      }
      LowBitsAppend(v / 2, k - 1, x, n, v / 2 + p * x, w - 1);
      AppendStep(v, k, x, n, z, w, p);
    }
  }

  /** One bit more below: the step of `LowBitsAppend`. */
  lemma AppendStep(v: nat, k: nat, x: nat, n: nat, z: nat, w: nat, p: nat)
    requires k >= 1 && p == Pow2(k - 1) && v < Pow2(k) && z == v + Pow2(k) * x && w == k + n
    requires LowBits(v / 2 + p * x, w - 1) == LowBits(v / 2, k - 1) + LowBits(x, n)
    ensures LowBits(z, w) == LowBits(v, k) + LowBits(x, n)
  {
    var y := p * x;
    var half := LowBits(v / 2, k - 1);
    assert z == v + 2 * y by {
      HalfSplit(v, p, x);
    }
    assert LowBits(z, w) == [v % 2 == 1] + LowBits(v / 2 + y, w - 1) by {
      LowBitsShift(v, y, w);
    }
    assert LowBits(v, k) == [v % 2 == 1] + half;
    Associative([v % 2 == 1], half, LowBits(x, n));
  }

  // ---------------------------------------------------------------------------------------
  // From the hexadecimal text to the transmission
  // ---------------------------------------------------------------------------------------

  predicate IsHexChar(c: char)
  {
    '0' <= c <= '9' || 'a' <= c <= 'f' || 'A' <= c <= 'F'
  }

  predicate AllHex(s: string)
  {
    forall i :: 0 <= i < |s| ==> IsHexChar(s[i])
  }

  /** `char.ToUpper` on the ASCII letters. */
  function Upper(c: char): char
  {
    if 'a' <= c <= 'z' then (c as int - 32) as char else c
  }

  /** `characterValue`: a decimal digit counts from '0', any other character from 'A' plus ten. */
  function HexDigitValue(c: char): (v: int)
    ensures IsHexChar(c) ==> 0 <= v < 16
    ensures 'a' <= c <= 'f' ==> v == HexDigitValue(Upper(c))
  {
    if '0' <= c <= '9' then c as int - '0' as int else 10 + Upper(c) as int - 'A' as int
  }

  /** The number written by a hexadecimal text: `_fullData <<= 4; _fullData |= characterValue`. */
  function HexValue(s: string): nat
    requires AllHex(s)
  {
    if |s| == 0 then 0 else HexValue(s[..|s| - 1]) * 16 + HexDigitValue(s[|s| - 1])
  }

  /** The transmission a hexadecimal text stands for: four bits per character, most significant first. */
  function HexStream(s: string): (b: seq<bool>)
    requires AllHex(s)
    ensures |b| == 4 * |s|
  {
    if |s| == 0 then [] else HexStream(s[..|s| - 1]) + FieldBits(HexDigitValue(s[|s| - 1]), 4)
  }

  /**
   * The text read as one number and mirrored over its `4 * |s|` bits puts the first bit of the
   * transmission lowest: the decoder's input is exactly the transmission.
   */
  lemma {:induction false} MirroredHex(s: string)
    requires AllHex(s)
    ensures HexValue(s) < Pow2(4 * |s|)
    ensures FieldBits(HexValue(s), 4 * |s|) == HexStream(s)
    ensures Mirror(HexValue(s), 4 * |s|) == Num(HexStream(s))
    decreases |s|
  {
    if |s| > 0 {
      var init := s[..|s| - 1];
      assert AllHex(init);
      MirroredHex(init);
      HexExtend(s, init);
    }
  }

  /** The step of `MirroredHex`: one more character at the end of the text. */
  lemma HexExtend(s: string, init: string)
    requires AllHex(s) && |s| > 0 && init == s[..|s| - 1] && AllHex(init)
    requires HexValue(init) < Pow2(4 * |init|) && FieldBits(HexValue(init), 4 * |init|) == HexStream(init)
    ensures HexValue(s) < Pow2(4 * |s|)
    ensures FieldBits(HexValue(s), 4 * |s|) == HexStream(s)
    ensures Mirror(HexValue(s), 4 * |s|) == Num(HexStream(s))
  {
    var x, v := HexValue(init), HexDigitValue(s[|s| - 1]);
    var y, w := HexValue(s), 4 * |s|;
    assert y == v + 16 * x && w == 4 + 4 * |init|;
    assert HexStream(s) == HexStream(init) + FieldBits(v, 4);
    HexStep(x, v, 4 * |init|, y, w);
  }

  /** One more character: four more bits below, four more bits at the end of the transmission. */
  lemma HexStep(x: nat, v: nat, n: nat, y: nat, w: nat)
    requires v < 16 && x < Pow2(n) && y == v + 16 * x && w == 4 + n
    ensures y < Pow2(w)
    ensures FieldBits(y, w) == FieldBits(x, n) + FieldBits(v, 4)
  {
    assert Pow2(4) == 16;
    FieldBitsAppend(v, 4, x, n, y, w);
    var p := Pow2(n);
    assert Pow2(w) == 16 * p by {
      Pow2Add(4, n);
    }
    MulBelow(x, p);
  }

  lemma MulBelow(x: int, p: int)
    requires 0 <= x < p
    ensures 16 * x <= 16 * p - 16
  {
  }

  lemma FieldBitsAppend(v: nat, k: nat, x: nat, n: nat, y: nat, w: nat)
    requires v < Pow2(k) && y == v + Pow2(k) * x && w == k + n
    ensures FieldBits(y, w) == FieldBits(x, n) + FieldBits(v, k)
  {
    var a, b := LowBits(v, k), LowBits(x, n);
    assert LowBits(y, w) == a + b by {
      LowBitsAppend(v, k, x, n, y, w);
    }
    ReverseAppend(a, b);
  }

  // ---------------------------------------------------------------------------------------
  // Packets and the decoder
  // ---------------------------------------------------------------------------------------

  /** A packet: its header, the value of a literal packet (type 4) and the sub-packets of an operator. */
  datatype Packet = Packet(version: int, typeId: int, literal: int, content: seq<Packet>)

  /** What `GetPacketsFromMirroredData` returns: the packet it read and the bits it consumed. */
  datatype Parsed = Parsed(packet: Packet, consumed: nat)

  function Packets(ps: seq<Parsed>): (r: seq<Packet>)
    ensures |r| == |ps|
  {
    if ps == [] then [] else [ps[0].packet] + Packets(ps[1..])
  }

  function Consumed(ps: seq<Parsed>): nat
  {
    if ps == [] then 0 else ps[0].consumed + Consumed(ps[1..])
  }

  /**
   * The do-while over the groups of a literal: each group is a continuation bit and four bits of
   * value; the result is the literal and the number of five-bit groups read.
   */
  function ReadGroups(d: nat, literal: int): (r: (int, nat))
    ensures r.1 >= 1
    decreases d
  {
    var lastBlock := d % 2 == 0;
    var next := literal * 16 + Field(Shift(d, 1), 4);
    if lastBlock then (next, 1)
    else
      var more := ReadGroups(Shift(d, 5), next);
      (more.0, more.1 + 1)
  }

  /** A packet read from the mirrored data d: header, then a literal or the sub-packets. */
  function Parse(d: nat): (r: Parsed)
    ensures 0 <= r.packet.version < 8 && 0 <= r.packet.typeId < 8
    ensures r.packet.typeId == 4 ==> r.packet.content == [] && r.consumed >= 11
    ensures r.packet.typeId != 4 ==> r.packet.literal == 0 && r.consumed >= 18
    decreases d, 1, 0
  {
    var version := Field(d, 3);
    var typeId := Field(Shift(d, 3), 3);
    var body := Shift(d, 6);
    if typeId == 4 then
      var groups := ReadGroups(body, 0);
      Parsed(Packet(version, typeId, groups.0, []), 6 + 5 * groups.1)
    else if body % 2 == 0 then
      var subPacketLength := Field(Shift(body, 1), 15);
      BodyShrinks(d, body, 15, subPacketLength);
      var subs := ByLength(d, Shift(body, 16), subPacketLength);
      Parsed(Packet(version, typeId, 0, Packets(subs)), 22 + Consumed(subs))
    else
      var nbrOfPackets := Field(Shift(body, 1), 11);
      var subs := ByCount(d, Shift(body, 12), nbrOfPackets);
      Parsed(Packet(version, typeId, 0, Packets(subs)), 18 + Consumed(subs))
  }

  /** A length field that is not zero means there was data left to shift. */
  lemma BodyShrinks(d: nat, body: nat, k: nat, field: nat)
    requires body == Shift(d, 6) && field == Field(Shift(body, 1), k)
    ensures field > 0 ==> Shift(body, k + 1) < d
  {
    if body == 0 {
      MirrorZero(k);
    }
  }

  /** Length type 0: read sub-packets while the announced number of bits is not used up. */
  function ByLength(parent: nat, d: nat, remaining: int): (r: seq<Parsed>)
    requires remaining > 0 ==> d < parent
    ensures remaining <= 0 ==> r == []
    ensures remaining > 0 ==> r != [] && Consumed(r) >= remaining
    decreases parent, 0, remaining
  {
    if remaining <= 0 then []
    else
      var sub := Parse(d);
      [sub] + ByLength(parent, Shift(d, sub.consumed), remaining - sub.consumed)
  }

  /** Length type 1: read the announced number of sub-packets one after the other. */
  function ByCount(parent: nat, d: nat, count: int): (r: seq<Parsed>)
    requires count > 0 ==> d < parent
    ensures |r| == if count > 0 then count else 0
    decreases parent, 0, count
  {
    if count <= 0 then []
    else
      var sub := Parse(d);
      [sub] + ByCount(parent, Shift(d, sub.consumed), count - 1)
  }

  /** `ExtractData`: the packet the whole transmission starts with. */
  function Decode(s: string): Packet
    requires AllHex(s)
  {
    Parse(Mirror(HexValue(s), 4 * |s|)).packet
  }

  // ---------------------------------------------------------------------------------------
  // The two answers: sum of versions and value of the outermost packet
  // ---------------------------------------------------------------------------------------

  /** `VersionSum`: the packet's version plus the version sums of its sub-packets. */
  function VersionSum(p: Packet): int
    decreases p, 1
  {
    p.version + VersionSums(p.content)
  }

  function VersionSums(cs: seq<Packet>): int
    decreases cs, 0
  {
    if cs == [] then 0 else VersionSum(cs[0]) + VersionSums(cs[1..])
  }

  /** The versions of all packets of the tree, the packet itself first. */
  function Versions(p: Packet): seq<int>
    decreases p, 1
  {
    [p.version] + AllVersions(p.content)
  }

  function AllVersions(cs: seq<Packet>): seq<int>
    decreases cs, 0
  {
    if cs == [] then [] else Versions(cs[0]) + AllVersions(cs[1..])
  }

  function SumOf(vs: seq<int>): int
  {
    if vs == [] then 0 else vs[0] + SumOf(vs[1..])
  }

  lemma {:induction false} SumOfAppend(a: seq<int>, b: seq<int>)
    ensures SumOf(a + b) == SumOf(a) + SumOf(b)
    decreases |a|
  {
    if a != [] {
      assert (a + b)[1..] == a[1..] + b;
      SumOfAppend(a[1..], b);
    } else {
      assert a + b == b;
    }
  }

  /** The answer to part one is the sum of the versions of every packet in the tree. */
  lemma {:induction false} VersionSumOfAll(p: Packet)
    ensures VersionSum(p) == SumOf(Versions(p))
    decreases p, 1
  {
    VersionSumsOfAll(p.content);
    SumOfAppend([p.version], AllVersions(p.content));
  }

  lemma {:induction false} VersionSumsOfAll(cs: seq<Packet>)
    ensures VersionSums(cs) == SumOf(AllVersions(cs))
    decreases cs, 0
  {
    if cs != [] {
      VersionSumOfAll(cs[0]);
      VersionSumsOfAll(cs[1..]);
      SumOfAppend(Versions(cs[0]), AllVersions(cs[1..]));
    }
  }

  /** `Content.Aggregate(1L, (acc, x) => acc * x.Value)`. */
  function ProductFrom(acc: int, vs: seq<int>): int
    decreases vs
  {
    if vs == [] then acc else ProductFrom(acc * vs[0], vs[1..])
  }

  /** `Min` of a non-empty sequence. */
  function MinOf(vs: seq<int>): (m: int)
    requires vs != []
    ensures m in vs && forall i :: 0 <= i < |vs| ==> m <= vs[i]
  {
    if |vs| == 1 then vs[0]
    else
      var rest := MinOf(vs[1..]);
      if vs[0] <= rest then vs[0] else rest
  }

  /** `Max` of a non-empty sequence. */
  function MaxOf(vs: seq<int>): (m: int)
    requires vs != []
    ensures m in vs && forall i :: 0 <= i < |vs| ==> vs[i] <= m
  {
    if |vs| == 1 then vs[0]
    else
      var rest := MaxOf(vs[1..]);
      if vs[0] >= rest then vs[0] else rest
  }

  /** The comparison of type 5 (greater than), 6 (less than) or 7 (equal to). */
  predicate Holds(typeId: int, a: int, b: int)
  {
    if typeId == 5 then a > b else if typeId == 6 then a < b else a == b
  }

  /** The values of the sub-packets in order, or the first exception one of them throws. */
  function Values(cs: seq<Packet>): (r: Result<seq<int>>)
    decreases cs, 0
  {
    if cs == [] then Ok([])
    else
      var first := Value(cs[0]);
      if first.Fail? then Fail(first.error)
      else
        var rest := Values(cs[1..]);
        if rest.Fail? then Fail(rest.error) else Ok([first.value] + rest.value)
  }

  /**
   * `Value`: by type, the sum, product, minimum or maximum of the sub-packets, the literal, or a
   * comparison of the first two sub-packets; an empty minimum or maximum, a missing operand and
   * an unknown type are exceptions.
   */
  function Value(p: Packet): (r: Result<int>)
    ensures !(0 <= p.typeId < 8) ==> r.Fail?
    ensures (p.typeId == 2 || p.typeId == 3) && p.content == [] ==> r.Fail?
    ensures 5 <= p.typeId <= 7 ==>
              (r.Ok? <==> |p.content| >= 2 && Value(p.content[0]).Ok? && Value(p.content[1]).Ok?)
    ensures 5 <= p.typeId <= 7 && r.Ok? ==>
              (r.value in {0, 1} &&
               (r.value == 1 <==> Holds(p.typeId, Value(p.content[0]).value, Value(p.content[1]).value)))
    decreases p, 1
  {
    if p.typeId == 4 then Ok(p.literal)
    else if 0 <= p.typeId <= 3 then
      var vs := Values(p.content);
      if vs.Fail? then Fail(vs.error)
      else if p.typeId == 0 then Ok(SumOf(vs.value))
      else if p.typeId == 1 then Ok(ProductFrom(1, vs.value))
      else if vs.value == [] then Fail("InvalidOperationException")
      else if p.typeId == 2 then Ok(MinOf(vs.value))
      else Ok(MaxOf(vs.value))
    else if 5 <= p.typeId <= 7 then
      if |p.content| == 0 then Fail("ArgumentOutOfRangeException")
      else
        var a := Value(p.content[0]);
        if a.Fail? then a
        else if |p.content| == 1 then Fail("ArgumentOutOfRangeException")
        else
          var b := Value(p.content[1]);
          if b.Fail? then b
          else Ok(if Holds(p.typeId, a.value, b.value) then 1 else 0)
    else Fail("InvalidOperationException")
  }

  /** When the sub-packets all have values, `Values` lists them in order. */
  lemma {:induction false} ValuesOk(cs: seq<Packet>)
    ensures Values(cs).Ok? <==> forall i :: 0 <= i < |cs| ==> Value(cs[i]).Ok?
    ensures Values(cs).Ok? ==>
              (|Values(cs).value| == |cs| && forall i :: 0 <= i < |cs| ==> Value(cs[i]) == Ok(Values(cs).value[i]))
    decreases |cs|
  {
    if cs != [] {
      ValuesOk(cs[1..]);
      assert forall i :: 1 <= i < |cs| ==> cs[i] == cs[1..][i - 1];
    }
  }

  /** A maximum packet's value is the largest of its sub-packets' values. */
  lemma ValueMaximum(p: Packet)
    requires p.typeId == 3 && Value(p).Ok?
    ensures p.content != []
    ensures forall i :: 0 <= i < |p.content| ==> Value(p.content[i]).Ok? && Value(p.content[i]).value <= Value(p).value
    ensures exists i :: 0 <= i < |p.content| && Value(p.content[i]) == Value(p)
  {
    ValuesOk(p.content);
    var vs := Values(p.content).value;
    var i :| 0 <= i < |vs| && vs[i] == MaxOf(vs);
    assert Value(p.content[i]) == Value(p);
  }

  /** A minimum packet's value is the smallest of its sub-packets' values. */
  lemma ValueMinimum(p: Packet)
    requires p.typeId == 2 && Value(p).Ok?
    ensures p.content != []
    ensures forall i :: 0 <= i < |p.content| ==> Value(p.content[i]).Ok? && Value(p.content[i]).value >= Value(p).value
    ensures exists i :: 0 <= i < |p.content| && Value(p.content[i]) == Value(p)
  {
    ValuesOk(p.content);
    var vs := Values(p.content).value;
    var i :| 0 <= i < |vs| && vs[i] == MinOf(vs);
    assert Value(p.content[i]) == Value(p);
  }

  /** Everything `Value` needs: a known type, operands for min, max and the comparisons. */
  predicate Evaluable(p: Packet)
    decreases p, 1
  {
    && 0 <= p.typeId < 8
    && (p.typeId == 2 || p.typeId == 3 ==> |p.content| >= 1)
    && (5 <= p.typeId <= 7 ==> |p.content| >= 2)
    && AllEvaluable(p.content)
  }

  predicate AllEvaluable(cs: seq<Packet>)
    decreases cs, 0
  {
    cs == [] || (Evaluable(cs[0]) && AllEvaluable(cs[1..]))
  }

  /** A packet with a known type and enough operands everywhere has a value. */
  lemma {:induction false} ValueDefined(p: Packet)
    requires Evaluable(p)
    ensures Value(p).Ok?
    decreases p, 1
  {
    AllValuesDefined(p.content);
    if 5 <= p.typeId <= 7 {
      assert AllEvaluable(p.content[1..]);
      assert p.content[1..][0] == p.content[1];
      ValueDefined(p.content[0]);
      ValueDefined(p.content[1]);
    }
  }

  lemma {:induction false} AllValuesDefined(cs: seq<Packet>)
    requires AllEvaluable(cs)
    ensures Values(cs).Ok?
    decreases cs, 0
  {
    if cs != [] {
      ValueDefined(cs[0]);
      AllValuesDefined(cs[1..]);
    }
  }

  // ---------------------------------------------------------------------------------------
  // An encoder, and the decoder as its inverse
  // ---------------------------------------------------------------------------------------

  /** How an operator packet announces its sub-packets: length type 0 or length type 1. */
  datatype LengthMode = LengthInBits | LengthInPackets

  function NatOf(x: int): nat
  {
    if x < 0 then 0 else x
  }

  /** The base-16 digits of n, most significant first, without leading zeros. */
  function HexDigits(n: nat): (ds: seq<nat>)
    ensures |ds| >= 1 && forall i :: 0 <= i < |ds| ==> ds[i] < 16
    decreases n
  {
    if n < 16 then [n] else HexDigits(n / 16) + [n % 16]
  }

  /** `literal = (literal << 4) + group`, over a sequence of groups. */
  function Horner(acc: int, ds: seq<nat>): int
    decreases |ds|
  {
    if ds == [] then acc else Horner(acc * 16 + ds[0], ds[1..])
  }

  lemma {:induction false} HornerSnoc(acc: int, ds: seq<nat>, x: nat)
    ensures Horner(acc, ds + [x]) == Horner(acc, ds) * 16 + x
    decreases |ds|
  {
    if ds == [] {
      assert ds + [x] == [x];
    } else {
      assert (ds + [x])[1..] == ds[1..] + [x];
      HornerSnoc(acc * 16 + ds[0], ds[1..], x);
    }
  }

  lemma {:induction false} HornerDigits(n: nat)
    ensures Horner(0, HexDigits(n)) == n
    decreases n
  {
    if n >= 16 {
      HornerDigits(n / 16);
      HornerSnoc(0, HexDigits(n / 16), n % 16);
    }
  }

  /** The groups of a literal: a continuation bit, set on all but the last, and four value bits. */
  function GroupBits(ds: seq<nat>): (b: seq<bool>)
    ensures |b| == 5 * |ds|
  {
    if ds == [] then [] else [|ds| > 1] + FieldBits(ds[0], 4) + GroupBits(ds[1..])
  }

  /** The bits of a packet: header, then the literal's groups or the announced sub-packets. */
  function Encode(p: Packet, mode: LengthMode): (b: seq<bool>)
    ensures |b| >= 11
    decreases p, 1
  {
    var header := FieldBits(NatOf(p.version), 3) + FieldBits(NatOf(p.typeId), 3);
    if p.typeId == 4 then header + GroupBits(HexDigits(NatOf(p.literal)))
    else
      var inner := EncodeAll(p.content, mode);
      if mode == LengthInBits then header + ([false] + FieldBits(|inner|, 15) + inner)
      else header + ([true] + FieldBits(|p.content|, 11) + inner)
  }

  function EncodeAll(cs: seq<Packet>, mode: LengthMode): (b: seq<bool>)
    ensures cs != [] ==> |b| > 0
    decreases cs, 0
  {
    if cs == [] then [] else Encode(cs[0], mode) + EncodeAll(cs[1..], mode)
  }

  /** A packet the encoder can write: every field fits the width the transmission gives it. */
  predicate WellFormed(p: Packet, mode: LengthMode)
    decreases p, 1
  {
    && 0 <= p.version < 8
    && 0 <= p.typeId < 8
    && if p.typeId == 4 then p.literal >= 0 && p.content == []
       else
         && p.literal == 0
         && AllWellFormed(p.content, mode)
         && (mode == LengthInBits ==> |EncodeAll(p.content, mode)| < Pow2(15))
         && (mode == LengthInPackets ==> |p.content| < Pow2(11))
  }

  predicate AllWellFormed(cs: seq<Packet>, mode: LengthMode)
    decreases cs, 0
  {
    cs == [] || (WellFormed(cs[0], mode) && AllWellFormed(cs[1..], mode))
  }

  lemma Associative<T>(a: seq<T>, b: seq<T>, c: seq<T>)
    ensures (a + b) + c == a + (b + c)
  {
  }

  /** The six header bits read back as version and type, and shifted out. */
  lemma ReadHeader(v: nat, ty: nat, body: seq<bool>, t: seq<bool>, d: nat)
    requires v < 8 && ty < 8
    requires d == Num(FieldBits(v, 3) + FieldBits(ty, 3) + body + t)
    ensures Field(d, 3) == v && Field(Shift(d, 3), 3) == ty && Shift(d, 6) == Num(body + t)
  {
    assert Pow2(3) == 8;
    var a, b := FieldBits(v, 3), FieldBits(ty, 3);
    assert d == Num(a + (b + (body + t))) by {
      Associative(a, b, body);
      Associative(a + b, body, t);
      Associative(a, b, body + t);
    }
    ReadField(v, 3, b + (body + t));
    ReadField(ty, 3, body + t);
    assert d == Num((a + b) + (body + t)) by {
      Associative(a + b, body, t);
    }
    SplitNum(a + b, body + t);
  }

  /** A flag bit followed by a field of width k, read back and shifted out. */
  lemma ReadTagged(flag: bool, x: nat, k: nat, rest: seq<bool>, d: nat)
    requires x < Pow2(k) && d == Num([flag] + FieldBits(x, k) + rest)
    ensures d % 2 == (if flag then 1 else 0)
    ensures Field(Shift(d, 1), k) == x && Shift(d, k + 1) == Num(rest)
  {
    assert Pow2(1) == 2;
    var b := FieldBits(x, k);
    assert [flag] + b + rest == [flag] + (b + rest);
    SplitNum([flag], b + rest);
    ReadField(x, k, rest);
    SplitNum([flag] + b, rest);
  }

  lemma GroupBitsFront(ds: seq<nat>, t: seq<bool>)
    requires |ds| >= 1
    ensures GroupBits(ds) + t == [|ds| > 1] + FieldBits(ds[0], 4) + (GroupBits(ds[1..]) + t)
  {
    var head := [|ds| > 1] + FieldBits(ds[0], 4);
    Associative(head, GroupBits(ds[1..]), t);
  }

  /** Every entry is a hexadecimal digit value. */
  predicate Digits(ds: seq<nat>)
  {
    forall i :: 0 <= i < |ds| ==> ds[i] < 16
  }

  lemma DigitsTail(ds: seq<nat>)
    requires |ds| >= 1 && Digits(ds)
    ensures Digits(ds[1..])
  {
  }

  lemma DigitsHead(ds: seq<nat>)
    requires |ds| >= 1 && Digits(ds)
    ensures ds[0] < 16
  {
  }

  lemma HornerFront(acc: int, ds: seq<nat>)
    requires |ds| >= 1
    ensures Horner(acc, ds) == Horner(acc * 16 + ds[0], ds[1..])
  {
  }

  /**
   * The groups ds are written at the start of d: each flag says whether another group follows,
   * each group's four bits hold its digit.
   */
  predicate GroupsAt(d: nat, ds: seq<nat>)
    decreases |ds|
  {
    && |ds| >= 1
    && d % 2 == (if |ds| > 1 then 1 else 0)
    && Field(Shift(d, 1), 4) == ds[0]
    && (|ds| > 1 ==> GroupsAt(Shift(d, 5), ds[1..]))
  }

  /** Groups written at the start of the data read back as the literal they spell and their number. */
  lemma {:induction false} ReadGroupsAt(d: nat, ds: seq<nat>, acc: int)
    requires GroupsAt(d, ds)
    ensures ReadGroups(d, acc).0 == Horner(acc, ds) && ReadGroups(d, acc).1 == |ds|
    decreases |ds|
  {
    HornerFront(acc, ds);
    if |ds| > 1 {
      ReadGroupsAt(Shift(d, 5), ds[1..], acc * 16 + ds[0]);
    } else {
      assert ds[1..] == [];
    }
  }

  /** The encoder's groups, followed by anything, are written at the start of the transmission. */
  lemma {:induction false} GroupsEncoded(ds: seq<nat>, t: seq<bool>, d: nat)
    requires |ds| >= 1 && Digits(ds) && d == Num(GroupBits(ds) + t)
    ensures GroupsAt(d, ds)
    decreases |ds|
  {
    var rest := Num(GroupBits(ds[1..]) + t);
    assert d % 2 == (if |ds| > 1 then 1 else 0) && Field(Shift(d, 1), 4) == ds[0] && Shift(d, 5) == rest by {
      DigitsHead(ds);
      GroupBitsFront(ds, t);
      assert Pow2(4) == 16;
      ReadTagged(|ds| > 1, ds[0], 4, GroupBits(ds[1..]) + t, d);
    }
    if |ds| > 1 {
      DigitsTail(ds);
      GroupsEncoded(ds[1..], t, rest);
    }
  }

  /**
   * Decoding inverts encoding: the bits of a well-formed packet, followed by anything, parse back
   * to that packet and consume exactly its bits.
   */
  lemma {:induction false} ParseEncoded(p: Packet, mode: LengthMode, t: seq<bool>)
    requires WellFormed(p, mode)
    ensures Parse(Num(Encode(p, mode) + t)) == Parsed(p, |Encode(p, mode)|)
    decreases p, 2
  {
    var d := Num(Encode(p, mode) + t);
    if p.typeId == 4 {
      ParseEncodedLiteral(p, mode, t, d);
    } else if mode == LengthInBits {
      ParseEncodedByLength(p, t, d);
    } else {
      ParseEncodedByCount(p, t, d);
    }
  }

  /** Parse on a literal header, in the terms of the fields it reads. */
  lemma ParseLiteralFields(d: nat, version: int, literal: int, groups: nat)
    requires Field(d, 3) == version && Field(Shift(d, 3), 3) == 4
    requires ReadGroups(Shift(d, 6), 0).0 == literal && ReadGroups(Shift(d, 6), 0).1 == groups
    ensures Parse(d) == Parsed(Packet(version, 4, literal, []), 6 + 5 * groups)
  {
  }

  lemma ParseEncodedLiteral(p: Packet, mode: LengthMode, t: seq<bool>, d: nat)
    requires WellFormed(p, mode) && p.typeId == 4 && d == Num(Encode(p, mode) + t)
    ensures Parse(d) == Parsed(p, |Encode(p, mode)|)
  {
    var ds := HexDigits(p.literal);
    var body := Num(GroupBits(ds) + t);
    assert Field(d, 3) == p.version && Field(Shift(d, 3), 3) == 4 && Shift(d, 6) == body by {
      assert Encode(p, mode) == FieldBits(p.version, 3) + FieldBits(p.typeId, 3) + GroupBits(ds);
      ReadHeader(p.version, p.typeId, GroupBits(ds), t, d);
    }
    assert ReadGroups(body, 0).0 == p.literal && ReadGroups(body, 0).1 == |ds| by {
      GroupsEncoded(ds, t, body);
      ReadGroupsAt(body, ds, 0);
      HornerDigits(p.literal);
    }
    ParseLiteralFields(d, p.version, p.literal, |ds|);
  }

  /** Parse on an operator header with length type 0, in the terms of the fields it reads. */
  lemma ParseLengthFields(d: nat, version: int, typeId: int, length: nat, rest: nat)
    requires typeId != 4 && Field(d, 3) == version && Field(Shift(d, 3), 3) == typeId
    requires Shift(d, 6) % 2 == 0 && Field(Shift(Shift(d, 6), 1), 15) == length && Shift(Shift(d, 6), 16) == rest
    requires length > 0 ==> rest < d
    ensures var subs := ByLength(d, rest, length);
            Parse(d) == Parsed(Packet(version, typeId, 0, Packets(subs)), 22 + Consumed(subs))
  {
  }

  /** Parse on an operator header with length type 1, in the terms of the fields it reads. */
  lemma ParseCountFields(d: nat, version: int, typeId: int, count: nat, rest: nat)
    requires typeId != 4 && Field(d, 3) == version && Field(Shift(d, 3), 3) == typeId
    requires Shift(d, 6) % 2 == 1 && Field(Shift(Shift(d, 6), 1), 11) == count && Shift(Shift(d, 6), 12) == rest
    ensures rest < d
    ensures var subs := ByCount(d, rest, count);
            Parse(d) == Parsed(Packet(version, typeId, 0, Packets(subs)), 18 + Consumed(subs))
  {
  }

  lemma {:induction false} ParseEncodedByLength(p: Packet, t: seq<bool>, d: nat)
    requires WellFormed(p, LengthInBits) && p.typeId != 4 && d == Num(Encode(p, LengthInBits) + t)
    ensures Parse(d) == Parsed(p, |Encode(p, LengthInBits)|)
    decreases p, 1
  {
    var inner := EncodeAll(p.content, LengthInBits);
    var field := [false] + FieldBits(|inner|, 15);
    var body := Shift(d, 6);
    var rest := Num(inner + t);
    assert Field(d, 3) == p.version && Field(Shift(d, 3), 3) == p.typeId && body == Num(field + inner + t) by {
      assert Encode(p, LengthInBits) == FieldBits(p.version, 3) + FieldBits(p.typeId, 3) + (field + inner);
      ReadHeader(p.version, p.typeId, field + inner, t, d);
    }
    assert body % 2 == 0 && Field(Shift(body, 1), 15) == |inner| && Shift(body, 16) == rest by {
      Associative(field, inner, t);
      ReadTagged(false, |inner|, 15, inner + t, body);
    }
    BodyShrinks(d, body, 15, |inner|);
    assert Packets(ByLength(d, rest, |inner|)) == p.content && Consumed(ByLength(d, rest, |inner|)) == |inner| by {
      ParseEncodedLength(d, p.content, LengthInBits, t, rest, |inner|);
    }
    ParseLengthFields(d, p.version, p.typeId, |inner|, rest);
  }

  lemma {:induction false} ParseEncodedByCount(p: Packet, t: seq<bool>, d: nat)
    requires WellFormed(p, LengthInPackets) && p.typeId != 4 && d == Num(Encode(p, LengthInPackets) + t)
    ensures Parse(d) == Parsed(p, |Encode(p, LengthInPackets)|)
    decreases p, 1
  {
    var inner := EncodeAll(p.content, LengthInPackets);
    var field := [true] + FieldBits(|p.content|, 11);
    var body := Shift(d, 6);
    var rest := Num(inner + t);
    assert Field(d, 3) == p.version && Field(Shift(d, 3), 3) == p.typeId && body == Num(field + inner + t) by {
      assert Encode(p, LengthInPackets) == FieldBits(p.version, 3) + FieldBits(p.typeId, 3) + (field + inner);
      ReadHeader(p.version, p.typeId, field + inner, t, d);
    }
    assert body % 2 == 1 && Field(Shift(body, 1), 11) == |p.content| && Shift(body, 12) == rest by {
      Associative(field, inner, t);
      ReadTagged(true, |p.content|, 11, inner + t, body);
    }
    ParseCountFields(d, p.version, p.typeId, |p.content|, rest);
    assert Packets(ByCount(d, rest, |p.content|)) == p.content
        && Consumed(ByCount(d, rest, |p.content|)) == |inner| by {
      ParseEncodedCount(d, p.content, LengthInPackets, t, rest);
    }
  }

  /** The first encoded sub-packet parses back and leaves the others' bits. */
  lemma {:induction false} FirstEncoded(cs: seq<Packet>, mode: LengthMode, t: seq<bool>, d: nat)
    requires cs != [] && AllWellFormed(cs, mode) && d == Num(EncodeAll(cs, mode) + t)
    ensures Parse(d) == Parsed(cs[0], |Encode(cs[0], mode)|)
    ensures Num(EncodeAll(cs[1..], mode) + t) == Shift(d, |Encode(cs[0], mode)|)
    decreases cs, 0
  {
    var first := Encode(cs[0], mode);
    var others := EncodeAll(cs[1..], mode);
    Associative(first, others, t);
    ParseEncoded(cs[0], mode, others + t);
    SplitNum(first, others + t);
  }

  lemma ByLengthStep(parent: nat, d: nat, remaining: int)
    requires remaining > 0 && d < parent
    ensures ByLength(parent, d, remaining)
            == [Parse(d)] + ByLength(parent, Shift(d, Parse(d).consumed), remaining - Parse(d).consumed)
  {
  }

  lemma ByCountStep(parent: nat, d: nat, count: int)
    requires count > 0 && d < parent
    ensures ByCount(parent, d, count) == [Parse(d)] + ByCount(parent, Shift(d, Parse(d).consumed), count - 1)
  {
  }

  lemma PrependParsed(x: Parsed, ps: seq<Parsed>)
    ensures Packets([x] + ps) == [x.packet] + Packets(ps)
    ensures Consumed([x] + ps) == x.consumed + Consumed(ps)
  {
    assert ([x] + ps)[1..] == ps;
  }

  lemma EncodeAllFront(cs: seq<Packet>, mode: LengthMode)
    requires cs != []
    ensures |EncodeAll(cs, mode)| == |Encode(cs[0], mode)| + |EncodeAll(cs[1..], mode)|
  {
  }

  lemma Unfront<T>(s: seq<T>)
    requires s != []
    ensures s == [s[0]] + s[1..]
  {
  }

  /** Reading by length, seen as the first sub-packet followed by the rest. */
  lemma LengthCons(parent: nat, d: nat, remaining: int, x: Parsed, next: nat)
    requires remaining > 0 && d < parent && x == Parse(d) && next == Shift(d, x.consumed)
    ensures remaining - x.consumed > 0 ==> next < parent
    ensures Packets(ByLength(parent, d, remaining)) == [x.packet] + Packets(ByLength(parent, next, remaining - x.consumed))
    ensures Consumed(ByLength(parent, d, remaining)) == x.consumed + Consumed(ByLength(parent, next, remaining - x.consumed))
  {
    ByLengthStep(parent, d, remaining);
    PrependParsed(x, ByLength(parent, next, remaining - x.consumed));
  }

  /** Reading by count, seen as the first sub-packet followed by the rest. */
  lemma CountCons(parent: nat, d: nat, count: int, x: Parsed, next: nat)
    requires count > 0 && d < parent && x == Parse(d) && next == Shift(d, x.consumed)
    ensures count - 1 > 0 ==> next < parent
    ensures Packets(ByCount(parent, d, count)) == [x.packet] + Packets(ByCount(parent, next, count - 1))
    ensures Consumed(ByCount(parent, d, count)) == x.consumed + Consumed(ByCount(parent, next, count - 1))
  {
    ByCountStep(parent, d, count);
    PrependParsed(x, ByCount(parent, next, count - 1));
  }

  /** The encoded sub-packets, read while their announced length lasts, come back in order. */
  lemma {:induction false} ParseEncodedLength(parent: nat, cs: seq<Packet>, mode: LengthMode, t: seq<bool>, d: nat, remaining: nat)
    requires AllWellFormed(cs, mode) && d == Num(EncodeAll(cs, mode) + t) && remaining == |EncodeAll(cs, mode)|
    requires cs != [] ==> d < parent
    ensures Packets(ByLength(parent, d, remaining)) == cs
    ensures Consumed(ByLength(parent, d, remaining)) == remaining
    decreases cs, 1
  {
    if cs != [] {
      var x := Parsed(cs[0], |Encode(cs[0], mode)|);
      var others := EncodeAll(cs[1..], mode);
      var next := Num(others + t);
      assert Parse(d) == x && next == Shift(d, x.consumed) by {
        FirstEncoded(cs, mode, t, d);
      }
      EncodeAllFront(cs, mode);
      LengthCons(parent, d, remaining, x, next);
      assert Packets(ByLength(parent, next, |others|)) == cs[1..] && Consumed(ByLength(parent, next, |others|)) == |others| by {
        ParseEncodedLength(parent, cs[1..], mode, t, next, |others|);
      }
      Unfront(cs);
    }
  }

  /** The encoded sub-packets, read as many as announced, come back in order. */
  lemma {:induction false} ParseEncodedCount(parent: nat, cs: seq<Packet>, mode: LengthMode, t: seq<bool>, d: nat)
    requires AllWellFormed(cs, mode) && d == Num(EncodeAll(cs, mode) + t)
    requires cs != [] ==> d < parent
    ensures Packets(ByCount(parent, d, |cs|)) == cs
    ensures Consumed(ByCount(parent, d, |cs|)) == |EncodeAll(cs, mode)|
    decreases cs, 1
  {
    if cs != [] {
      var x := Parsed(cs[0], |Encode(cs[0], mode)|);
      var others := EncodeAll(cs[1..], mode);
      var next := Num(others + t);
      assert Parse(d) == x && next == Shift(d, x.consumed) by {
        FirstEncoded(cs, mode, t, d);
      }
      CountCons(parent, d, |cs|, x, next);
      assert Packets(ByCount(parent, next, |cs| - 1)) == cs[1..] && Consumed(ByCount(parent, next, |cs| - 1)) == |others| by {
        ParseEncodedCount(parent, cs[1..], mode, t, next);
      }
      Unfront(cs);
    }
  }

  /** Hexadecimal text whose transmission starts with an encoded packet decodes to that packet. */
  lemma DecodeEncoded(s: string, p: Packet, mode: LengthMode, t: seq<bool>)
    requires AllHex(s) && WellFormed(p, mode) && HexStream(s) == Encode(p, mode) + t
    ensures Decode(s) == p
  {
    MirroredHex(s);
    ParseEncoded(p, mode, t);
  }

  // ---------------------------------------------------------------------------------------
  // The solver's loops
  // ---------------------------------------------------------------------------------------

  lemma DivHalf(v: nat, p: nat)
    requires p >= 1
    ensures v / p / 2 == v / (2 * p)
  {
    var q, r := v / p / 2, v / p % 2;
    assert v / p == 2 * q + r;
    assert v == q * (2 * p) + (r * p + v % p);
    DivModUnique(v, 2 * p, q, r * p + v % p);
  }

  /** One bit more: the next bit of v is the one `i` right shifts bring down. */
  lemma {:induction false} LowBitsSnoc(v: nat, i: nat)
    ensures LowBits(v, i + 1) == LowBits(v, i) + [Shift(v, i) % 2 == 1]
    decreases i
  {
    if i > 0 {
      LowBitsSnoc(v / 2, i - 1);
      DivHalf(v, Pow2(i - 1));
      assert Shift(v / 2, i - 1) == Shift(v, i) by {
        DivPow2Half(v, i - 1);
      }
    }
  }

  lemma DivPow2Half(v: nat, k: nat)
    ensures v / 2 / Pow2(k) == v / Pow2(k + 1)
  {
    var q, r := v / 2 / Pow2(k), v / 2 % Pow2(k);
    assert v / 2 == q * Pow2(k) + r;
    assert v == q * Pow2(k + 1) + (2 * r + v % 2);
    DivModUnique(v, Pow2(k + 1), q, 2 * r + v % 2);
  }

  /** One turn of the `MirrorBits` loop: the next bit of value enters result from below. */
  lemma MirrorStep(value: nat, i: nat, v: nat, result: nat)
    requires v == Shift(value, i) && result == Num(Reverse(LowBits(value, i)))
    ensures result * 2 + v % 2 == Num(Reverse(LowBits(value, i + 1)))
    ensures v / 2 == Shift(value, i + 1)
  {
    var bit := [v % 2 == 1];
    assert Reverse(LowBits(value, i + 1)) == bit + Reverse(LowBits(value, i)) by {
      LowBitsSnoc(value, i);
      ReverseAppend(LowBits(value, i), bit);
    }
    assert Num(bit + Reverse(LowBits(value, i))) == v % 2 + 2 * result by {
      NumAppend(bit, Reverse(LowBits(value, i)));
      assert Pow2(1) == 2;
    }
    assert v / 2 == Shift(value, i + 1) by {
      DivHalf(value, Pow2(i));
    }
  }

  /** `MirrorBits`: move the lowest bit of value into result, bitCount times. */
  method MirrorBits(value: nat, bitCount: nat) returns (result: nat)
    ensures result == Mirror(value, bitCount)
  {
    result := 0;
    var v := value;
    var i := 0;
    while i < bitCount
      invariant 0 <= i <= bitCount
      invariant v == Shift(value, i)
      invariant result == Num(Reverse(LowBits(value, i)))
    {
      MirrorStep(value, i, v, result);
      result := result * 2 + v % 2;
      v := v / 2;
      i := i + 1;
    }
  }

  /**
   * `GetPacketsFromMirroredData`: read the header, then the groups of a literal or the
   * sub-packets of an operator, shifting the data as bits are consumed.
   */
  method GetPacketsFromMirroredData(fullData: nat) returns (packets: seq<Packet>, consumedBits: nat)
    ensures packets == [Parse(fullData).packet] && consumedBits == Parse(fullData).consumed
    decreases fullData, 1
  {
    var version := MirrorBits(fullData % Pow2(3), 3);
    var typeId := MirrorBits(Shift(fullData, 3) % Pow2(3), 3);
    var data := Shift(fullData, 6);
    consumedBits := 6;

    if typeId == 4 {
      var literal, groupBits := ReadLiteral(data);
      return [Packet(version, typeId, literal, [])], consumedBits + groupBits;
    }

    var content: seq<Packet>;
    var subPacketsBits: nat;
    var lengthTypeId := data % 2;
    if lengthTypeId == 0 {
      var subPacketLength := MirrorBits(Shift(data, 1) % Pow2(15), 15);
      BodyShrinks(fullData, data, 15, subPacketLength);
      content, subPacketsBits := ReadByLength(fullData, Shift(data, 16), subPacketLength);
      consumedBits := consumedBits + 16 + subPacketsBits;
    } else {
      var nbrOfPackets := MirrorBits(Shift(data, 1) % Pow2(11), 11);
      content, subPacketsBits := ReadByCount(fullData, Shift(data, 12), nbrOfPackets);
      consumedBits := consumedBits + 12 + subPacketsBits;
    }
    packets := [Packet(version, typeId, 0, content)];
  }

  /**
   * The state of the do-while over the groups of a literal: either the last group has been read and
   * the literal is complete, or reading on from `data` completes it.
   */
  predicate LiteralProgress(body: nat, data: nat, literal: int, groupsRead: nat, lastBlock: bool)
  {
    var groups := ReadGroups(body, 0);
    if lastBlock then literal == groups.0 && groupsRead == groups.1
    else ReadGroups(data, literal).0 == groups.0 && groupsRead + ReadGroups(data, literal).1 == groups.1
  }

  lemma LiteralAdvance(body: nat, data: nat, literal: int, groupsRead: nat)
    requires LiteralProgress(body, data, literal, groupsRead, false)
    ensures LiteralProgress(body, Shift(data, 5), literal * 16 + Field(Shift(data, 1), 4), groupsRead + 1, data % 2 == 0)
  {
  }

  /** The do-while over the groups of a literal packet. */
  method ReadLiteral(body: nat) returns (literal: int, consumedBits: nat)
    ensures literal == ReadGroups(body, 0).0 && consumedBits == 5 * ReadGroups(body, 0).1
  {
    var data: nat := body;
    literal := 0;
    consumedBits := 0;
    var lastBlock := false;
    ghost var groupsRead := 0;
    while !lastBlock
      invariant consumedBits == 5 * groupsRead
      invariant LiteralProgress(body, data, literal, groupsRead, lastBlock)
      decreases data + if lastBlock then 0 else 1
    {
      LiteralAdvance(body, data, literal, groupsRead);
      lastBlock := data % 2 == 0;
      assert !lastBlock ==> Shift(data, 5) < data;
      var group := MirrorBits(Shift(data, 1) % Pow2(4), 4);
      literal := literal * 16 + group;
      data := Shift(data, 5);
      consumedBits := consumedBits + 5;
      groupsRead := groupsRead + 1;
    }
  }

  /** The loop state of length type 0: what is read so far, followed by what is left, is the whole. */
  predicate LengthProgress(fullData: nat, start: nat, length: int, data: nat, remaining: int, content: seq<Packet>, consumedBits: nat)
  {
    && (length > 0 ==> start < fullData)
    && (remaining > 0 ==> data < fullData)
    && content + Packets(ByLength(fullData, data, remaining)) == Packets(ByLength(fullData, start, length))
    && consumedBits + Consumed(ByLength(fullData, data, remaining)) == Consumed(ByLength(fullData, start, length))
  }

  lemma LengthAdvance(fullData: nat, start: nat, length: int, data: nat, remaining: int, content: seq<Packet>, consumedBits: nat)
    requires remaining > 0 && LengthProgress(fullData, start, length, data, remaining, content, consumedBits)
    ensures var next := Parse(data);
            LengthProgress(fullData, start, length, Shift(data, next.consumed), remaining - next.consumed,
                           content + [next.packet], consumedBits + next.consumed)
  {
    var next := Parse(data);
    var nextData := Shift(data, next.consumed);
    var left := remaining - next.consumed;
    LengthCons(fullData, data, remaining, next, nextData);
    var tail := Packets(ByLength(fullData, nextData, left));
    Associative(content, [next.packet], tail);
  }

  /** Length type 0: `while (subPacketLength > 0)` read one more sub-packet. */
  method ReadByLength(fullData: nat, start: nat, length: int) returns (content: seq<Packet>, consumedBits: nat)
    requires length > 0 ==> start < fullData
    ensures content == Packets(ByLength(fullData, start, length))
    ensures consumedBits == Consumed(ByLength(fullData, start, length))
    decreases fullData, 0
  {
    content := [];
    consumedBits := 0;
    var data: nat := start;
    var subPacketLength := length;
    while subPacketLength > 0
      invariant LengthProgress(fullData, start, length, data, subPacketLength, content, consumedBits)
      decreases subPacketLength
    {
      LengthAdvance(fullData, start, length, data, subPacketLength, content, consumedBits);
      var subPackets, subPacketsBitSize := GetPacketsFromMirroredData(data);
      data := Shift(data, subPacketsBitSize);
      consumedBits := consumedBits + subPacketsBitSize;
      subPacketLength := subPacketLength - subPacketsBitSize;
      content := content + subPackets;
    }
  }

  /** The loop state of length type 1, as for length type 0 with a count of packets still to read. */
  predicate CountProgress(fullData: nat, start: nat, count: nat, data: nat, left: int, content: seq<Packet>, consumedBits: nat)
  {
    && (count > 0 ==> start < fullData)
    && (left > 0 ==> data < fullData)
    && content + Packets(ByCount(fullData, data, left)) == Packets(ByCount(fullData, start, count))
    && consumedBits + Consumed(ByCount(fullData, data, left)) == Consumed(ByCount(fullData, start, count))
  }

  lemma CountAdvance(fullData: nat, start: nat, count: nat, data: nat, left: int, content: seq<Packet>, consumedBits: nat)
    requires left > 0 && CountProgress(fullData, start, count, data, left, content, consumedBits)
    ensures var next := Parse(data);
            CountProgress(fullData, start, count, Shift(data, next.consumed), left - 1,
                          content + [next.packet], consumedBits + next.consumed)
  {
    var next := Parse(data);
    var nextData := Shift(data, next.consumed);
    CountCons(fullData, data, left, next, nextData);
    var tail := Packets(ByCount(fullData, nextData, left - 1));
    Associative(content, [next.packet], tail);
  }

  /** Length type 1: read `nbrOfPackets` sub-packets. */
  method ReadByCount(fullData: nat, start: nat, nbrOfPackets: nat) returns (content: seq<Packet>, consumedBits: nat)
    requires nbrOfPackets > 0 ==> start < fullData
    ensures content == Packets(ByCount(fullData, start, nbrOfPackets))
    ensures consumedBits == Consumed(ByCount(fullData, start, nbrOfPackets))
    decreases fullData, 0
  {
    content := [];
    consumedBits := 0;
    var data: nat := start;
    for packetNbr := 0 to nbrOfPackets
      invariant CountProgress(fullData, start, nbrOfPackets, data, nbrOfPackets - packetNbr, content, consumedBits)
    {
      CountAdvance(fullData, start, nbrOfPackets, data, nbrOfPackets - packetNbr, content, consumedBits);
      var subPackets, subPacketsBitSize := GetPacketsFromMirroredData(data);
      data := Shift(data, subPacketsBitSize);
      consumedBits := consumedBits + subPacketsBitSize;
      content := content + subPackets;
    }
  }

  /** `ExtractData`: read the text into one number, mirror it, and decode the first packet. */
  method ExtractData(input: string) returns (packet: Packet)
    requires AllHex(input)
    ensures packet == Decode(input)
  {
    var fullData: nat := 0;
    var nbrOfBits := 0;
    for i := 0 to |input|
      invariant fullData == HexValue(input[..i]) && nbrOfBits == 4 * i
    {
      var characterValue := HexDigitValue(input[i]);
      assert input[..i + 1][..i] == input[..i];
      // the shifted data has its four low bits clear, so `|=` adds the character's value
      fullData := fullData * 16 + characterValue;
      nbrOfBits := nbrOfBits + 4;
    }
    assert input[..|input|] == input;
    fullData := MirrorBits(fullData, nbrOfBits);
    var packets, _ := GetPacketsFromMirroredData(fullData);
    packet := packets[0];
  }

  /** Part one: the sum of the versions of all packets. */
  function Solution1(input: string): (r: int)
    requires AllHex(input)
    ensures r == SumOf(Versions(Decode(input)))
  {
    VersionSumOfAll(Decode(input));
    VersionSum(Decode(input))
  }

  /** Part two: the value of the outermost packet, or the exception evaluating it throws. */
  function Solution2(input: string): (r: Result<int>)
    requires AllHex(input)
    ensures Evaluable(Decode(input)) ==> r.Ok?
  {
    var packet := Decode(input);
    assert Evaluable(packet) ==> Value(packet).Ok? by {
      if Evaluable(packet) {
        ValueDefined(packet);
      }
    }
    Value(packet)
  }
}

/**
 * Day 19, Beacon Scanner. Each scanner reports the beacons it sees relative to itself, in
 * its own unknown orientation. Two scanners are matched when, for one of the 24 rotations
 * of the second and one translation, at least 12 of its beacons land on beacons of the
 * first; the second is then moved into the first one's frame. The matched spaces are then
 * merged, keeping each beacon and each scanner once.
 */
module BeaconScanner {
  import opened Wrappers
  import opened CSharpInt
  import Text

  // ---------------------------------------------------------------------------
  // Points (Day19.cs:297-304).
  // ---------------------------------------------------------------------------

  datatype Point3D = Point3D(x: int, y: int, z: int)

  const Origin := Point3D(0, 0, 0)

  /** `a + b`, coordinate by coordinate; subtracting `b` again gives `a` back. */
  function Plus(a: Point3D, b: Point3D): (r: Point3D)
    ensures Minus(r, b) == a
  {
    Point3D(a.x + b.x, a.y + b.y, a.z + b.z)
  }

  /** `a - b`, coordinate by coordinate: the translation that carries `b` onto `a`. */
  function Minus(a: Point3D, b: Point3D): (r: Point3D)
    ensures r == Origin <==> a == b
  {
    Point3D(a.x - b.x, a.y - b.y, a.z - b.z)
  }

  function Abs(v: int): (r: int)
    ensures r >= 0 && (r == v || r == -v)
  {
    if v < 0 then -v else v
  }

  /** `ManhattanDistance`: never negative, and zero exactly between equal points. */
  function ManhattanDistance(a: Point3D, b: Point3D): (d: int)
    ensures d >= 0
    ensures d == 0 <==> a == b
  {
    Abs(a.x - b.x) + Abs(a.y - b.y) + Abs(a.z - b.z)
  }

  lemma PlusMinus(a: Point3D, b: Point3D)
    ensures Plus(Minus(a, b), b) == a
  {
  }

  lemma ManhattanSymmetric(a: Point3D, b: Point3D)
    ensures ManhattanDistance(a, b) == ManhattanDistance(b, a)
  {
  }

  /** Translating both points by the same vector keeps their distance. */
  lemma ManhattanTranslated(a: Point3D, b: Point3D, t: Point3D)
    ensures ManhattanDistance(Plus(a, t), Plus(b, t)) == ManhattanDistance(a, b)
  {
  }

  /** The triangle inequality. */
  lemma ManhattanTriangle(a: Point3D, b: Point3D, c: Point3D)
    ensures ManhattanDistance(a, c) <= ManhattanDistance(a, b) + ManhattanDistance(b, c)
  {
  }

  // ---------------------------------------------------------------------------
  // The 24 orientations (Day19.cs:186-217, 283-290).
  // ---------------------------------------------------------------------------

  /**
   * One entry of `_allOrientations`: the rotated point takes coordinate `c1` of the
   * original times `s1`, then coordinate `c2` times `s2`, then `c3` times `s3`.
   */
  datatype Orientation = Orientation(c1: int, c2: int, c3: int, s1: int, s2: int, s3: int)

  const AllOrientations: seq<Orientation> := [
    Orientation(0, 1, 2, 1, 1, 1),
    Orientation(0, 2, 1, 1, -1, 1),
    Orientation(0, 1, 2, 1, -1, -1),
    Orientation(0, 2, 1, 1, 1, -1),

    Orientation(0, 1, 2, -1, 1, -1),
    Orientation(0, 2, 1, -1, 1, 1),
    Orientation(0, 1, 2, -1, -1, 1),
    Orientation(0, 2, 1, -1, -1, -1),

    Orientation(1, 0, 2, 1, 1, -1),
    Orientation(1, 2, 0, 1, 1, 1),
    Orientation(1, 0, 2, -1, 1, 1),
    Orientation(1, 2, 0, -1, 1, -1),

    Orientation(1, 0, 2, 1, -1, 1),
    Orientation(1, 2, 0, 1, -1, -1),
    Orientation(1, 0, 2, -1, -1, -1),
    Orientation(1, 2, 0, -1, -1, 1),

    Orientation(2, 0, 1, 1, 1, 1),
    Orientation(2, 1, 0, 1, -1, 1),
    Orientation(2, 0, 1, -1, 1, -1),
    Orientation(2, 1, 0, -1, -1, -1),

    Orientation(2, 0, 1, 1, -1, -1),
    Orientation(2, 1, 0, 1, 1, -1),
    Orientation(2, 0, 1, -1, -1, 1),
    Orientation(2, 1, 0, -1, 1, 1)
  ]

  predicate IsAxis(c: int) { 0 <= c <= 2 }

  predicate IsSign(s: int) { s == 1 || s == -1 }

  /** The three axes are taken once each, and each is kept or mirrored. */
  predicate IsSignedPermutation(o: Orientation)
  {
    IsAxis(o.c1) && IsAxis(o.c2) && IsAxis(o.c3)
    && o.c1 != o.c2 && o.c1 != o.c3 && o.c2 != o.c3
    && IsSign(o.s1) && IsSign(o.s2) && IsSign(o.s3)
  }

  /** The sign of the axis permutation: 1 for the three cyclic ones, -1 for the three swaps. */
  function Parity(o: Orientation): int
  {
    if (o.c1 == 0 && o.c2 == 1) || (o.c1 == 1 && o.c2 == 2) || (o.c1 == 2 && o.c2 == 0) then 1 else -1
  }

  /** The determinant of the signed permutation matrix. */
  function Determinant(o: Orientation): int
  {
    Parity(o) * o.s1 * o.s2 * o.s3
  }

  /** A proper rotation of the axes: a signed permutation that does not mirror space. */
  predicate IsRotation(o: Orientation)
  {
    IsSignedPermutation(o) && Determinant(o) == 1
  }

  /** Every entry is a rotation, and the first leaves every point where it is. */
  lemma OrientationsAreRotations()
    ensures |AllOrientations| == 24
    ensures AllOrientations[0] == Orientation(0, 1, 2, 1, 1, 1)
    ensures forall i :: 0 <= i < 24 ==> IsRotation(AllOrientations[i])
  {
  }

  /** No rotation is listed twice. */
  lemma OrientationsDistinct()
    ensures forall i, j :: 0 <= i < j < 24 ==> AllOrientations[i] != AllOrientations[j]
  {
  }

  /** There are no other rotations: the table lists all 24. */
  lemma OrientationsComplete(o: Orientation)
    requires IsRotation(o)
    ensures o in AllOrientations
  {
  }

  /** `GetCoord`: coordinate 0, 1 or 2 of a point (every table entry names one of those). */
  function Coord(p: Point3D, index: int): int
    requires IsAxis(index)
  {
    if index == 0 then p.x else if index == 1 then p.y else p.z
  }

  /** A point turned by a table entry: each new coordinate is an old one, kept or mirrored. */
  function Rotate(p: Point3D, o: Orientation): (r: Point3D)
    requires IsSignedPermutation(o)
    ensures Abs(r.x) == Abs(Coord(p, o.c1)) && Abs(r.y) == Abs(Coord(p, o.c2)) && Abs(r.z) == Abs(Coord(p, o.c3))
  {
    SignedAbs(Coord(p, o.c1), o.s1);
    SignedAbs(Coord(p, o.c2), o.s2);
    SignedAbs(Coord(p, o.c3), o.s3);
    Point3D(Coord(p, o.c1) * o.s1, Coord(p, o.c2) * o.s2, Coord(p, o.c3) * o.s3)
  }

  lemma SignedAbs(v: int, s: int)
    requires IsSign(s)
    ensures Abs(v * s) == Abs(v)
  {
    if s == -1 {
      assert v * s == -v;
    }
  }

  /** A turned point is as far from the origin as the point. */
  lemma RotateKeepsNorm(p: Point3D, o: Orientation)
    requires IsSignedPermutation(o)
    ensures ManhattanDistance(Rotate(p, o), Origin) == ManhattanDistance(p, Origin)
  {
    var r := Rotate(p, o);
    assert ManhattanDistance(r, Origin) == Abs(Coord(p, o.c1)) + Abs(Coord(p, o.c2)) + Abs(Coord(p, o.c3));
  }

  lemma SignedDifference(u: int, v: int, s: int)
    requires IsSign(s)
    ensures (u - v) * s == u * s - v * s
  {
    if s == -1 {
      assert (u - v) * s == v - u;
    }
  }

  /** Turning commutes with taking differences. */
  lemma RotateMinus(a: Point3D, b: Point3D, o: Orientation)
    requires IsSignedPermutation(o)
    ensures Rotate(Minus(a, b), o) == Minus(Rotate(a, o), Rotate(b, o))
  {
    var d := Minus(a, b);
    assert Coord(d, o.c1) == Coord(a, o.c1) - Coord(b, o.c1);
    assert Coord(d, o.c2) == Coord(a, o.c2) - Coord(b, o.c2);
    assert Coord(d, o.c3) == Coord(a, o.c3) - Coord(b, o.c3);
    SignedDifference(Coord(a, o.c1), Coord(b, o.c1), o.s1);
    SignedDifference(Coord(a, o.c2), Coord(b, o.c2), o.s2);
    SignedDifference(Coord(a, o.c3), Coord(b, o.c3), o.s3);
  }

  /** Turning keeps the distance between any two points, and so never merges two points. */
  lemma RotateKeepsDistance(a: Point3D, b: Point3D, o: Orientation)
    requires IsSignedPermutation(o)
    ensures ManhattanDistance(Rotate(a, o), Rotate(b, o)) == ManhattanDistance(a, b)
    ensures Rotate(a, o) == Rotate(b, o) ==> a == b
  {
    RotateMinus(a, b, o);
    RotateKeepsNorm(Minus(a, b), o);
    DistanceAsNorm(a, b);
    DistanceAsNorm(Rotate(a, o), Rotate(b, o));
  }

  lemma DistanceAsNorm(a: Point3D, b: Point3D)
    ensures ManhattanDistance(a, b) == ManhattanDistance(Minus(a, b), Origin)
  {
  }

  /** The beacons as the table entry `id` turns them (`GetAllBeacons(orientationId)` as a value). */
  function Oriented(bs: seq<Point3D>, id: int): (r: seq<Point3D>)
    requires 0 <= id < 24
    ensures |r| == |bs|
  {
    OrientationsAreRotations();
    seq(|bs|, i requires 0 <= i < |bs| => Rotate(bs[i], AllOrientations[id]))
  }

  /** The first table entry leaves every beacon where it is. */
  lemma OrientedByIdentity(bs: seq<Point3D>)
    ensures Oriented(bs, 0) == bs
  {
    OrientationsAreRotations();
    assert forall i :: 0 <= i < |bs| ==> Oriented(bs, 0)[i] == bs[i];
  }

  /** Each beacon moved by `t`. */
  function Shifted(bs: seq<Point3D>, t: Point3D): (r: seq<Point3D>)
    ensures |r| == |bs|
  {
    seq(|bs|, i requires 0 <= i < |bs| => Plus(bs[i], t))
  }

  /** Each scanner position moved by `t`; the scanner ids stay. */
  function ShiftedScanners(m: map<int, Point3D>, t: Point3D): (r: map<int, Point3D>)
    ensures r.Keys == m.Keys
  {
    map k | k in m :: Plus(m[k], t)
  }

  /** The positions of a list, as the `HashSet` built from it. */
  function AsSet(bs: seq<Point3D>): (r: set<Point3D>)
    ensures forall b {:trigger b in r} :: b in r <==> b in bs
  {
    set b | b in bs
  }

  // ---------------------------------------------------------------------------
  // The 12-match acceptance rule (Day19.cs:98-128).
  // ---------------------------------------------------------------------------

  const MinMatches := 12

  /** How many of the oriented beacons land on a reference beacon once moved by `t`. */
  function MatchCount(refSet: set<Point3D>, oriented: seq<Point3D>, t: Point3D): (n: nat)
    ensures n <= |oriented|
  {
    if |oriented| == 0 then 0
    else
      MatchCount(refSet, oriented[..|oriented| - 1], t)
      + (if Plus(oriented[|oriented| - 1], t) in refSet then 1 else 0)
  }

  /** The translation is accepted once at least 12 moved beacons coincide with reference ones. */
  predicate Accepts(refSet: set<Point3D>, oriented: seq<Point3D>, t: Point3D)
  {
    MatchCount(refSet, oriented, t) >= MinMatches
  }

  /** Counting a prefix never finds more than counting the whole list. */
  lemma {:induction false} MatchCountPrefix(refSet: set<Point3D>, oriented: seq<Point3D>, k: nat, t: Point3D)
    requires k <= |oriented|
    ensures MatchCount(refSet, oriented[..k], t) <= MatchCount(refSet, oriented, t)
    decreases |oriented|
  {
    if k < |oriented| {
      var n := |oriented| - 1;
      assert oriented[..n][..k] == oriented[..k];
      MatchCountPrefix(refSet, oriented[..n], k, t);
    } else {
      assert oriented[..k] == oriented;
    }
  }

  /** A translation that counts any match carries some oriented beacon onto a reference beacon. */
  lemma {:induction false} LandingBeacon(refSet: set<Point3D>, oriented: seq<Point3D>, t: Point3D) returns (j: nat)
    requires MatchCount(refSet, oriented, t) > 0
    ensures j < |oriented| && Plus(oriented[j], t) in refSet
    decreases |oriented|
  {
    var n := |oriented| - 1;
    if Plus(oriented[n], t) in refSet {
      j := n;
    } else {
      j := LandingBeacon(refSet, oriented[..n], t);
    }
  }

  /** Moving the beacons by `t` first and then by nothing counts the same matches. */
  lemma {:induction false} MatchCountShifted(refSet: set<Point3D>, oriented: seq<Point3D>, t: Point3D)
    ensures MatchCount(refSet, Shifted(oriented, t), Origin) == MatchCount(refSet, oriented, t)
    decreases |oriented|
  {
    if |oriented| > 0 {
      var n := |oriented| - 1;
      assert Shifted(oriented, t)[..n] == Shifted(oriented[..n], t);
      MatchCountShifted(refSet, oriented[..n], t);
      assert Plus(Shifted(oriented, t)[n], Origin) == Plus(oriented[n], t);
    }
  }

  /**
   * The counting loop with its early exit: it stops at the 12th match, and it reports a
   * match exactly when the translation is accepted.
   */
  method CountReaches(refSet: set<Point3D>, oriented: seq<Point3D>, translation: Point3D) returns (ok: bool)
    ensures ok <==> Accepts(refSet, oriented, translation)
  {
    var matchCount := 0;
    for k := 0 to |oriented|
      invariant matchCount == MatchCount(refSet, oriented[..k], translation) < MinMatches
    {
      assert oriented[..k + 1][..k] == oriented[..k];
      if Plus(oriented[k], translation) in refSet {
        matchCount := matchCount + 1;
        if matchCount >= MinMatches {
          MatchCountPrefix(refSet, oriented, k + 1, translation);
          return true;
        }
      }
    }
    assert oriented[..|oriented|] == oriented;
    return false;
  }

  /**
   * The search over one orientation: every reference beacon paired with every oriented
   * beacon gives a candidate translation. The search finds an accepted translation when
   * there is one at all, since an accepted one carries some beacon onto a reference one.
   */
  method SearchTranslation(refSet: set<Point3D>, refList: seq<Point3D>, oriented: seq<Point3D>)
    returns (found: bool, translation: Point3D)
    requires refSet == AsSet(refList)
    ensures found ==> Accepts(refSet, oriented, translation)
    ensures !found ==> forall t :: !Accepts(refSet, oriented, t)
  {
    for a := 0 to |refList|
      invariant forall i, j :: 0 <= i < a && 0 <= j < |oriented| ==>
        !Accepts(refSet, oriented, Minus(refList[i], oriented[j]))
    {
      for b := 0 to |oriented|
        invariant forall i, j :: 0 <= i < a && 0 <= j < |oriented| ==>
          !Accepts(refSet, oriented, Minus(refList[i], oriented[j]))
        invariant forall j :: 0 <= j < b ==> !Accepts(refSet, oriented, Minus(refList[a], oriented[j]))
      {
        translation := Minus(refList[a], oriented[b]);
        var ok := CountReaches(refSet, oriented, translation);
        if ok {
          return true, translation;
        }
      }
    }
    NoCandidateNoMatch(refSet, refList, oriented);
    return false, Origin;
  }

  /** When no candidate translation is accepted, no translation is. */
  lemma NoCandidateNoMatch(refSet: set<Point3D>, refList: seq<Point3D>, oriented: seq<Point3D>)
    requires refSet == AsSet(refList)
    requires forall i, j :: 0 <= i < |refList| && 0 <= j < |oriented| ==>
      !Accepts(refSet, oriented, Minus(refList[i], oriented[j]))
    ensures forall t :: !Accepts(refSet, oriented, t)
  {
    forall t
      ensures !Accepts(refSet, oriented, t)
    {
      if MatchCount(refSet, oriented, t) > 0 {
        var j := LandingBeacon(refSet, oriented, t);
        var i :| 0 <= i < |refList| && refList[i] == Plus(oriented[j], t);
        assert Minus(refList[i], oriented[j]) == t;
      }
    }
  }

  // ---------------------------------------------------------------------------
  // The dedup-append of `AddSpace` (Day19.cs:233-246).
  // ---------------------------------------------------------------------------

  /** `acc` followed by each element of `src` that is not yet present, in `src` order. */
  function AppendNew<T(==)>(acc: seq<T>, src: seq<T>): seq<T>
  {
    if |src| == 0 then acc
    else
      var a := AppendNew(acc, src[..|src| - 1]);
      if src[|src| - 1] in a then a else a + [src[|src| - 1]]
  }

  predicate NoDuplicates<T(==)>(s: seq<T>)
  {
    forall i, j :: 0 <= i < j < |s| ==> s[i] != s[j]
  }

  /**
   * The appended list keeps `acc` in front, holds exactly the elements of `acc` and `src`,
   * and stays duplicate-free when `acc` was.
   */
  lemma {:induction false} AppendNewSpec<T>(acc: seq<T>, src: seq<T>)
    ensures |AppendNew(acc, src)| >= |acc| && AppendNew(acc, src)[..|acc|] == acc
    ensures forall x :: x in AppendNew(acc, src) <==> x in acc || x in src
    ensures NoDuplicates(acc) ==> NoDuplicates(AppendNew(acc, src))
    decreases |src|
  {
    if |src| > 0 {
      var n := |src| - 1;
      AppendNewSpec(acc, src[..n]);
      var a := AppendNew(acc, src[..n]);
      assert src == src[..n] + [src[n]];
      if src[n] !in a {
        assert (a + [src[n]])[..|acc|] == a[..|acc|];
      }
    }
  }

  // ---------------------------------------------------------------------------
  // A scanner's space (Day19.cs:184-295).
  // ---------------------------------------------------------------------------

  /** Some element of a non-empty set: the next key a `foreach` over the keys visits. */
  method PickOne<T>(s: set<T>) returns (x: T)
    requires s != {}
    ensures x in s
  {
    x :| x in s;
  }

  /** The empty `_beaconsByOrientation` cache: 24 slots, none filled. */
  function Uncached(): (r: seq<Option<seq<Point3D>>>)
    ensures |r| == 24 && forall o :: 0 <= o < 24 ==> r[o].None?
  {
    seq(24, _ => None)
  }

  class Space3D {
    /** `_allBeacons`, in the order they were added. */
    var beacons: seq<Point3D>
    /** `_allScanners`: the position of each scanner id, in this space's frame. */
    var scanners: map<int, Point3D>
    /** `_beaconsByOrientation`: slot `o` holds the beacons turned by orientation `o`, once computed. */
    var cache: seq<Option<seq<Point3D>>>

    /** Every filled cache slot agrees with the beacons. */
    ghost predicate Valid()
      reads this
    {
      |cache| == 24
      && forall o :: 0 <= o < 24 && cache[o].Some? ==> cache[o].value == Oriented(beacons, o)
    }

    /** No cache slot is filled. */
    ghost predicate Fresh()
      reads this
    {
      cache == Uncached()
    }

    /** A scanner's own space: no beacon yet, and the scanner itself at the origin. */
    constructor (id: int)
      ensures Valid() && Fresh()
      ensures beacons == [] && scanners == map[id := Origin]
    {
      beacons := [];
      scanners := map[id := Origin];
      cache := Uncached();
    }

    /** `AddBeacon` appends; it does not touch the cache, so it is only consistent before any orientation is cached. */
    method AddBeacon(x: int, y: int, z: int)
      modifies this
      ensures beacons == old(beacons) + [Point3D(x, y, z)]
      ensures scanners == old(scanners) && cache == old(cache)
      ensures Fresh() ==> Valid()
    {
      beacons := beacons + [Point3D(x, y, z)];
    }

    /**
     * `GetAllBeacons(orientationId)`: a filled slot is returned as it is; otherwise the
     * turned beacons are computed and stored in the slot. On a valid space the answer is
     * always the turned beacons.
     */
    method GetAllBeacons(orientationId: int) returns (r: seq<Point3D>)
      requires |cache| == 24 && 0 <= orientationId < 24
      modifies this
      ensures beacons == old(beacons) && scanners == old(scanners)
      ensures old(cache[orientationId]).Some? ==> r == old(cache[orientationId]).value && cache == old(cache)
      ensures old(cache[orientationId]).None? ==>
        r == Oriented(beacons, orientationId) && cache == old(cache)[orientationId := Some(r)]
      ensures old(Valid()) ==> Valid() && r == Oriented(beacons, orientationId)
    {
      if cache[orientationId].Some? {
        return cache[orientationId].value;
      }
      r := Oriented(beacons, orientationId);
      cache := cache[orientationId := Some(r)];
    }

    /** Adds `t` to every scanner position, one id after the other. */
    method ShiftScanners(t: Point3D)
      modifies this
      ensures scanners == ShiftedScanners(old(scanners), t)
      ensures beacons == old(beacons) && cache == old(cache)
    {
      ghost var before := scanners;
      var rest := scanners.Keys;
      while rest != {}
        invariant rest <= before.Keys && scanners.Keys == before.Keys
        invariant forall k :: k in scanners ==> scanners[k] == (if k in rest then before[k] else Plus(before[k], t))
        invariant beacons == old(beacons) && cache == old(cache)
        decreases rest
      {
        var id := PickOne(rest);
        scanners := scanners[id := Plus(scanners[id], t)];
        rest := rest - {id};
      }
      assert forall k :: k in scanners ==> scanners[k] == ShiftedScanners(before, t)[k];
    }

    /**
     * `Transform`, with the beacons turned before the list is cleared: the beacons become
     * their turned images moved by `t`, every scanner moves by `t`, and the cache is emptied.
     */
    method Transform(orientationId: int, t: Point3D)
      requires Valid() && 0 <= orientationId < 24
      modifies this
      ensures beacons == Shifted(Oriented(old(beacons), orientationId), t)
      ensures scanners == ShiftedScanners(old(scanners), t)
      ensures Valid() && Fresh()
    {
      var oriented := GetAllBeacons(orientationId);
      beacons := Shifted(oriented, t);
      ShiftScanners(t);
      cache := Uncached();
    }

    /**
     * `Transform` as written: the list is cleared before `GetAllBeacons` reads it, so the
     * turned beacons survive only when that orientation was already cached.
     */
    method TransformAsWritten(orientationId: int, t: Point3D)
      requires Valid() && 0 <= orientationId < 24
      modifies this
      ensures old(cache[orientationId]).Some? ==> beacons == Shifted(Oriented(old(beacons), orientationId), t)
      ensures old(cache[orientationId]).None? ==> beacons == []
      ensures scanners == ShiftedScanners(old(scanners), t)
      ensures Valid() && Fresh()
    {
      beacons := [];
      var oriented := GetAllBeacons(orientationId);
      beacons := Shifted(oriented, t);
      ShiftScanners(t);
      cache := Uncached();
    }

    /**
     * `AddSpace`: the other space's scanners whose ids are new here are added, and its
     * beacons not yet present are appended in order; the cache is left as it was.
     */
    method AddSpace(other: Space3D)
      modifies this
      ensures scanners == old(other.scanners) + old(scanners)
      ensures beacons == AppendNew(old(beacons), old(other.beacons))
      ensures cache == old(cache)
      ensures Fresh() ==> Valid()
    {
      var source := other.scanners;
      var sourceBeacons := other.beacons;
      ghost var before := scanners;
      var pending := set k | k in source && k !in scanners;
      while pending != {}
        invariant pending <= source.Keys && forall k :: k in pending ==> k !in before
        invariant forall k :: k in scanners <==> k in before || (k in source && k !in pending)
        invariant forall k :: k in scanners ==> scanners[k] == if k in before then before[k] else source[k]
        invariant beacons == old(beacons) && cache == old(cache)
        decreases pending
      {
        var k := PickOne(pending);
        scanners := scanners[k := source[k]];
        pending := pending - {k};
      }
      assert forall k :: k in scanners <==> k in source || k in before;
      assert scanners.Keys == (source + before).Keys;
      assert forall k :: k in scanners ==> scanners[k] == (source + before)[k];
      for i := 0 to |sourceBeacons|
        invariant beacons == AppendNew(old(beacons), sourceBeacons[..i])
        invariant scanners == source + before && cache == old(cache)
      {
        assert sourceBeacons[..i + 1][..i] == sourceBeacons[..i];
        if sourceBeacons[i] !in beacons {
          beacons := beacons + [sourceBeacons[i]];
        }
      }
      assert sourceBeacons[..|sourceBeacons|] == sourceBeacons;
    }
  }

  /**
   * `MatchFound`: the orientations are tried in turn; the first accepted translation moves
   * the other space into the reference frame, through `Transform` as written, whose
   * orientation is always cached by then. When none is accepted, no orientation and
   * no translation at all brings 12 beacons together, and the other space keeps its beacons
   * and scanners.
   */
  method MatchFound(refSpace: Space3D, otherSpace: Space3D) returns (matched: bool)
    requires otherSpace.Valid()
    modifies otherSpace
    ensures otherSpace.Valid()
    ensures matched ==> exists id: int, t: Point3D :: (0 <= id < 24
      && Accepts(old(AsSet(refSpace.beacons)), Oriented(old(otherSpace.beacons), id), t)
      && otherSpace.beacons == Shifted(Oriented(old(otherSpace.beacons), id), t)
      && otherSpace.scanners == ShiftedScanners(old(otherSpace.scanners), t))
    ensures matched ==> MatchCount(old(AsSet(refSpace.beacons)), otherSpace.beacons, Origin) >= MinMatches
    ensures !matched ==> forall id: int, t: Point3D :: 0 <= id < 24 ==>
      !Accepts(old(AsSet(refSpace.beacons)), Oriented(old(otherSpace.beacons), id), t)
    ensures !matched ==> otherSpace.beacons == old(otherSpace.beacons) && otherSpace.scanners == old(otherSpace.scanners)
  {
    var refList := refSpace.beacons;
    var refSet := AsSet(refList);
    ghost var before := otherSpace.beacons;
    for id := 0 to 24
      invariant otherSpace.Valid()
      invariant otherSpace.beacons == before && otherSpace.scanners == old(otherSpace.scanners)
      invariant forall j: int, t: Point3D :: 0 <= j < id ==> !Accepts(refSet, Oriented(before, j), t)
    {
      var orientedOther := otherSpace.GetAllBeacons(id);
      var found, translation := SearchTranslation(refSet, refList, orientedOther);
      if found {
        // `GetAllBeacons(id)` has just filled slot `id`, so the transform as written keeps the beacons.
        assert otherSpace.cache[id].Some?;
        otherSpace.TransformAsWritten(id, translation);
        MatchCountShifted(refSet, orientedOther, translation);
        return true;
      }
    }
    return false;
  }

  // ---------------------------------------------------------------------------
  // Merging the matched spaces into the first (Day19.cs:63-72).
  // ---------------------------------------------------------------------------

  /** The beacons after adding the spaces, in order, to the first: each new beacon once. */
  function MergedBeacons(lists: seq<seq<Point3D>>): seq<Point3D>
    requires |lists| > 0
    decreases |lists|
  {
    if |lists| == 1 then lists[0]
    else AppendNew(MergedBeacons(lists[..|lists| - 1]), lists[|lists| - 1])
  }

  /** The scanners after the merge: an id already present keeps its first position. */
  function MergedScanners(maps: seq<map<int, Point3D>>): map<int, Point3D>
    requires |maps| > 0
    decreases |maps|
  {
    if |maps| == 1 then maps[0]
    else maps[|maps| - 1] + MergedScanners(maps[..|maps| - 1])
  }

  /**
   * The merged list holds exactly the beacons of all the spaces, once each when the first
   * space had no duplicate, and starts with the first space's beacons.
   */
  lemma {:induction false} MergedBeaconsSpec(lists: seq<seq<Point3D>>)
    requires |lists| > 0
    ensures forall b :: b in MergedBeacons(lists) <==> exists k :: 0 <= k < |lists| && b in lists[k]
    ensures NoDuplicates(lists[0]) ==> NoDuplicates(MergedBeacons(lists))
    ensures lists[0] <= MergedBeacons(lists)
    decreases |lists|
  {
    if |lists| > 1 {
      var n := |lists| - 1;
      var front := lists[..n];
      MergedBeaconsSpec(front);
      AppendNewSpec(MergedBeacons(front), lists[n]);
      forall b | b in MergedBeacons(lists)
        ensures exists k :: 0 <= k < |lists| && b in lists[k]
      {
        if b !in lists[n] {
          var k :| 0 <= k < |front| && b in front[k];
          assert front[k] == lists[k];
        }
      }
      forall b, k | 0 <= k < |lists| && b in lists[k]
        ensures b in MergedBeacons(lists)
      {
        if k < n {
          assert front[k] == lists[k];
        }
      }
    }
  }

  /** Every scanner id of every space is present after the merge. */
  lemma {:induction false} MergedScannersKeys(maps: seq<map<int, Point3D>>)
    requires |maps| > 0
    ensures forall id :: id in MergedScanners(maps) <==> exists k :: 0 <= k < |maps| && id in maps[k]
    ensures forall id :: id in maps[0] ==> MergedScanners(maps)[id] == maps[0][id]
    decreases |maps|
  {
    if |maps| > 1 {
      var n := |maps| - 1;
      var front := maps[..n];
      MergedScannersKeys(front);
      assert front[0] == maps[0];
      forall id | id in MergedScanners(maps)
        ensures exists k :: 0 <= k < |maps| && id in maps[k]
      {
        if id !in maps[n] {
          assert id in MergedScanners(front);
          var k :| 0 <= k < |front| && id in front[k];
          assert front[k] == maps[k];
        }
      }
      forall id, k | 0 <= k < |maps| && id in maps[k]
        ensures id in MergedScanners(maps)
      {
        if k < n {
          assert front[k] == maps[k];
        }
      }
    }
  }

  ghost function BeaconLists(spaces: seq<Space3D>): (r: seq<seq<Point3D>>)
    reads spaces
    ensures |r| == |spaces| && forall k :: 0 <= k < |spaces| ==> r[k] == spaces[k].beacons
  {
    seq(|spaces|, k requires 0 <= k < |spaces| reads spaces => spaces[k].beacons)
  }

  ghost function ScannerMaps(spaces: seq<Space3D>): (r: seq<map<int, Point3D>>)
    reads spaces
    ensures |r| == |spaces| && forall k :: 0 <= k < |spaces| ==> r[k] == spaces[k].scanners
  {
    seq(|spaces|, k requires 0 <= k < |spaces| reads spaces => spaces[k].scanners)
  }

  /** The end of `PerformMatch`: every other matched space is added, in order, to the first. */
  method MergeSpaces(spaces: seq<Space3D>) returns (result: Space3D)
    requires |spaces| > 0
    requires forall j, k :: 0 <= j < k < |spaces| ==> spaces[j] != spaces[k]
    modifies spaces[0]
    ensures result == spaces[0]
    ensures result.beacons == MergedBeacons(old(BeaconLists(spaces)))
    ensures result.scanners == MergedScanners(old(ScannerMaps(spaces)))
  {
    ghost var lists := BeaconLists(spaces);
    ghost var maps := ScannerMaps(spaces);
    result := spaces[0];
    for k := 1 to |spaces|
      invariant result == spaces[0]
      invariant result.beacons == MergedBeacons(lists[..k]) && result.scanners == MergedScanners(maps[..k])
    {
      assert spaces[k] != result;
      MergeStep(lists, maps, k);
      result.AddSpace(spaces[k]);
    }
    assert lists[..|spaces|] == lists && maps[..|spaces|] == maps;
  }

  /** Adding space `k` to the merge of the ones before it gives the merge of the first `k + 1`. */
  lemma MergeStep(lists: seq<seq<Point3D>>, maps: seq<map<int, Point3D>>, k: int)
    requires 0 < k < |lists| && k < |maps|
    ensures MergedBeacons(lists[..k + 1]) == AppendNew(MergedBeacons(lists[..k]), lists[k])
    ensures MergedScanners(maps[..k + 1]) == maps[k] + MergedScanners(maps[..k])
  {
    assert lists[..k + 1][..k] == lists[..k] && maps[..k + 1][..k] == maps[..k];
  }

  /** The input that shows the `Transform` defect: one beacon, no orientation cached yet. */
  method TransformAsWrittenLosesBeacons() returns (before: nat, after: nat)
    ensures before == 1 && after == 0
  {
    var space := new Space3D(0);
    space.AddBeacon(1, 2, 3);
    before := |space.beacons|;
    space.TransformAsWritten(0, Origin);
    after := |space.beacons|;
  }

  /** The same input through the corrected `Transform`: the beacon is kept. */
  method TransformKeepsBeacons() returns (before: nat, after: nat)
    ensures before == 1 && after == 1
  {
    var space := new Space3D(0);
    space.AddBeacon(1, 2, 3);
    before := |space.beacons|;
    space.Transform(0, Origin);
    after := |space.beacons|;
  }

  // ---------------------------------------------------------------------------
  // The largest distance between two scanners (Day19.cs:28-36).
  // ---------------------------------------------------------------------------

  /** No pair whose first scanner comes before `i` is further apart than `m`. */
  predicate PairsBelow(s: seq<Point3D>, i: int, m: int)
  {
    forall a, b :: 0 <= a < i && a < b < |s| ==> ManhattanDistance(s[a], s[b]) <= m
  }

  /** `m` is 0 or the distance of some pair. */
  predicate PairAttains(s: seq<Point3D>, m: int)
  {
    m == 0 || exists a, b :: (0 <= a < b < |s| && ManhattanDistance(s[a], s[b]) == m)
  }

  /** The largest Manhattan distance over all pairs of scanners, 0 when there is no pair. */
  method MaxScannerDistance(allScanners: seq<Point3D>) returns (maxDistance: int)
    ensures maxDistance >= 0
    ensures forall i, j :: 0 <= i < j < |allScanners| ==>
      ManhattanDistance(allScanners[i], allScanners[j]) <= maxDistance
    ensures maxDistance == 0 || exists i, j :: (0 <= i < j < |allScanners|
      && ManhattanDistance(allScanners[i], allScanners[j]) == maxDistance)
  {
    maxDistance := 0;
    var i := 0;
    while i < |allScanners| - 1
      invariant 0 <= i <= |allScanners| && maxDistance >= 0
      invariant PairsBelow(allScanners, i, maxDistance) && PairAttains(allScanners, maxDistance)
    {
      var before := maxDistance;
      maxDistance := RowMax(allScanners, i, maxDistance);
      BelowStep(allScanners, i, before, maxDistance);
      AttainsStep(allScanners, i, before, maxDistance);
      i := i + 1;
    }
    BelowAll(allScanners, i, maxDistance);
  }

  lemma BelowStep(s: seq<Point3D>, i: int, m0: int, m: int)
    requires 0 <= i < |s| && PairsBelow(s, i, m0) && m >= m0
    requires forall b :: i < b < |s| ==> ManhattanDistance(s[i], s[b]) <= m
    ensures PairsBelow(s, i + 1, m)
  {
  }

  lemma AttainsStep(s: seq<Point3D>, i: int, m0: int, m: int)
    requires 0 <= i < |s| && PairAttains(s, m0)
    requires m == m0 || exists b :: i < b < |s| && ManhattanDistance(s[i], s[b]) == m
    ensures PairAttains(s, m)
  {
    if m != m0 {
      var b :| i < b < |s| && ManhattanDistance(s[i], s[b]) == m;
      assert 0 <= i < b < |s|;
    }
  }

  lemma BelowAll(s: seq<Point3D>, i: int, m: int)
    requires 0 <= i && |s| - 1 <= i && PairsBelow(s, i, m)
    ensures forall a, b :: 0 <= a < b < |s| ==> ManhattanDistance(s[a], s[b]) <= m
  {
    forall a, b | 0 <= a < b < |s|
      ensures ManhattanDistance(s[a], s[b]) <= m
    {
      assert a < i;
    }
  }

  /** The inner loop: the largest of `m0` and the distances from scanner `i` to the later ones. */
  method RowMax(s: seq<Point3D>, i: int, m0: int) returns (m: int)
    requires 0 <= i < |s|
    ensures m >= m0
    ensures forall b :: i < b < |s| ==> ManhattanDistance(s[i], s[b]) <= m
    ensures m == m0 || exists b :: i < b < |s| && ManhattanDistance(s[i], s[b]) == m
  {
    m := m0;
    for j := i + 1 to |s|
      invariant m >= m0
      invariant forall b :: i < b < j ==> ManhattanDistance(s[i], s[b]) <= m
      invariant m == m0 || exists b :: i < b < j && ManhattanDistance(s[i], s[b]) == m
    {
      var d := ManhattanDistance(s[i], s[j]);
      if d > m {
        m := d;
      }
    }
  }

  // ---------------------------------------------------------------------------
  // Reading the scanner reports (Day19.cs:144-182).
  // ---------------------------------------------------------------------------

  /** A scanner header: the line starts with `---`. */
  predicate IsHeader(line: string)
  {
    |line| >= 3 && line[..3] == "---"
  }

  /** The id of a header `--- scanner n ---`: the third word, parsed. */
  function ParseScannerId(line: string): Result<int>
  {
    var parts := Text.Split(line, ' ');
    if |parts| < 3 then Fail("IndexOutOfRangeException") else Text.ParseInt32(parts[2])
  }

  /** A beacon line `x,y,z`, read piece by piece in the order C# evaluates the arguments. */
  function ParseBeacon(line: string): Result<Point3D>
  {
    var parts := Text.Split(line, ',');
    var x := Text.ParseInt32(parts[0]);
    if x.Fail? then Fail(x.error)
    else if |parts| < 2 then Fail("IndexOutOfRangeException")
    else
      var y := Text.ParseInt32(parts[1]);
      if y.Fail? then Fail(y.error)
      else if |parts| < 3 then Fail("IndexOutOfRangeException")
      else
        var z := Text.ParseInt32(parts[2]);
        if z.Fail? then Fail(z.error) else Ok(Point3D(x.value, y.value, z.value))
  }

  /** One scanner's report: its id and the beacons it sees, in input order. */
  datatype Report = Report(id: int, beacons: seq<Point3D>)

  /** The reports stored, and the exception that stopped the reading, if any. */
  datatype Extracted = Extracted(reports: seq<Report>, error: Option<string>)

  /** A scanner is stored only when it has at least one beacon. */
  function Flush(done: seq<Report>, current: Report): seq<Report>
  {
    if |current.beacons| != 0 then done + [current] else done
  }

  /**
   * The reading loop from line 0 on: blank lines are skipped, a header stores the current
   * scanner and starts a new one, any other line adds a beacon to the current scanner.
   */
  function ReadScanners(lines: seq<string>, current: Report, done: seq<Report>): Extracted
    decreases |lines|
  {
    if |lines| == 0 then Extracted(Flush(done, current), None)
    else if |lines[0]| == 0 then ReadScanners(lines[1..], current, done)
    else if IsHeader(lines[0]) then
      var saved := Flush(done, current);
      var id := ParseScannerId(lines[0]);
      if id.Fail? then Extracted(saved, Some(id.error))
      else ReadScanners(lines[1..], Report(id.value, []), saved)
    else
      var b := ParseBeacon(lines[0]);
      if b.Fail? then Extracted(done, Some(b.error))
      else ReadScanners(lines[1..], Report(current.id, current.beacons + [b.value]), done)
  }

  /** `ExtractData` as a value: the reading starts with an empty scanner numbered -1. */
  function ExtractScanners(lines: seq<string>): Extracted
  {
    ReadScanners(lines, Report(-1, []), [])
  }

  predicate AllNonEmpty(rs: seq<Report>)
  {
    forall k :: 0 <= k < |rs| ==> |rs[k].beacons| > 0
  }

  /** What is already stored stays stored, in order, and every stored scanner has a beacon. */
  lemma {:induction false} ReadScannersKeeps(lines: seq<string>, current: Report, done: seq<Report>)
    requires AllNonEmpty(done)
    ensures done <= ReadScanners(lines, current, done).reports
    ensures AllNonEmpty(ReadScanners(lines, current, done).reports)
    decreases |lines|
  {
    if |lines| > 0 && |lines[0]| > 0 {
      if IsHeader(lines[0]) {
        var saved := Flush(done, current);
        if ParseScannerId(lines[0]).Ok? {
          ReadScannersKeeps(lines[1..], Report(ParseScannerId(lines[0]).value, []), saved);
        }
      } else if ParseBeacon(lines[0]).Ok? {
        ReadScannersKeeps(lines[1..], Report(current.id, current.beacons + [ParseBeacon(lines[0]).value]), done);
      }
    } else if |lines| > 0 {
      ReadScannersKeeps(lines[1..], current, done);
    }
  }

  /** A blank line anywhere changes nothing. */
  lemma {:induction false} BlankLineSkipped(before: seq<string>, after: seq<string>, current: Report, done: seq<Report>)
    ensures ReadScanners(before + [""] + after, current, done) == ReadScanners(before + after, current, done)
    decreases |before|
  {
    if |before| == 0 {
      assert (before + [""] + after)[1..] == before + after;
    } else {
      var lines := before + [""] + after;
      assert lines[0] == (before + after)[0] == before[0];
      assert lines[1..] == before[1..] + [""] + after;
      assert (before + after)[1..] == before[1..] + after;
      var line := before[0];
      if |line| == 0 {
        BlankLineSkipped(before[1..], after, current, done);
      } else if IsHeader(line) {
        if ParseScannerId(line).Ok? {
          BlankLineSkipped(before[1..], after, Report(ParseScannerId(line).value, []), Flush(done, current));
        }
      } else if ParseBeacon(line).Ok? {
        BlankLineSkipped(before[1..], after, Report(current.id, current.beacons + [ParseBeacon(line).value]), done);
      }
    }
  }

  // The reports printed back in the puzzle's format, to state the round trip.

  function Header(id: int): string
  {
    Text.Join(["---", "scanner", Text.IntToString(id), "---"], ' ')
  }

  function BeaconLine(b: Point3D): string
  {
    Text.Join([Text.IntToString(b.x), Text.IntToString(b.y), Text.IntToString(b.z)], ',')
  }

  function BeaconLines(bs: seq<Point3D>): seq<string>
  {
    if |bs| == 0 then [] else [BeaconLine(bs[0])] + BeaconLines(bs[1..])
  }

  /** Each report as a header, its beacon lines and a blank line. */
  function Render(rs: seq<Report>): seq<string>
  {
    if |rs| == 0 then [] else [Header(rs[0].id)] + BeaconLines(rs[0].beacons) + [""] + Render(rs[1..])
  }

  predicate IsPoint32(b: Point3D)
  {
    IsInt32(b.x) && IsInt32(b.y) && IsInt32(b.z)
  }

  /** A report the input can hold: an `int` id and at least one beacon, each with `int` coordinates. */
  predicate Printable(r: Report)
  {
    IsInt32(r.id) && |r.beacons| > 0 && forall k :: 0 <= k < |r.beacons| ==> IsPoint32(r.beacons[k])
  }

  predicate AllPrintable(rs: seq<Report>)
  {
    forall k :: 0 <= k < |rs| ==> Printable(rs[k])
  }

  lemma HeaderParses(id: int)
    requires IsInt32(id)
    ensures |Header(id)| > 0 && IsHeader(Header(id)) && ParseScannerId(Header(id)) == Ok(id)
  {
    var parts := ["---", "scanner", Text.IntToString(id), "---"];
    assert parts[1..] == ["scanner", Text.IntToString(id), "---"];
    assert Header(id) == "---" + [' '] + Text.Join(parts[1..], ' ');
    assert Header(id)[..3] == "---";
    Text.IntToStringChars(id, ' ');
    Text.SplitJoin(parts, ' ');
    Text.ParseInt32ToString(id);
  }

  /** A printed integer never starts with two dashes. */
  lemma IntStringNoDoubleDash(v: int)
    ensures |Text.IntToString(v)| >= 1
    ensures Text.IntToString(v)[0] != '-' || (|Text.IntToString(v)| >= 2 && Text.IntToString(v)[1] != '-')
  {
    if v < 0 {
      var digits := Text.NatToString(-v);
      assert Text.IntToString(v) == "-" + digits;
      assert Text.IntToString(v)[1] == digits[0];
    }
  }

  /** A beacon line splits at its commas into the three printed coordinates. */
  lemma BeaconLineSplits(b: Point3D)
    ensures Text.Split(BeaconLine(b), ',') == [Text.IntToString(b.x), Text.IntToString(b.y), Text.IntToString(b.z)]
  {
    Text.IntToStringChars(b.x, ',');
    Text.IntToStringChars(b.y, ',');
    Text.IntToStringChars(b.z, ',');
    Text.SplitJoin([Text.IntToString(b.x), Text.IntToString(b.y), Text.IntToString(b.z)], ',');
  }

  /** A beacon line is not blank and is not taken for a header. */
  lemma BeaconLineNotHeader(b: Point3D)
    ensures |BeaconLine(b)| > 0 && !IsHeader(BeaconLine(b))
  {
    var first := Text.IntToString(b.x);
    var parts := [first, Text.IntToString(b.y), Text.IntToString(b.z)];
    var line := BeaconLine(b);
    assert line == first + [','] + Text.Join(parts[1..], ',');
    IntStringNoDoubleDash(b.x);
    assert line[0] == first[0];
    if |first| >= 2 {
      assert line[1] == first[1];
    } else {
      assert line[1] == ',';
    }
  }

  lemma BeaconLineParses(b: Point3D)
    requires IsPoint32(b)
    ensures |BeaconLine(b)| > 0 && !IsHeader(BeaconLine(b)) && ParseBeacon(BeaconLine(b)) == Ok(b)
  {
    BeaconLineNotHeader(b);
    BeaconLineSplits(b);
    Text.ParseInt32ToString(b.x);
    Text.ParseInt32ToString(b.y);
    Text.ParseInt32ToString(b.z);
    var parts := Text.Split(BeaconLine(b), ',');
    assert Text.ParseInt32(parts[0]) == Ok(b.x) && Text.ParseInt32(parts[1]) == Ok(b.y) && Text.ParseInt32(parts[2]) == Ok(b.z);
  }

  /** One step of the reading on a beacon line: its beacon is added, or its exception stops the reading. */
  lemma ReadBeaconStep(lines: seq<string>, current: Report, done: seq<Report>, b: Result<Point3D>)
    requires |lines| > 0 && |lines[0]| > 0 && !IsHeader(lines[0]) && ParseBeacon(lines[0]) == b
    ensures b.Ok? ==> ReadScanners(lines, current, done) == ReadScanners(lines[1..], Report(current.id, current.beacons + [b.value]), done)
    ensures b.Fail? ==> ReadScanners(lines, current, done) == Extracted(done, Some(b.error))
  {
  }

  /** One step of the reading on a header: the current scanner is stored, then a new one starts or the exception stops the reading. */
  lemma ReadHeaderStep(lines: seq<string>, current: Report, done: seq<Report>, id: Result<int>)
    requires |lines| > 0 && |lines[0]| > 0 && IsHeader(lines[0]) && ParseScannerId(lines[0]) == id
    ensures id.Ok? ==> ReadScanners(lines, current, done) == ReadScanners(lines[1..], Report(id.value, []), Flush(done, current))
    ensures id.Fail? ==> ReadScanners(lines, current, done) == Extracted(Flush(done, current), Some(id.error))
  {
  }

  /** One step of the reading on a blank line. */
  lemma ReadBlankStep(lines: seq<string>, current: Report, done: seq<Report>)
    requires |lines| > 0 && |lines[0]| == 0
    ensures ReadScanners(lines, current, done) == ReadScanners(lines[1..], current, done)
  {
  }

  /** Beacon lines add their beacons to the current scanner, in order. */
  lemma {:induction false} ReadBeaconLines(bs: seq<Point3D>, rest: seq<string>, current: Report, done: seq<Report>)
    requires forall k :: 0 <= k < |bs| ==> IsPoint32(bs[k])
    ensures ReadScanners(BeaconLines(bs) + rest, current, done)
      == ReadScanners(rest, Report(current.id, current.beacons + bs), done)
    decreases |bs|
  {
    if |bs| == 0 {
      assert BeaconLines(bs) + rest == rest;
      assert current.beacons + bs == current.beacons;
    } else {
      var next := Report(current.id, current.beacons + [bs[0]]);
      FirstBeaconLine(bs, rest, current, done);
      ReadBeaconLines(bs[1..], rest, next, done);
      AppendFirst(current.beacons, bs);
    }
  }

  lemma AppendFirst(front: seq<Point3D>, bs: seq<Point3D>)
    requires |bs| > 0
    ensures (front + [bs[0]]) + bs[1..] == front + bs
  {
  }

  lemma FirstBeaconLine(bs: seq<Point3D>, rest: seq<string>, current: Report, done: seq<Report>)
    requires |bs| > 0 && IsPoint32(bs[0])
    ensures ReadScanners(BeaconLines(bs) + rest, current, done)
      == ReadScanners(BeaconLines(bs[1..]) + rest, Report(current.id, current.beacons + [bs[0]]), done)
  {
    var lines := BeaconLines(bs) + rest;
    assert lines[0] == BeaconLine(bs[0]);
    assert lines[1..] == BeaconLines(bs[1..]) + rest;
    BeaconLineParses(bs[0]);
    ReadBeaconStep(lines, current, done, Ok(bs[0]));
  }

  /** Reading printed reports stores exactly those reports, after what was already pending. */
  lemma {:induction false} ReadRendered(rs: seq<Report>, current: Report, done: seq<Report>)
    requires AllPrintable(rs)
    ensures ReadScanners(Render(rs), current, done) == Extracted(Flush(done, current) + rs, None)
    decreases |rs|
  {
    if |rs| > 0 {
      var saved := Flush(done, current);
      FirstReport(rs, current, done);
      ReadRendered(rs[1..], rs[0], saved);
      FlushNext(saved, rs);
    } else {
      assert Flush(done, current) + rs == Flush(done, current);
    }
  }

  lemma FlushNext(saved: seq<Report>, rs: seq<Report>)
    requires |rs| > 0 && |rs[0].beacons| > 0
    ensures Flush(saved, rs[0]) + rs[1..] == saved + rs
  {
  }

  /** Reading one printed report leaves it as the current scanner, the previous one stored. */
  lemma FirstReport(rs: seq<Report>, current: Report, done: seq<Report>)
    requires |rs| > 0 && Printable(rs[0])
    ensures ReadScanners(Render(rs), current, done) == ReadScanners(Render(rs[1..]), rs[0], Flush(done, current))
  {
    var r := rs[0];
    assert Render(rs) == [Header(r.id)] + (BeaconLines(r.beacons) + ([""] + Render(rs[1..])));
    HeaderParses(r.id);
    ReadReport(Header(r.id), r, Render(rs[1..]), current, done);
  }

  /** A header line that parses, the report's beacon lines and a blank line read as that report. */
  lemma ReadReport(h: string, r: Report, tail: seq<string>, current: Report, done: seq<Report>)
    requires |h| > 0 && IsHeader(h) && ParseScannerId(h) == Ok(r.id)
    requires forall k :: 0 <= k < |r.beacons| ==> IsPoint32(r.beacons[k])
    ensures ReadScanners([h] + (BeaconLines(r.beacons) + ([""] + tail)), current, done)
      == ReadScanners(tail, r, Flush(done, current))
  {
    var saved := Flush(done, current);
    var rest := [""] + tail;
    var lines := [h] + (BeaconLines(r.beacons) + rest);
    assert lines[0] == h && lines[1..] == BeaconLines(r.beacons) + rest;
    assert ReadScanners(lines, current, done) == ReadScanners(BeaconLines(r.beacons) + rest, Report(r.id, []), saved) by {
      ReadHeaderStep(lines, current, done, Ok(r.id));
    }
    assert ReadScanners(BeaconLines(r.beacons) + rest, Report(r.id, []), saved) == ReadScanners(rest, r, saved) by {
      ReadBeaconLines(r.beacons, rest, Report(r.id, []), saved);
      assert [] + r.beacons == r.beacons;
    }
    assert ReadScanners(rest, r, saved) == ReadScanners(tail, r, saved) by {
      ReadBlankStep(rest, r, saved);
      assert rest[1..] == tail;
    }
  }


  /** Printing reports and reading them back gives the same reports, and no exception. */
  lemma ExtractRendered(rs: seq<Report>)
    requires AllPrintable(rs)
    ensures ExtractScanners(Render(rs)) == Extracted(rs, None)
  {
    ReadRendered(rs, Report(-1, []), []);
  }

  /** A space freshly read from the input: the report's beacons, its scanner at the origin, nothing cached. */
  ghost predicate Holds(space: Space3D, r: Report)
    reads space
    ensures Holds(space, r) ==> space.Valid()
  {
    space.beacons == r.beacons && space.scanners == map[r.id := Origin] && space.Fresh()
  }

  /** The solver's state: the spaces read from the input. */
  class Day19 {
    /** `_all3dSpace`: one space per scanner that has a beacon, in input order. */
    var all3dSpace: seq<Space3D>

    constructor ()
      ensures all3dSpace == []
    {
      all3dSpace := [];
    }

    /** The stored spaces hold the given reports, one distinct space each. */
    ghost predicate Stores(reports: seq<Report>)
      reads this, all3dSpace
    {
      |all3dSpace| == |reports|
      && (forall k :: 0 <= k < |reports| ==> Holds(all3dSpace[k], reports[k]))
      && forall j, k :: 0 <= j < k < |all3dSpace| ==> all3dSpace[j] != all3dSpace[k]
    }

    /**
     * `ExtractData`: one new space per stored report of `ExtractScanners`, in order; an
     * exception stops the reading with the spaces stored so far, as the function says.
     */
    method ExtractData(lines: seq<string>) returns (err: Option<string>)
      modifies this
      ensures err == ExtractScanners(lines).error
      ensures Stores(ExtractScanners(lines).reports)
      ensures forall k :: 0 <= k < |all3dSpace| ==> fresh(all3dSpace[k])
    {
      all3dSpace := [];
      var current := new Space3D(-1);
      ghost var currentId := -1;
      ghost var done: seq<Report> := [];
      for i := 0 to |lines|
        invariant ReadScanners(lines[i..], Report(currentId, current.beacons), done) == ExtractScanners(lines)
        invariant Holds(current, Report(currentId, current.beacons))
        invariant fresh(current) && current !in all3dSpace
        invariant Stores(done) && forall k :: 0 <= k < |all3dSpace| ==> fresh(all3dSpace[k])
      {
        var line := lines[i];
        ghost var pending := Report(currentId, current.beacons);
        assert lines[i..][0] == line && lines[i..][1..] == lines[i + 1..];
        if |line| == 0 {
          ReadBlankStep(lines[i..], pending, done);
          continue;
        }
        if IsHeader(line) {
          var id := ParseScannerId(line);
          ReadHeaderStep(lines[i..], pending, done, id);
          if |current.beacons| != 0 {
            Store(current, done, pending);
          }
          done := Flush(done, pending);
          if id.Fail? {
            return Some(id.error);
          }
          current := new Space3D(id.value);
          currentId := id.value;
          continue;
        }
        var b := ParseBeacon(line);
        ReadBeaconStep(lines[i..], pending, done, b);
        if b.Fail? {
          return Some(b.error);
        }
        current.AddBeacon(b.value.x, b.value.y, b.value.z);
      }
      if |current.beacons| != 0 {
        Store(current, done, Report(currentId, current.beacons));
      }
      done := Flush(done, Report(currentId, current.beacons));
      return None;
    }

    /** `_all3dSpace.Add`: the space goes last, after the ones already stored. */
    method Store(space: Space3D, ghost done: seq<Report>, ghost r: Report)
      requires Stores(done) && Holds(space, r) && space !in all3dSpace
      modifies this
      ensures all3dSpace == old(all3dSpace) + [space]
      ensures Stores(done + [r])
    {
      all3dSpace := all3dSpace + [space];
    }
  }
}

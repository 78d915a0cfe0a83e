/**
 * QuickDijkstra: an undirected weighted graph built from `(from, to, distance)` pairs, with
 * Dijkstra's shortest way between two nodes, the brute-force shortest route through every node,
 * and the breadth-first list of the nodes connected to a node.
 *
 * Nodes are the positions of their names in the ascending name list (the order in which the
 * source fills its node dictionary); a node's `Links` dictionary is a list of links in insertion
 * order.
 */
module Dijkstra {
  import opened Wrappers
  import opened Names
  import CSharpInt

  const LongMax: int := CSharpInt.LONG_MAX

  /** An entry of a node's `Links` dictionary: the neighbour and the distance to it. */
  datatype Link = Link(target: nat, distance: int)

  /** `Links.ContainsKey(y)`. */
  predicate HasKey(links: seq<Link>, y: nat)
  {
    exists i :: 0 <= i < |links| && links[i].target == y
  }

  /** `Links.TryGetValue(y, out d)`: the distance stored for y, if any. */
  function Lookup(links: seq<Link>, y: nat): (r: Option<int>)
    ensures r.Some? <==> HasKey(links, y)
  {
    if |links| == 0 then None
    else
      var r := Lookup(links[..|links| - 1], y);
      assert HasKey(links, y) <==> HasKey(links[..|links| - 1], y) || links[|links| - 1].target == y by {
        if HasKey(links, y) && links[|links| - 1].target != y {
          var i :| 0 <= i < |links| && links[i].target == y;
          assert links[..|links| - 1][i].target == y;
        }
      }
      if r.Some? then r
      else if links[|links| - 1].target == y then Some(links[|links| - 1].distance)
      else None
  }

  /** A dictionary holds each key once. */
  predicate UniqueKeys(links: seq<Link>)
  {
    forall i, j :: 0 <= i < j < |links| ==> links[i].target != links[j].target
  }

  predicate WellFormed(links: seq<Link>, n: nat)
  {
    UniqueKeys(links) && forall i :: 0 <= i < |links| ==> links[i].target < n
  }

  /** With unique keys, the entry at i is what the dictionary gives for its key. */
  lemma {:induction false} LookupAt(links: seq<Link>, i: nat)
    requires UniqueKeys(links) && i < |links|
    ensures Lookup(links, links[i].target) == Some(links[i].distance)
    decreases |links|
  {
    var front := links[..|links| - 1];
    if i < |links| - 1 {
      assert front[i] == links[i];
      LookupAt(front, i);
    } else {
      assert !HasKey(front, links[i].target) by {
        forall j | 0 <= j < |front| ensures front[j].target != links[i].target {
          assert front[j] == links[j];
        }
      }
    }
  }

  /** `Links.Add(y, d)` for a key not yet present. */
  lemma AddLink(links: seq<Link>, y: nat, d: int, z: nat)
    requires !HasKey(links, y)
    ensures Lookup(links + [Link(y, d)], z) == if z == y then Some(d) else Lookup(links, z)
  {
    assert (links + [Link(y, d)])[..|links|] == links;
  }

  // ---------------------------------------------------------------------------
  // Building the graph.
  // ---------------------------------------------------------------------------

  /** Pairs q1 and q2 name the same two nodes, in either direction. */
  predicate SamePair(pairs: seq<(string, string, int)>, q1: nat, q2: nat)
    requires q1 < |pairs| && q2 < |pairs|
  {
    (pairs[q1].0 == pairs[q2].0 && pairs[q1].1 == pairs[q2].1) ||
    (pairs[q1].0 == pairs[q2].1 && pairs[q1].1 == pairs[q2].0)
  }

  /** Among the first k pairs, pairs that name the same two nodes give the same distance. */
  predicate Consistent(pairs: seq<(string, string, int)>, k: nat)
    requires k <= |pairs|
  {
    forall q1, q2 :: 0 <= q1 < q2 < k && SamePair(pairs, q1, q2) ==> pairs[q1].2 == pairs[q2].2
  }

  /** Some pair before k joins x and y. */
  predicate JoinedBefore(pairs: seq<(string, string, int)>, names: seq<string>, k: nat, x: nat, y: nat)
    requires k <= |pairs|
  {
    exists q :: 0 <= q < k && Joins(pairs, names, q, x, y)
  }

  /** The distance of the first of the first k pairs that joins x and y. */
  function FirstJoin(pairs: seq<(string, string, int)>, names: seq<string>, k: nat, x: nat, y: nat): Option<int>
    requires k <= |pairs|
  {
    if k == 0 then None
    else
      var e := FirstJoin(pairs, names, k - 1, x, y);
      if e.None? && Joins(pairs, names, k - 1, x, y) then Some(pairs[k - 1].2) else e
  }

  /** x and y are linked exactly when some pair joins them. */
  lemma {:induction false} FirstJoinSome(pairs: seq<(string, string, int)>, names: seq<string>, k: nat, x: nat, y: nat)
    requires k <= |pairs|
    ensures FirstJoin(pairs, names, k, x, y).Some? <==> JoinedBefore(pairs, names, k, x, y)
    decreases k
  {
    if k > 0 {
      FirstJoinSome(pairs, names, k - 1, x, y);
      if JoinedBefore(pairs, names, k, x, y) && !JoinedBefore(pairs, names, k - 1, x, y) {
        assert Joins(pairs, names, k - 1, x, y);
      }
    }
  }

  /** With consistent pairs, the stored distance is the one of every pair joining x and y. */
  lemma {:induction false} FirstJoinValue(pairs: seq<(string, string, int)>, names: seq<string>, k: nat, q: nat, x: nat, y: nat)
    requires q < k <= |pairs| && Consistent(pairs, k) && Joins(pairs, names, q, x, y)
    ensures FirstJoin(pairs, names, k, x, y) == Some(pairs[q].2)
    decreases k
  {
    if q < k - 1 {
      assert Consistent(pairs, k - 1);
      FirstJoinValue(pairs, names, k - 1, q, x, y);
      if Joins(pairs, names, k - 1, x, y) {
        JoinsSamePair(pairs, names, q, k - 1, x, y);
      }
    } else {
      FirstJoinSome(pairs, names, k - 1, x, y);
      if FirstJoin(pairs, names, k - 1, x, y).Some? {
        var q' :| 0 <= q' < k - 1 && Joins(pairs, names, q', x, y);
        FirstJoinValue(pairs, names, k - 1, q', x, y);
        JoinsSamePair(pairs, names, q', q, x, y);
      }
    }
  }

  /** Two pairs that join the same two nodes name the same two names. */
  lemma JoinsSamePair(pairs: seq<(string, string, int)>, names: seq<string>, q1: nat, q2: nat, x: nat, y: nat)
    requires q1 < |pairs| && q2 < |pairs|
    requires Joins(pairs, names, q1, x, y) && Joins(pairs, names, q2, x, y)
    ensures SamePair(pairs, q1, q2)
  {
  }

  /** The links after the first k pairs: each dictionary holds the first distance given for each neighbour. */
  ghost predicate Built(links: seq<seq<Link>>, pairs: seq<(string, string, int)>, names: seq<string>, k: nat)
    requires k <= |pairs|
  {
    |links| == |names| &&
    (forall x :: 0 <= x < |links| ==> WellFormed(links[x], |names|)) &&
    (forall x, y :: 0 <= x < |names| && 0 <= y < |names| ==> Lookup(links[x], y) == FirstJoin(pairs, names, k, x, y))
  }

  /** A mutable set of nodes, the `HashSet<Node>` of lines 80-84. */
  class NodeSet {
    var members: set<nat>

    constructor(members: set<nat>)
      ensures this.members == members
    {
      this.members := members;
    }
  }

  /** The node list and the links of a graph. */
  class QuickDijkstra {
    const names: seq<string>
    const links: seq<seq<Link>>

    ghost predicate Valid()
    {
      Sorted(names) && |links| == |names| && forall x :: 0 <= x < |links| ==> WellFormed(links[x], |names|)
    }

    constructor FromParts(names: seq<string>, links: seq<seq<Link>>)
      ensures this.names == names && this.links == links
    {
      this.names := names;
      this.links := links;
    }

    /**
     * Lines 112-139: breadth-first search from refNodeName. The result starts with it, names no
     * node twice, and names exactly the nodes a walk from it reaches; a name that is not a node
     * gives itself alone.
     */
    method GetNodesInNetwork(refNodeName: string) returns (result: seq<string>)
      requires Valid()
      ensures refNodeName !in names ==> result == [refNodeName]
      ensures refNodeName in names ==> |result| >= 1 && result[0] == refNodeName
      ensures refNodeName in names ==> forall i, j :: 0 <= i < j < |result| ==> result[i] != result[j]
      ensures refNodeName in names ==> forall y :: y in result ==> y in names
      ensures refNodeName in names ==>
        forall x :: 0 <= x < |names| ==> (names[x] in result <==> Connected(links, IndexOf(names, refNodeName), x))
    {
      if refNodeName !in names {
        return [refNodeName];
      }
      var n := |names|;
      var s: nat := IndexOf(names, refNodeName);
      var visited: set<nat> := {s};
      var queue: seq<nat> := [s];
      ghost var order: seq<nat> := [];
      result := [];
      assert IsPath(links, [s], s, s);
      while |queue| > 0
        invariant Frontier(links, s, visited, order, queue)
        invariant NamesOf(names, order, result)
        decreases n - |order|
      {
        SmallSet(visited, n);
        Dequeue(links, s, visited, order, queue);
        var current := queue[0];
        queue := queue[1..];
        NamesOfSnoc(names, order, result, current);
        order := order + [current];
        result := result + [names[current]];
        visited, queue := Enqueue(links, s, visited, order, queue, current);
      }
      NetworkListed(names, links, s, visited, order, result);
    }

    /**
     * Lines 77-85: the best route from start through every other node, back to start when
     * returnToStart is set; `long.MaxValue` when no such route exists, `None` where the source
     * throws because a finished route has no link back to start.
     */
    method GetShortestPathVisitingAllNodes(start: string, returnToStart: bool) returns (r: Option<int>)
      requires Valid() && start in names
      ensures var s := IndexOf(names, start);
        r.None? <==> returnToStart && Stuck(links, s, {s}, s)
      ensures var s := IndexOf(names, start);
        r.Some? ==> Below(links, s, {s}, 0, s, returnToStart, r.value)
      ensures var s := IndexOf(names, start);
        r.Some? && r.value < LongMax ==> Reached(links, s, {s}, 0, s, returnToStart, r.value)
    {
      var s: nat := IndexOf(names, start);
      var visited := new NodeSet({s});
      r := FindShortestPath(s, visited, 0, s, returnToStart);
      ExploreMeaning(links, s, {s}, 0, s, returnToStart);
    }

    /**
     * Lines 87-110: the depth-first search over routes that extend the visited nodes from
     * currentNode, as Explore describes it. Each node tried is added to the shared visited set
     * before the recursive call and removed after it, so the set is as it was on every normal
     * return; a thrown error leaves it as it stands.
     */
    method FindShortestPath(currentNode: nat, visited: NodeSet, currentDistance: int, startNode: nat, returnToStart: bool)
      returns (r: Option<int>)
      requires Valid() && currentNode < |names| && startNode < |names|
      requires Within(visited.members, |names|)
      modifies visited
      ensures r.Some? ==> visited.members == old(visited.members)
      ensures r == Explore(links, currentNode, old(visited.members), currentDistance, startNode, returnToStart)
      decreases |names| - |visited.members|
    {
      SmallSet(visited.members, |names|);
      if |visited.members| == |names| {
        if !returnToStart {
          return Some(currentDistance);
        }
        var back := Lookup(links[currentNode], startNode);
        if back.None? {
          return None;
        }
        return Some(currentDistance + back.value);
      }
      ghost var entry := visited.members;
      assert Open(links, currentNode, entry, startNode);
      var shortestPath := LongMax;
      for i := 0 to |links[currentNode]|
        invariant visited.members == entry
        invariant ExploreLinks(links, currentNode, entry, currentDistance, startNode, returnToStart, i) == Some(shortestPath)
      {
        var link := links[currentNode][i];
        if link.target !in visited.members {
          visited.members := visited.members + {link.target};
          SmallSet(visited.members, |names|);
          var distance := FindShortestPath(link.target, visited, currentDistance + link.distance, startNode, returnToStart);
          LinksNext(links, currentNode, entry, currentDistance, startNode, returnToStart, i, shortestPath, distance);
          if distance.None? {
            ErrorEnds(links, currentNode, entry, currentDistance, startNode, returnToStart, i + 1);
            return None;
          }
          if distance.value < shortestPath {
            shortestPath := distance.value;
          }
          visited.members := visited.members - {link.target};
          assert visited.members == entry;
        } else {
          LinksSkip(links, currentNode, entry, currentDistance, startNode, returnToStart, i, shortestPath);
        }
      }
      LinksAll(links, currentNode, entry, currentDistance, startNode, returnToStart);
      return Some(shortestPath);
    }

    /**
     * Lines 49-75: Dijkstra's search from `from` until `to` is the closest unvisited node.
     * Unlike line 66, a node still at `long.MaxValue` (not reached) relaxes nothing; see
     * AsWrittenShortestWay for what the line does instead. The result is `long.MaxValue` when
     * `to` cannot be reached, otherwise the weight of a walk, and no walk is shorter when no
     * distance is negative.
     */
    method GetShortestWay(from: string, to: string) returns (r: int)
      requires Valid() && from in names && to in names
      ensures from == to ==> r == 0
      ensures r <= LongMax
      ensures r < LongMax ==>
        exists p :: IsPath(links, p, IndexOf(names, from), IndexOf(names, to)) && Weight(links, p) == r
      ensures NonNegativeLinks(links) ==>
        forall p :: IsPath(links, p, IndexOf(names, from), IndexOf(names, to)) ==> r <= Weight(links, p)
    {
      var n := |names|;
      var s: nat, e: nat := IndexOf(names, from), IndexOf(names, to);
      var dist := seq(n, i => if i == s then 0 else LongMax);
      ghost var via: seq<seq<nat>> := seq(n, i => [s]);
      WitnessedStart(links, s);
      var visited: set<nat> := {};
      var current: nat := s;
      while current != e
        invariant Search(links, dist, via, visited, current, s, e)
        decreases n - |visited|
      {
        dist, via, visited, current := Visit(links, dist, via, visited, current, s, e);
      }
      if NonNegativeLinks(links) {
        VisitOptimal(links, dist, visited, s, e);
      }
      r := dist[e];
    }
  }

  /**
   * Lines 18-47: one node per distinct name, in ascending order, then both directions of every
   * pair; `None` where the source throws `InvalidDataException`, which happens exactly when two
   * pairs name the same two nodes with different distances.
   */
  method Create(pairs: seq<(string, string, int)>) returns (r: Option<QuickDijkstra>)
    ensures r.None? <==> !Consistent(pairs, |pairs|)
    ensures r.Some? ==> fresh(r.value) && r.value.names == SortedNames(pairs, |pairs|) && r.value.Valid()
    ensures r.Some? ==> Built(r.value.links, pairs, r.value.names, |pairs|)
  {
    var names := SortedNames(pairs, |pairs|);
    var links: seq<seq<Link>> := seq(|names|, _ => []);
    for k := 0 to |pairs|
      invariant Consistent(pairs, k) && Built(links, pairs, names, k)
    {
      assert Named(pairs, |pairs|, pairs[k].0) && Named(pairs, |pairs|, pairs[k].1);
      var ok;
      links, ok := AddPair(links, pairs, names, k);
      if !ok {
        return None;
      }
    }
    var graph := new QuickDijkstra.FromParts(names, links);
    return Some(graph);
  }

  /** Lines 28-45: both directions of pair k; false where the source throws. */
  method AddPair(links: seq<seq<Link>>, pairs: seq<(string, string, int)>, names: seq<string>, k: nat)
    returns (links': seq<seq<Link>>, ok: bool)
    requires k < |pairs| && pairs[k].0 in names && pairs[k].1 in names
    requires Consistent(pairs, k) && Built(links, pairs, names, k)
    ensures ok <==> Consistent(pairs, k + 1)
    ensures ok ==> Built(links', pairs, names, k + 1)
  {
    var (from, to, distance) := pairs[k];
    var f, t := IndexOf(names, from), IndexOf(names, to);
    assert Lookup(links[f], t) == FirstJoin(pairs, names, k, f, t);
    ConflictIsEarlierJoin(pairs, names, k, f, t);
    var existing := Lookup(links[f], t);
    if existing.Some? && existing.value != distance {
      return links, false;
    }
    FirstJoinSymmetric(pairs, names, k, f, t);
    assert Lookup(links[t], f) == FirstJoin(pairs, names, k, t, f);
    links' := LinkOnce(links, pairs, names, k, f, t);
    links' := LinkOnce(links', pairs, names, k, t, f);
    ok := true;
    BuiltAfter(links, links', pairs, names, k, f, t);
  }

  /** One `TryGetValue`/`Add` of lines 30-33 (and 38-41), when it does not throw. */
  method LinkOnce(links: seq<seq<Link>>, pairs: seq<(string, string, int)>, names: seq<string>, k: nat, x: nat, y: nat)
    returns (links': seq<seq<Link>>)
    requires k < |pairs| && x < |links| && y < |names| && |links| == |names|
    requires forall z :: 0 <= z < |links| ==> WellFormed(links[z], |names|)
    requires Lookup(links[x], y).None? || Lookup(links[x], y) == Some(pairs[k].2)
    ensures |links'| == |links| && forall z :: 0 <= z < |links'| ==> WellFormed(links'[z], |names|)
    ensures Lookup(links'[x], y) == Some(pairs[k].2)
    ensures forall z :: 0 <= z < |names| && z != y ==> Lookup(links'[x], z) == Lookup(links[x], z)
    ensures forall w :: 0 <= w < |links| && w != x ==> links'[w] == links[w]
  {
    links' := links;
    if Lookup(links[x], y).None? {
      links' := links[x := links[x] + [Link(y, pairs[k].2)]];
      forall z | 0 <= z < |names| ensures Lookup(links'[x], z) == if z == y then Some(pairs[k].2) else Lookup(links[x], z) {
        AddLink(links[x], y, pairs[k].2, z);
      }
    }
  }

  /** The two `LinkOnce` calls of pair k give the links after k + 1 pairs. */
  lemma BuiltAfter(links: seq<seq<Link>>, links': seq<seq<Link>>, pairs: seq<(string, string, int)>, names: seq<string>, k: nat, f: nat, t: nat)
    requires k < |pairs| && f == IndexOf(names, pairs[k].0) && t == IndexOf(names, pairs[k].1)
    requires Built(links, pairs, names, k) && |links'| == |links|
    requires forall z :: 0 <= z < |links'| ==> WellFormed(links'[z], |names|)
    requires Lookup(links'[f], t) == Some(pairs[k].2) && Lookup(links'[t], f) == Some(pairs[k].2)
    requires forall x, y :: 0 <= x < |names| && 0 <= y < |names| && !((x == f && y == t) || (x == t && y == f)) ==>
      Lookup(links'[x], y) == Lookup(links[x], y)
    requires FirstJoin(pairs, names, k, f, t).None? || FirstJoin(pairs, names, k, f, t) == Some(pairs[k].2)
    ensures Built(links', pairs, names, k + 1)
  {
    forall x, y | 0 <= x < |names| && 0 <= y < |names|
      ensures Lookup(links'[x], y) == FirstJoin(pairs, names, k + 1, x, y)
    {
      FirstJoinStep(pairs, names, k, x, y);
      if (x == f && y == t) || (x == t && y == f) {
        FirstJoinSymmetric(pairs, names, k, f, t);
      }
    }
  }

  lemma {:induction false} FirstJoinSymmetric(pairs: seq<(string, string, int)>, names: seq<string>, k: nat, x: nat, y: nat)
    requires k <= |pairs|
    ensures FirstJoin(pairs, names, k, x, y) == FirstJoin(pairs, names, k, y, x)
    decreases k
  {
    if k > 0 {
      FirstJoinSymmetric(pairs, names, k - 1, x, y);
    }
  }

  /** `FirstJoin` after one more pair. */
  lemma FirstJoinStep(pairs: seq<(string, string, int)>, names: seq<string>, k: nat, x: nat, y: nat)
    requires k < |pairs|
    ensures FirstJoin(pairs, names, k + 1, x, y) ==
      if FirstJoin(pairs, names, k, x, y).None? && Joins(pairs, names, k, x, y) then Some(pairs[k].2)
      else FirstJoin(pairs, names, k, x, y)
  {
  }

  /** Pair k conflicts with an earlier pair exactly when the first distance stored differs. */
  lemma ConflictIsEarlierJoin(pairs: seq<(string, string, int)>, names: seq<string>, k: nat, f: int, t: int)
    requires k < |pairs| && Consistent(pairs, k) && f >= 0 && t >= 0
    requires f == IndexOf(names, pairs[k].0) && t == IndexOf(names, pairs[k].1)
    ensures Consistent(pairs, k + 1) <==>
      (FirstJoin(pairs, names, k, f, t).None? || FirstJoin(pairs, names, k, f, t) == Some(pairs[k].2))
  {
    assert Joins(pairs, names, k, f, t);
    FirstJoinSome(pairs, names, k, f, t);
    if FirstJoin(pairs, names, k, f, t).Some? {
      var q :| 0 <= q < k && Joins(pairs, names, q, f, t);
      FirstJoinValue(pairs, names, k, q, f, t);
      JoinsSamePair(pairs, names, q, k, f, t);
    }
    if !Consistent(pairs, k + 1) {
      var q1, q2 :| 0 <= q1 < q2 < k + 1 && SamePair(pairs, q1, q2) && pairs[q1].2 != pairs[q2].2;
      assert q2 == k;
      assert Joins(pairs, names, q1, f, t);
      FirstJoinValue(pairs, names, k, q1, f, t);
    }
  }

  /** The built links are symmetric. */
  lemma BuiltSymmetric(links: seq<seq<Link>>, pairs: seq<(string, string, int)>, names: seq<string>, x: nat, y: nat)
    requires Built(links, pairs, names, |pairs|) && x < |names| && y < |names|
    ensures Lookup(links[x], y) == Lookup(links[y], x)
  {
    FirstJoinSymmetric(pairs, names, |pairs|, x, y);
  }

  /** x links to y exactly when some pair joins them, and then at the distance of every such pair. */
  lemma BuiltMeaning(links: seq<seq<Link>>, pairs: seq<(string, string, int)>, names: seq<string>, x: nat, y: nat)
    requires Built(links, pairs, names, |pairs|) && Consistent(pairs, |pairs|) && x < |names| && y < |names|
    ensures HasKey(links[x], y) <==> JoinedBefore(pairs, names, |pairs|, x, y)
    ensures forall q :: 0 <= q < |pairs| && Joins(pairs, names, q, x, y) ==> Lookup(links[x], y) == Some(pairs[q].2)
  {
    FirstJoinSome(pairs, names, |pairs|, x, y);
    forall q | 0 <= q < |pairs| && Joins(pairs, names, q, x, y) ensures Lookup(links[x], y) == Some(pairs[q].2) {
      FirstJoinValue(pairs, names, |pairs|, q, x, y);
    }
  }

  // ---------------------------------------------------------------------------
  // Paths.
  // ---------------------------------------------------------------------------

  predicate AllNodes(links: seq<seq<Link>>, p: seq<nat>)
  {
    forall i :: 0 <= i < |p| ==> p[i] < |links|
  }

  /** The distance stored from x to y (0 when there is no link). */
  function EdgeWeight(links: seq<seq<Link>>, x: nat, y: nat): int
    requires x < |links|
  {
    match Lookup(links[x], y)
    case Some(w) => w
    case None => 0
  }

  /** p is a walk from s to e along links. */
  predicate IsPath(links: seq<seq<Link>>, p: seq<nat>, s: nat, e: nat)
  {
    |p| >= 1 && p[0] == s && p[|p| - 1] == e && AllNodes(links, p) &&
    forall i :: 0 <= i < |p| - 1 ==> HasKey(links[p[i]], p[i + 1])
  }

  /** The sum of the distances along p. */
  function Weight(links: seq<seq<Link>>, p: seq<nat>): int
    requires AllNodes(links, p)
  {
    if |p| <= 1 then 0 else Weight(links, p[..|p| - 1]) + EdgeWeight(links, p[|p| - 2], p[|p| - 1])
  }

  predicate NonNegativeLinks(links: seq<seq<Link>>)
  {
    forall x, i :: 0 <= x < |links| && 0 <= i < |links[x]| ==> links[x][i].distance >= 0
  }

  lemma EdgeWeightNonNegative(links: seq<seq<Link>>, x: nat, y: nat)
    requires NonNegativeLinks(links) && x < |links|
    ensures EdgeWeight(links, x, y) >= 0
  {
    if Lookup(links[x], y).Some? {
      LookupIsEntry(links[x], y);
    }
  }

  /** A stored distance is the distance of some entry. */
  lemma {:induction false} LookupIsEntry(links: seq<Link>, y: nat)
    requires Lookup(links, y).Some?
    ensures exists i :: 0 <= i < |links| && links[i].target == y && links[i].distance == Lookup(links, y).value
    decreases |links|
  {
    var front := links[..|links| - 1];
    if Lookup(front, y).Some? {
      LookupIsEntry(front, y);
      var i :| 0 <= i < |front| && front[i].target == y && front[i].distance == Lookup(front, y).value;
      assert links[i] == front[i];
    }
  }

  /** The weight of a prefix is at most the weight of the whole walk. */
  lemma {:induction false} PrefixWeight(links: seq<seq<Link>>, p: seq<nat>, i: nat)
    requires NonNegativeLinks(links) && AllNodes(links, p) && 1 <= i <= |p|
    ensures Weight(links, p[..i]) <= Weight(links, p)
    decreases |p|
  {
    if i < |p| {
      var front := p[..|p| - 1];
      assert front[..i] == p[..i];
      PrefixWeight(links, front, i);
      EdgeWeightNonNegative(links, p[|p| - 2], p[|p| - 1]);
    } else {
      assert p[..i] == p;
    }
  }

  lemma WeightNonNegative(links: seq<seq<Link>>, p: seq<nat>)
    requires NonNegativeLinks(links) && AllNodes(links, p) && |p| >= 1
    ensures Weight(links, p) >= 0
  {
    PrefixWeight(links, p, 1);
  }

  /** Extending a walk by one link adds that link's distance. */
  lemma WeightSnoc(links: seq<seq<Link>>, p: seq<nat>, y: nat)
    requires AllNodes(links, p) && |p| >= 1 && y < |links|
    ensures AllNodes(links, p + [y]) && Weight(links, p + [y]) == Weight(links, p) + EdgeWeight(links, p[|p| - 1], y)
  {
    var q: seq<nat> := p + [y];
    assert AllNodes(links, q) by {
      forall i | 0 <= i < |q| ensures q[i] < |links| {
        if i < |p| {
          assert q[i] == p[i];
        }
      }
    }
    assert q[..|q| - 1] == p;
    assert q[|q| - 2] == p[|p| - 1] && q[|q| - 1] == y;
    assert Weight(links, q) == Weight(links, q[..|q| - 1]) + EdgeWeight(links, q[|q| - 2], q[|q| - 1]);
  }

  /** The walk to the first node of p outside visited, when p starts inside it and ends outside. */
  lemma {:induction false} FirstOutside(links: seq<seq<Link>>, p: seq<nat>, s: nat, u: nat, visited: set<nat>)
    returns (i: nat)
    requires IsPath(links, p, s, u) && s in visited && u !in visited
    ensures 1 <= i < |p| && p[i - 1] in visited && p[i] !in visited
    ensures IsPath(links, p[..i], s, p[i - 1]) && HasKey(links[p[i - 1]], p[i])
    ensures Weight(links, p[..i + 1]) == Weight(links, p[..i]) + EdgeWeight(links, p[i - 1], p[i])
  {
    i := 1;
    while p[i] in visited
      invariant 1 <= i < |p| && p[i - 1] in visited
      decreases |p| - i
    {
      i := i + 1;
    }
    assert p[..i + 1][..i] == p[..i];
  }

  // ---------------------------------------------------------------------------
  // Dijkstra's shortest way.
  // ---------------------------------------------------------------------------

  /**
   * Line 72: the first node, in node order, of the unvisited ones below k with the smallest
   * distance (`OrderBy` is stable), or `None` when all of them are visited.
   */
  function NextNode(dist: seq<int>, visited: set<nat>, k: nat): (r: Option<nat>)
    requires k <= |dist|
    ensures r.Some? ==> r.value < k && r.value !in visited
    ensures r.Some? ==> forall j :: 0 <= j < k && j !in visited ==> dist[r.value] <= dist[j]
    ensures r.Some? ==> forall j :: 0 <= j < r.value && j !in visited ==> dist[r.value] < dist[j]
    ensures r.None? <==> forall j :: 0 <= j < k ==> j in visited
  {
    if k == 0 then None
    else
      var b := NextNode(dist, visited, k - 1);
      if k - 1 in visited then b
      else if b.None? || dist[k - 1] < dist[b.value] then Some(k - 1)
      else b
  }

  /** Every finite distance is the weight of a walk from s, recorded in via. */
  ghost predicate Witnessed(links: seq<seq<Link>>, dist: seq<int>, via: seq<seq<nat>>, s: nat)
    requires |dist| == |via| == |links|
  {
    forall x :: 0 <= x < |dist| ==>
      dist[x] <= LongMax && (dist[x] < LongMax ==> IsPath(links, via[x], s, x) && Weight(links, via[x]) == dist[x])
  }

  /** The distance of every visited node is at most the weight of every walk from s to it. */
  ghost predicate Settled(links: seq<seq<Link>>, dist: seq<int>, visited: set<nat>, s: nat)
    requires |dist| == |links|
  {
    forall v, p :: v in visited && v < |dist| && IsPath(links, p, s, v) ==> dist[v] <= Weight(links, p)
  }

  /** Every link from a visited node to an unvisited one has been relaxed. */
  ghost predicate Relaxed(links: seq<seq<Link>>, dist: seq<int>, visited: set<nat>)
    requires |dist| == |links|
  {
    forall v, u :: v in visited && v < |dist| && 0 <= u < |dist| && u !in visited && HasKey(links[v], u) ==>
      dist[u] <= dist[v] + EdgeWeight(links, v, u)
  }

  /** The unvisited node with the smallest distance is settled. */
  lemma VisitOptimal(links: seq<seq<Link>>, dist: seq<int>, visited: set<nat>, s: nat, u: nat)
    requires NonNegativeLinks(links) && |dist| == |links| && s < |dist| && u < |dist| && u !in visited
    requires Settled(links, dist, visited, s) && Relaxed(links, dist, visited)
    requires u == s ==> dist[s] == 0
    requires u != s ==> s in visited
    requires forall j :: 0 <= j < |dist| && j !in visited ==> dist[u] <= dist[j]
    ensures forall p :: IsPath(links, p, s, u) ==> dist[u] <= Weight(links, p)
  {
    forall p | IsPath(links, p, s, u) ensures dist[u] <= Weight(links, p) {
      if u == s {
        WeightNonNegative(links, p);
      } else {
        VisitOptimalPath(links, dist, visited, s, u, p);
      }
    }
  }

  /** One walk of VisitOptimal: it leaves the visited nodes through a relaxed link. */
  lemma VisitOptimalPath(links: seq<seq<Link>>, dist: seq<int>, visited: set<nat>, s: nat, u: nat, p: seq<nat>)
    requires NonNegativeLinks(links) && |dist| == |links| && u < |dist| && u !in visited && s in visited
    requires Settled(links, dist, visited, s) && Relaxed(links, dist, visited)
    requires forall j :: 0 <= j < |dist| && j !in visited ==> dist[u] <= dist[j]
    requires IsPath(links, p, s, u)
    ensures dist[u] <= Weight(links, p)
  {
    var i := FirstOutside(links, p, s, u, visited);
    PrefixWeight(links, p, i + 1);
    var a, b := p[i - 1], p[i];
    assert dist[a] <= Weight(links, p[..i]);
    assert dist[b] <= dist[a] + EdgeWeight(links, a, b);
  }

  /** Every node of the set is below n. */
  predicate Within(nodes: set<nat>, n: nat)
  {
    forall v :: v in nodes ==> v < n
  }

  /** A set of naturals below n has at most n elements. */
  lemma {:induction false} SmallSet(nodes: set<nat>, n: nat)
    requires Within(nodes, n)
    ensures |nodes| <= n
    decreases n
  {
    if n > 0 {
      SmallSet(nodes - {n - 1}, n - 1);
    }
  }

  /**
   * Lines 60-71: one pass over the links of c (already visited), in dictionary order; a link to an
   * unvisited node lowers its distance to the one through c when that is smaller.
   */
  method Relax(links: seq<seq<Link>>, dist: seq<int>, ghost via: seq<seq<nat>>, visited: set<nat>, c: nat, ghost s: nat)
    returns (dist': seq<int>, ghost via': seq<seq<nat>>)
    requires |dist| == |via| == |links| && c < |links| && c in visited && WellFormed(links[c], |links|)
    requires Witnessed(links, dist, via, s)
    ensures |dist'| == |via'| == |links| && Witnessed(links, dist', via', s)
    ensures forall v :: v in visited && v < |links| ==> dist'[v] == dist[v]
    ensures forall x :: 0 <= x < |links| ==> dist'[x] <= dist[x]
    ensures dist[c] < LongMax ==>
      forall u :: 0 <= u < |links| && u !in visited && HasKey(links[c], u) ==> dist'[u] <= dist[c] + EdgeWeight(links, c, u)
  {
    dist', via' := dist, via;
    for i := 0 to |links[c]|
      invariant |dist'| == |via'| == |links| && Witnessed(links, dist', via', s)
      invariant forall v :: v in visited && v < |links| ==> dist'[v] == dist[v]
      invariant forall x :: 0 <= x < |links| ==> dist'[x] <= dist[x]
      invariant dist[c] < LongMax ==>
        forall j :: 0 <= j < i && links[c][j].target !in visited ==> dist'[links[c][j].target] <= dist[c] + links[c][j].distance
    {
      var link := links[c][i];
      if link.target !in visited && dist[c] != LongMax {
        var candidate := dist[c] + link.distance;
        if candidate < dist'[link.target] {
          LookupAt(links[c], i);
          WitnessedUpdate(links, dist', via', s, c, link.target, candidate);
          via' := via'[link.target := via'[c] + [link.target]];
          dist' := dist'[link.target := candidate];
        }
      }
    }
    forall u | 0 <= u < |links| && u !in visited && HasKey(links[c], u) && dist[c] < LongMax
      ensures dist'[u] <= dist[c] + EdgeWeight(links, c, u)
    {
      var j :| 0 <= j < |links[c]| && links[c][j].target == u;
      LookupAt(links[c], j);
    }
  }

  /** One step of the search keeps every visited node settled and every link out of them relaxed. */
  lemma StepKeeps(links: seq<seq<Link>>, before: seq<int>, dist: seq<int>, seen: set<nat>, c: nat, s: nat)
    requires NonNegativeLinks(links) && |before| == |dist| == |links| && c < |links| && c !in seen
    requires Settled(links, before, seen, s) && Relaxed(links, before, seen)
    requires forall p :: IsPath(links, p, s, c) ==> before[c] <= Weight(links, p)
    requires forall v :: v in seen + {c} && v < |links| ==> dist[v] == before[v]
    requires forall x :: 0 <= x < |links| ==> dist[x] <= before[x] && dist[x] <= LongMax
    requires before[c] < LongMax ==>
      forall u :: 0 <= u < |links| && u !in seen + {c} && HasKey(links[c], u) ==> dist[u] <= before[c] + EdgeWeight(links, c, u)
    ensures Settled(links, dist, seen + {c}, s) && Relaxed(links, dist, seen + {c})
  {
    forall v, u | v in seen + {c} && v < |dist| && 0 <= u < |dist| && u !in seen + {c} && HasKey(links[v], u)
      ensures dist[u] <= dist[v] + EdgeWeight(links, v, u)
    {
      EdgeWeightNonNegative(links, v, u);
    }
  }

  /** Lowering the distance of t to the one through a link from c keeps every distance witnessed. */
  lemma WitnessedUpdate(links: seq<seq<Link>>, dist: seq<int>, via: seq<seq<nat>>, s: nat, c: nat, t: nat, candidate: int)
    requires |dist| == |via| == |links| && c < |links| && t < |links| && Witnessed(links, dist, via, s)
    requires dist[c] < LongMax && Lookup(links[c], t).Some? && candidate == dist[c] + EdgeWeight(links, c, t)
    requires candidate < dist[t]
    ensures Witnessed(links, dist[t := candidate], via[t := via[c] + [t]], s)
  {
    WeightSnoc(links, via[c], t);
    var p := via[c] + [t];
    assert IsPath(links, p, s, t) by {
      assert forall i :: 0 <= i < |p| - 1 ==> p[i] == via[c][i];
    }
  }

  /** Before the first step only the start is reached, at distance 0. */
  lemma WitnessedStart(links: seq<seq<Link>>, s: nat)
    requires s < |links|
    ensures Witnessed(links, seq(|links|, i => if i == s then 0 else LongMax), seq(|links|, i => [s]), s)
  {
    assert IsPath(links, [s], s, s);
  }

  /** The loop invariant of GetShortestWay, over the nodes 0 .. |links| - 1. */
  ghost predicate Search(links: seq<seq<Link>>, dist: seq<int>, via: seq<seq<nat>>, visited: set<nat>, current: nat, s: nat, e: nat)
  {
    |dist| == |via| == |links| && s < |links| && e < |links| && current < |links| &&
    (forall v :: v in visited ==> v < |links|) && current !in visited && e !in visited && |visited| < |links| &&
    (visited == {} ==> current == s) && (visited != {} ==> s in visited) && dist[s] == 0 &&
    Witnessed(links, dist, via, s) &&
    (NonNegativeLinks(links) ==> Settled(links, dist, visited, s) && Relaxed(links, dist, visited)) &&
    forall j :: 0 <= j < |links| && j !in visited ==> dist[current] <= dist[j]
  }

  /** Lines 59-72: one round of the search: visit the current node, relax its links, pick the next one. */
  method Visit(links: seq<seq<Link>>, dist: seq<int>, ghost via: seq<seq<nat>>, visited: set<nat>, current: nat, ghost s: nat, ghost e: nat)
    returns (dist': seq<int>, ghost via': seq<seq<nat>>, visited': set<nat>, next: nat)
    requires Search(links, dist, via, visited, current, s, e) && current != e
    requires forall x :: 0 <= x < |links| ==> WellFormed(links[x], |links|)
    ensures Search(links, dist', via', visited', next, s, e) && visited' == visited + {current}
  {
    if NonNegativeLinks(links) {
      VisitOptimal(links, dist, visited, s, current);
    }
    visited' := visited + {current};
    SmallSet(visited' + {e}, |links|);
    dist', via' := Relax(links, dist, via, visited', current, s);
    if NonNegativeLinks(links) {
      StepKeeps(links, dist, dist', visited, current, s);
    }
    next := NextNode(dist', visited', |links|).value;
  }

  // ---------------------------------------------------------------------------
  // Line 66 as written: the sum is taken for an unreached node too, in 64-bit arithmetic.
  // ---------------------------------------------------------------------------

  /** Lines 60-71 as written, over the first i links of c. */
  function AsWrittenRelax(links: seq<seq<Link>>, dist: seq<int>, visited: set<nat>, c: nat, i: nat): (r: seq<int>)
    requires c < |links| && i <= |links[c]| && |dist| == |links| && WellFormed(links[c], |links|)
    ensures |r| == |dist|
  {
    if i == 0 then dist
    else
      var d := AsWrittenRelax(links, dist, visited, c, i - 1);
      var link := links[c][i - 1];
      var candidate := CSharpInt.Wrap64(d[c] + link.distance);
      if link.target !in visited && candidate < d[link.target] then d[link.target := candidate] else d
  }

  /** Lines 57-74 as written, from the current node on; fuel counts the nodes still to visit. */
  function AsWrittenSearch(links: seq<seq<Link>>, dist: seq<int>, visited: set<nat>, current: nat, e: nat, fuel: nat): int
    requires |dist| == |links| && current < |links| && e < |links|
    requires forall x :: 0 <= x < |links| ==> WellFormed(links[x], |links|)
    decreases fuel
  {
    if current == e || fuel == 0 then dist[e]
    else
      var seen := visited + {current};
      var d := AsWrittenRelax(links, dist, seen, current, |links[current]|);
      match NextNode(d, seen, |links|)
      case None => d[e]
      case Some(next) => AsWrittenSearch(links, d, seen, next, e, fuel - 1)
  }

  /** GetShortestWay as written, from node s to node e. */
  function AsWrittenShortestWay(links: seq<seq<Link>>, s: nat, e: nat): int
    requires s < |links| && e < |links|
    requires forall x :: 0 <= x < |links| ==> WellFormed(links[x], |links|)
  {
    AsWrittenSearch(links, seq(|links|, i => if i == s then 0 else LongMax), {}, s, e, |links|)
  }

  /** The links lines 18-47 build for the pairs (a, b, 1) and (c, d, 1): nodes a, b, c, d are 0 .. 3. */
  function TwoIslands(): seq<seq<Link>>
  {
    [[Link(1, 1)], [Link(0, 1)], [Link(3, 1)], [Link(2, 1)]]
  }

  /** No walk leads from a to d. */
  lemma TwoIslandsApart(p: seq<nat>)
    ensures !IsPath(TwoIslands(), p, 0, 3)
  {
    if IsPath(TwoIslands(), p, 0, 3) {
      var i := 0;
      while i < |p| - 1
        invariant 0 <= i < |p| && p[i] <= 1
      {
        assert HasKey(TwoIslands()[p[i]], p[i + 1]);
        i := i + 1;
      }
    }
  }

  /** Round 1 of the search as written on TwoIslands: a is visited and b reaches 1. */
  lemma IslandsRoundA()
    ensures AsWrittenShortestWay(TwoIslands(), 0, 3) ==
      AsWrittenSearch(TwoIslands(), [0, 1, LongMax, LongMax], {0}, 1, 3, 3)
  {
    var g := TwoIslands();
    var d0 := [0, LongMax, LongMax, LongMax];
    assert seq(4, i => if i == 0 then 0 else LongMax) == d0;
    assert {} + {0} == {0};
    assert AsWrittenRelax(g, d0, {0}, 0, 0) == d0;
    assert AsWrittenRelax(g, d0, {0}, 0, 1) == [0, 1, LongMax, LongMax];
  }

  /** Round 2: b is visited and relaxes nothing; c is next, the first of the unreached nodes. */
  lemma IslandsRoundB()
    ensures AsWrittenSearch(TwoIslands(), [0, 1, LongMax, LongMax], {0}, 1, 3, 3) ==
      AsWrittenSearch(TwoIslands(), [0, 1, LongMax, LongMax], {0, 1}, 2, 3, 2)
  {
    var d1 := [0, 1, LongMax, LongMax];
    assert {0} + {1} == {0, 1};
    assert AsWrittenRelax(TwoIslands(), d1, {0, 1}, 1, 0) == d1;
    assert NextNode(d1, {0, 1}, 4) == Some(2);
  }

  /** Round 3: c, at `long.MaxValue`, offers d `long.MaxValue + 1`, which wraps to `long.MinValue`. */
  lemma IslandsRoundC()
    ensures AsWrittenSearch(TwoIslands(), [0, 1, LongMax, LongMax], {0, 1}, 2, 3, 2) == CSharpInt.LONG_MIN
  {
    var d1 := [0, 1, LongMax, LongMax];
    var d3 := [0, 1, LongMax, CSharpInt.LONG_MIN];
    assert {0, 1} + {2} == {0, 1, 2};
    assert CSharpInt.Wrap64(LongMax + 1) == CSharpInt.LONG_MIN;
    assert AsWrittenRelax(TwoIslands(), d1, {0, 1, 2}, 2, 0) == d1;
    assert AsWrittenRelax(TwoIslands(), d1, {0, 1, 2}, 2, 1) == d3;
    assert NextNode(d3, {0, 1, 2}, 4) == Some(3);
  }

  /**
   * From a to d, which no walk joins, the search as written returns `long.MinValue`, where
   * GetShortestWay returns `long.MaxValue` (its result is below that only along a walk).
   */
  lemma UnreachedNodeWraps()
    ensures forall p :: !IsPath(TwoIslands(), p, 0, 3)
    ensures AsWrittenShortestWay(TwoIslands(), 0, 3) == CSharpInt.LONG_MIN
  {
    forall p ensures !IsPath(TwoIslands(), p, 0, 3) {
      TwoIslandsApart(p);
    }
    IslandsRoundA();
    IslandsRoundB();
    IslandsRoundC();
  }

  // ---------------------------------------------------------------------------
  // Routes through every node.
  // ---------------------------------------------------------------------------

  /** Every node list of the graph is well formed. */
  ghost predicate Linked(links: seq<seq<Link>>)
  {
    forall x :: 0 <= x < |links| ==> WellFormed(links[x], |links|)
  }

  /** The last node of the route that goes from c through q. */
  function End(c: nat, q: seq<nat>): nat
  {
    if |q| == 0 then c else q[|q| - 1]
  }

  /** q visits only nodes that are not in visited, each once. */
  predicate Fresh(links: seq<seq<Link>>, visited: set<nat>, q: seq<nat>)
  {
    (forall i :: 0 <= i < |q| ==> q[i] < |links| && q[i] !in visited) &&
    forall i, j :: 0 <= i < j < |q| ==> q[i] != q[j]
  }

  /** Going from c through q, along links, visits every node not yet in visited. */
  predicate Completes(links: seq<seq<Link>>, c: nat, visited: set<nat>, q: seq<nat>)
  {
    IsPath(links, [c] + q, c, End(c, q)) && Fresh(links, visited, q) && |visited| + |q| == |links|
  }

  /** The distance of the route from c through q, started at d, with the link back to s when back is set. */
  function Finish(links: seq<seq<Link>>, c: nat, d: int, q: seq<nat>, s: nat, back: bool): int
    requires AllNodes(links, [c] + q)
  {
    d + Weight(links, [c] + q) + (if back && End(c, q) < |links| then EdgeWeight(links, End(c, q), s) else 0)
  }

  /**
   * Lines 87-110 on values: the best route from c that visits every node not in visited, as
   * `long.MaxValue` when there is none, or `None` where line 92 throws `KeyNotFoundException`
   * (a finished route whose last node has no link back to the start).
   */
  function Explore(links: seq<seq<Link>>, c: nat, visited: set<nat>, d: int, s: nat, back: bool): Option<int>
    requires Linked(links) && c < |links| && s < |links| && Within(visited, |links|)
    decreases |links| - |visited|, 1, 0
  {
    SmallSet(visited, |links|);
    if |visited| == |links| then
      if !back then Some(d)
      else if HasKey(links[c], s) then Some(d + EdgeWeight(links, c, s))
      else None
    else ExploreLinks(links, c, visited, d, s, back, |links[c]|)
  }

  /** Lines 95-108: the best of the routes through the first i links of c. */
  function ExploreLinks(links: seq<seq<Link>>, c: nat, visited: set<nat>, d: int, s: nat, back: bool, i: nat): Option<int>
    requires Linked(links) && c < |links| && s < |links| && Within(visited, |links|)
    requires |visited| < |links| && i <= |links[c]|
    decreases |links| - |visited|, 0, i
  {
    if i == 0 then Some(LongMax)
    else
      match ExploreLinks(links, c, visited, d, s, back, i - 1)
      case None => None
      case Some(best) =>
        var link := links[c][i - 1];
        if link.target in visited then Some(best)
        else
          SmallSet(visited + {link.target}, |links|);
          match Explore(links, link.target, visited + {link.target}, d + link.distance, s, back)
          case None => None
          case Some(x) => Some(if x < best then x else best)
  }

  /** The search at c over a graph whose links are well formed still has nodes to visit. */
  ghost predicate Open(links: seq<seq<Link>>, c: nat, visited: set<nat>, s: nat)
  {
    Linked(links) && c < |links| && s < |links| && Within(visited, |links|) && |visited| < |links|
  }

  /** One more link, to a node not yet visited, folds that node's best route into the best so far. */
  lemma LinksNext(links: seq<seq<Link>>, c: nat, visited: set<nat>, d: int, s: nat, back: bool, i: nat,
                  best: int, x: Option<int>)
    requires Open(links, c, visited, s) && i < |links[c]| && links[c][i].target !in visited
    requires ExploreLinks(links, c, visited, d, s, back, i) == Some(best)
    requires x == Explore(links, links[c][i].target, visited + {links[c][i].target}, d + links[c][i].distance, s, back)
    ensures ExploreLinks(links, c, visited, d, s, back, i + 1) ==
      match x case None => None case Some(v) => Some(if v < best then v else best)
  {
  }

  /** One more link, to a visited node, changes nothing. */
  lemma LinksSkip(links: seq<seq<Link>>, c: nat, visited: set<nat>, d: int, s: nat, back: bool, i: nat, best: int)
    requires Open(links, c, visited, s) && i < |links[c]| && links[c][i].target in visited
    requires ExploreLinks(links, c, visited, d, s, back, i) == Some(best)
    ensures ExploreLinks(links, c, visited, d, s, back, i + 1) == Some(best)
  {
  }

  /** Before every node is visited, the search is the fold over all links of c. */
  lemma LinksAll(links: seq<seq<Link>>, c: nat, visited: set<nat>, d: int, s: nat, back: bool)
    requires Open(links, c, visited, s)
    ensures Explore(links, c, visited, d, s, back) == ExploreLinks(links, c, visited, d, s, back, |links[c]|)
  {
  }

  /** An error in the first i links is the outcome of the whole search at c. */
  lemma ErrorEnds(links: seq<seq<Link>>, c: nat, visited: set<nat>, d: int, s: nat, back: bool, i: nat)
    requires Open(links, c, visited, s) && i <= |links[c]|
    requires ExploreLinks(links, c, visited, d, s, back, i).None?
    ensures Explore(links, c, visited, d, s, back).None?
  {
    ErrorStays(links, c, visited, d, s, back, i, |links[c]|);
  }

  /** Prepending a node to a walk adds the distance of its link. */
  lemma {:induction false} WeightCons(links: seq<seq<Link>>, c: nat, p: seq<nat>)
    requires c < |links| && AllNodes(links, [c] + p) && |p| >= 1
    ensures AllNodes(links, p) && Weight(links, [c] + p) == EdgeWeight(links, c, p[0]) + Weight(links, p)
    decreases |p|
  {
    assert AllNodes(links, p) by {
      assert forall i :: 0 <= i < |p| ==> p[i] == ([c] + p)[i + 1];
    }
    if |p| > 1 {
      var front := p[..|p| - 1];
      assert ([c] + p)[..|p|] == [c] + front;
      WeightCons(links, c, front);
    }
  }

  /** The targets of a list of links, in order. */
  function Targets(ls: seq<Link>): (r: seq<nat>)
    ensures |r| == |ls| && forall j :: 0 <= j < |ls| ==> r[j] == ls[j].target
  {
    seq(|ls|, j requires 0 <= j < |ls| => ls[j].target)
  }

  /** A route that completes the visit, leaving c through one of its first i links. */
  ghost predicate Via(links: seq<seq<Link>>, c: nat, visited: set<nat>, q: seq<nat>, i: nat)
    requires c < |links| && i <= |links[c]|
  {
    Completes(links, c, visited, q) && |q| >= 1 && q[0] in Targets(links[c][..i])
  }

  /** A completing route ends at a node of the graph. */
  lemma CompletesEnd(links: seq<seq<Link>>, c: nat, visited: set<nat>, q: seq<nat>)
    requires Completes(links, c, visited, q)
    ensures AllNodes(links, [c] + q) && End(c, q) < |links|
  {
  }

  /** Some route completes the visit from c but has no link back to s. */
  ghost predicate Stuck(links: seq<seq<Link>>, c: nat, visited: set<nat>, s: nat)
  {
    exists q :: Completes(links, c, visited, q) && End(c, q) < |links| && !HasKey(links[End(c, q)], s)
  }

  ghost predicate StuckVia(links: seq<seq<Link>>, c: nat, visited: set<nat>, s: nat, i: nat)
    requires c < |links| && i <= |links[c]|
  {
    exists q :: Via(links, c, visited, q, i) && End(c, q) < |links| && !HasKey(links[End(c, q)], s)
  }

  /** r is at most the distance of every route that completes the visit from c. */
  ghost predicate Below(links: seq<seq<Link>>, c: nat, visited: set<nat>, d: int, s: nat, back: bool, r: int)
  {
    forall q :: Completes(links, c, visited, q) && AllNodes(links, [c] + q) ==> r <= Finish(links, c, d, q, s, back)
  }

  ghost predicate BelowVia(links: seq<seq<Link>>, c: nat, visited: set<nat>, d: int, s: nat, back: bool, i: nat, r: int)
    requires c < |links| && i <= |links[c]|
  {
    forall q :: Via(links, c, visited, q, i) && AllNodes(links, [c] + q) ==> r <= Finish(links, c, d, q, s, back)
  }

  /** Some route that completes the visit from c has distance r. */
  ghost predicate Reached(links: seq<seq<Link>>, c: nat, visited: set<nat>, d: int, s: nat, back: bool, r: int)
  {
    exists q :: Completes(links, c, visited, q) && AllNodes(links, [c] + q) && Finish(links, c, d, q, s, back) == r
  }

  ghost predicate ReachedVia(links: seq<seq<Link>>, c: nat, visited: set<nat>, d: int, s: nat, back: bool, i: nat, r: int)
    requires c < |links| && i <= |links[c]|
  {
    exists q :: Via(links, c, visited, q, i) && AllNodes(links, [c] + q) && Finish(links, c, d, q, s, back) == r
  }

  /** With every node visited, the only completing route is the empty one. */
  lemma CompletesEmpty(links: seq<seq<Link>>, c: nat, visited: set<nat>, q: seq<nat>)
    requires c < |links| && |visited| == |links|
    ensures Completes(links, c, visited, q) <==> q == []
  {
    if q == [] {
      assert [c] + q == [c];
    }
  }

  /** A route from c that starts with t is the link to t followed by a route from t. */
  lemma CompletesCons(links: seq<seq<Link>>, c: nat, visited: set<nat>, t: nat, q: seq<nat>)
    requires c < |links|
    ensures End(c, [t] + q) == End(t, q)
    ensures Completes(links, c, visited, [t] + q) <==>
      t < |links| && t !in visited && HasKey(links[c], t) && Completes(links, t, visited + {t}, q)
  {
    PathCons(links, c, t, q);
    FreshCons(links, visited, t, q);
    if t !in visited {
      assert |visited + {t}| == |visited| + 1;
    }
  }

  lemma PathCons(links: seq<seq<Link>>, c: nat, t: nat, q: seq<nat>)
    requires c < |links|
    ensures IsPath(links, [c] + ([t] + q), c, End(t, q)) <==> HasKey(links[c], t) && IsPath(links, [t] + q, t, End(t, q))
  {
    var p, r := [c] + ([t] + q), [t] + q;
    assert forall i :: 0 <= i < |r| ==> p[i + 1] == r[i];
    if IsPath(links, p, c, End(t, q)) {
      assert HasKey(links[p[0]], p[1]);
      assert AllNodes(links, r) by {
        forall i | 0 <= i < |r| ensures r[i] < |links| {
          assert p[i + 1] < |links|;
        }
      }
      forall i | 0 <= i < |r| - 1 ensures HasKey(links[r[i]], r[i + 1]) {
        assert HasKey(links[p[i + 1]], p[i + 2]);
      }
    }
    if HasKey(links[c], t) && IsPath(links, r, t, End(t, q)) {
      assert AllNodes(links, p) by {
        forall i | 0 <= i < |p| ensures p[i] < |links| {
          if i > 0 {
            assert p[i] == r[i - 1];
          }
        }
      }
      forall i | 0 <= i < |p| - 1 ensures HasKey(links[p[i]], p[i + 1]) {
        if i > 0 {
          assert HasKey(links[r[i - 1]], r[i]);
        }
      }
    }
  }

  lemma FreshCons(links: seq<seq<Link>>, visited: set<nat>, t: nat, q: seq<nat>)
    ensures Fresh(links, visited, [t] + q) <==> t < |links| && t !in visited && Fresh(links, visited + {t}, q)
  {
    var p := [t] + q;
    assert forall i :: 0 <= i < |q| ==> p[i + 1] == q[i];
    if Fresh(links, visited, p) {
      forall i | 0 <= i < |q| ensures q[i] < |links| && q[i] !in visited + {t} {
        assert p[0] != p[i + 1];
      }
      forall i, j | 0 <= i < j < |q| ensures q[i] != q[j] {
        assert p[i + 1] != p[j + 1];
      }
    }
    if t < |links| && t !in visited && Fresh(links, visited + {t}, q) {
      forall i, j | 0 <= i < j < |p| ensures p[i] != p[j] {
        if i > 0 {
          assert p[i] == q[i - 1] && p[j] == q[j - 1];
        }
      }
    }
  }

  /** The distance of a route from c through t is that of the route from t, started one link further. */
  lemma FinishCons(links: seq<seq<Link>>, c: nat, d: int, t: nat, q: seq<nat>, s: nat, back: bool)
    requires c < |links| && AllNodes(links, [c] + ([t] + q))
    ensures AllNodes(links, [t] + q) && End(c, [t] + q) == End(t, q)
    ensures Finish(links, c, d, [t] + q, s, back) == Finish(links, t, d + EdgeWeight(links, c, t), q, s, back)
  {
    WeightCons(links, c, [t] + q);
  }

  /** The first i links of c are the first i - 1 and the link i - 1. */
  lemma ViaSplit(links: seq<seq<Link>>, c: nat, visited: set<nat>, q: seq<nat>, i: nat)
    requires c < |links| && 1 <= i <= |links[c]|
    ensures Via(links, c, visited, q, i) <==>
      Via(links, c, visited, q, i - 1) || (Completes(links, c, visited, q) && |q| >= 1 && q[0] == links[c][i - 1].target)
  {
    assert Targets(links[c][..i]) == Targets(links[c][..i - 1]) + [links[c][i - 1].target];
  }

  /** With a node left to visit, every completing route leaves c through one of its links. */
  lemma ViaAll(links: seq<seq<Link>>, c: nat, visited: set<nat>, q: seq<nat>)
    requires c < |links| && |visited| < |links|
    ensures Completes(links, c, visited, q) <==> Via(links, c, visited, q, |links[c]|)
  {
    assert links[c][..|links[c]|] == links[c];
    if Completes(links, c, visited, q) {
      assert ([c] + q)[1] == q[0];
      assert HasKey(links[c], q[0]);
      var j :| 0 <= j < |links[c]| && links[c][j].target == q[0];
      assert Targets(links[c])[j] == q[0];
    }
  }

  /** A route through link i - 1 of c, to t, is t followed by a route from t. */
  lemma ViaLast(links: seq<seq<Link>>, c: nat, visited: set<nat>, q: seq<nat>, i: nat)
    requires c < |links| && 1 <= i <= |links[c]| && Via(links, c, visited, q, i) && !Via(links, c, visited, q, i - 1)
    ensures q == [links[c][i - 1].target] + q[1..] && End(c, q) == End(q[0], q[1..])
    ensures Completes(links, q[0], visited + {q[0]}, q[1..])
  {
    ViaSplit(links, c, visited, q, i);
    assert q == [q[0]] + q[1..];
    CompletesCons(links, c, visited, q[0], q[1..]);
  }

  /** Route t followed by q' from t goes through link i - 1 of c. */
  lemma ViaFirst(links: seq<seq<Link>>, c: nat, visited: set<nat>, q': seq<nat>, i: nat)
    requires c < |links| && 1 <= i <= |links[c]|
    requires links[c][i - 1].target !in visited && HasKey(links[c], links[c][i - 1].target)
    requires Completes(links, links[c][i - 1].target, visited + {links[c][i - 1].target}, q')
    ensures Via(links, c, visited, [links[c][i - 1].target] + q', i)
    ensures End(c, [links[c][i - 1].target] + q') == End(links[c][i - 1].target, q')
  {
    var t := links[c][i - 1].target;
    CompletesCons(links, c, visited, t, q');
    ViaSplit(links, c, visited, [t] + q', i);
  }

  /** When link i - 1 of c leads back into visited, it adds no route. */
  lemma SkipStep(links: seq<seq<Link>>, c: nat, visited: set<nat>, i: nat)
    requires c < |links| && 1 <= i <= |links[c]| && links[c][i - 1].target in visited
    ensures forall q :: Via(links, c, visited, q, i) <==> Via(links, c, visited, q, i - 1)
  {
    forall q ensures Via(links, c, visited, q, i) <==> Via(links, c, visited, q, i - 1) {
      ViaSplit(links, c, visited, q, i);
      if Via(links, c, visited, q, i) && q[0] == links[c][i - 1].target {
        assert q[0] !in visited;
      }
    }
  }

  /** Through link i - 1 to t, the stuck routes are those through the first i - 1 links and those from t. */
  lemma StuckStep(links: seq<seq<Link>>, c: nat, visited: set<nat>, s: nat, i: nat)
    requires c < |links| && 1 <= i <= |links[c]|
    requires links[c][i - 1].target !in visited && HasKey(links[c], links[c][i - 1].target)
    ensures StuckVia(links, c, visited, s, i) <==>
      StuckVia(links, c, visited, s, i - 1) || Stuck(links, links[c][i - 1].target, visited + {links[c][i - 1].target}, s)
  {
    var t := links[c][i - 1].target;
    if StuckVia(links, c, visited, s, i) {
      var q :| Via(links, c, visited, q, i) && End(c, q) < |links| && !HasKey(links[End(c, q)], s);
      if !Via(links, c, visited, q, i - 1) {
        ViaLast(links, c, visited, q, i);
        assert Completes(links, t, visited + {t}, q[1..]);
      }
    }
    if StuckVia(links, c, visited, s, i - 1) {
      var q :| Via(links, c, visited, q, i - 1) && End(c, q) < |links| && !HasKey(links[End(c, q)], s);
      ViaSplit(links, c, visited, q, i);
    }
    if Stuck(links, t, visited + {t}, s) {
      var q' :| Completes(links, t, visited + {t}, q') && End(t, q') < |links| && !HasKey(links[End(t, q')], s);
      ViaFirst(links, c, visited, q', i);
    }
  }

  /** The smaller of the bounds for the first i - 1 links and for t bounds the routes through the first i. */
  lemma BelowStep(links: seq<seq<Link>>, c: nat, visited: set<nat>, d: int, s: nat, back: bool, i: nat, best: int, x: int)
    requires c < |links| && 1 <= i <= |links[c]|
    requires links[c][i - 1].target !in visited && HasKey(links[c], links[c][i - 1].target)
    requires BelowVia(links, c, visited, d, s, back, i - 1, best)
    requires Below(links, links[c][i - 1].target, visited + {links[c][i - 1].target},
      d + EdgeWeight(links, c, links[c][i - 1].target), s, back, x)
    ensures BelowVia(links, c, visited, d, s, back, i, if x < best then x else best)
  {
    forall q | Via(links, c, visited, q, i) && AllNodes(links, [c] + q)
      ensures (if x < best then x else best) <= Finish(links, c, d, q, s, back)
    {
      if !Via(links, c, visited, q, i - 1) {
        ViaLast(links, c, visited, q, i);
        FinishCons(links, c, d, q[0], q[1..], s, back);
      }
    }
  }

  /** A route through the first i - 1 links, or from t, is a route through the first i. */
  lemma ReachedStep(links: seq<seq<Link>>, c: nat, visited: set<nat>, d: int, s: nat, back: bool, i: nat, r: int)
    requires c < |links| && 1 <= i <= |links[c]|
    requires links[c][i - 1].target !in visited && HasKey(links[c], links[c][i - 1].target)
    requires ReachedVia(links, c, visited, d, s, back, i - 1, r) ||
      Reached(links, links[c][i - 1].target, visited + {links[c][i - 1].target},
        d + EdgeWeight(links, c, links[c][i - 1].target), s, back, r)
    ensures ReachedVia(links, c, visited, d, s, back, i, r)
  {
    var t := links[c][i - 1].target;
    if ReachedVia(links, c, visited, d, s, back, i - 1, r) {
      var q :| Via(links, c, visited, q, i - 1) && AllNodes(links, [c] + q) && Finish(links, c, d, q, s, back) == r;
      ViaSplit(links, c, visited, q, i);
    } else {
      var q' :| Completes(links, t, visited + {t}, q') && AllNodes(links, [t] + q') &&
        Finish(links, t, d + EdgeWeight(links, c, t), q', s, back) == r;
      ViaFirst(links, c, visited, q', i);
      CompletesEnd(links, c, visited, [t] + q');
      FinishCons(links, c, d, t, q', s, back);
    }
  }

  /**
   * r is what a search from c should give: `None` exactly when the link back is wanted and some
   * completing route has none; otherwise a value no completing route beats, attained by one when
   * below `long.MaxValue`.
   */
  ghost predicate Means(links: seq<seq<Link>>, c: nat, visited: set<nat>, d: int, s: nat, back: bool, r: Option<int>)
  {
    (r.None? <==> back && Stuck(links, c, visited, s)) &&
    (r.Some? ==> Below(links, c, visited, d, s, back, r.value)) &&
    (r.Some? && r.value < LongMax ==> Reached(links, c, visited, d, s, back, r.value))
  }

  /** Means, over the routes that leave c through its first i links, with r at most `long.MaxValue`. */
  ghost predicate MeansVia(links: seq<seq<Link>>, c: nat, visited: set<nat>, d: int, s: nat, back: bool, i: nat, r: Option<int>)
    requires c < |links| && i <= |links[c]|
  {
    (r.None? <==> back && StuckVia(links, c, visited, s, i)) &&
    (r.Some? ==> r.value <= LongMax && BelowVia(links, c, visited, d, s, back, i, r.value)) &&
    (r.Some? && r.value < LongMax ==> ReachedVia(links, c, visited, d, s, back, i, r.value))
  }

  /** Lines 87-110 compute what they should: the best completing route, or the error. */
  lemma {:induction false} ExploreMeaning(links: seq<seq<Link>>, c: nat, visited: set<nat>, d: int, s: nat, back: bool)
    requires Linked(links) && c < |links| && s < |links| && Within(visited, |links|)
    ensures Means(links, c, visited, d, s, back, Explore(links, c, visited, d, s, back))
    decreases |links| - |visited|, 1, 0
  {
    SmallSet(visited, |links|);
    if |visited| == |links| {
      forall q ensures Completes(links, c, visited, q) <==> q == [] {
        CompletesEmpty(links, c, visited, q);
      }
      assert [c] + [] == [c];
      assert Completes(links, c, visited, []);
    } else {
      ExploreLinksMeaning(links, c, visited, d, s, back, |links[c]|);
      forall q ensures Completes(links, c, visited, q) <==> Via(links, c, visited, q, |links[c]|) {
        ViaAll(links, c, visited, q);
      }
    }
  }

  /** The loop of lines 96-108, over the first i links of c. */
  lemma {:induction false} ExploreLinksMeaning(links: seq<seq<Link>>, c: nat, visited: set<nat>, d: int, s: nat, back: bool, i: nat)
    requires Linked(links) && c < |links| && s < |links| && Within(visited, |links|)
    requires |visited| < |links| && i <= |links[c]|
    ensures MeansVia(links, c, visited, d, s, back, i, ExploreLinks(links, c, visited, d, s, back, i))
    decreases |links| - |visited|, 0, i
  {
    if i == 0 {
      assert forall q :: !Via(links, c, visited, q, 0);
    } else {
      ExploreLinksMeaning(links, c, visited, d, s, back, i - 1);
      var t := links[c][i - 1].target;
      if t in visited {
        SkipStep(links, c, visited, i);
      } else {
        SmallSet(visited + {t}, |links|);
        ExploreMeaning(links, t, visited + {t}, d + links[c][i - 1].distance, s, back);
        LinksStep(links, c, visited, d, s, back, i);
      }
    }
  }

  /** One link of the loop of lines 96-108, to a node not yet visited. */
  lemma LinksStep(links: seq<seq<Link>>, c: nat, visited: set<nat>, d: int, s: nat, back: bool, i: nat)
    requires Linked(links) && c < |links| && s < |links| && Within(visited, |links|)
    requires |visited| < |links| && 1 <= i <= |links[c]| && links[c][i - 1].target !in visited
    requires MeansVia(links, c, visited, d, s, back, i - 1, ExploreLinks(links, c, visited, d, s, back, i - 1))
    requires |visited + {links[c][i - 1].target}| <= |links|
    requires Means(links, links[c][i - 1].target, visited + {links[c][i - 1].target}, d + links[c][i - 1].distance, s, back,
      Explore(links, links[c][i - 1].target, visited + {links[c][i - 1].target}, d + links[c][i - 1].distance, s, back))
    ensures MeansVia(links, c, visited, d, s, back, i, ExploreLinks(links, c, visited, d, s, back, i))
  {
    var t := links[c][i - 1].target;
    LookupAt(links[c], i - 1);
    StuckStep(links, c, visited, s, i);
    var before := ExploreLinks(links, c, visited, d, s, back, i - 1);
    var x := Explore(links, t, visited + {t}, d + links[c][i - 1].distance, s, back);
    if before.Some? && x.Some? {
      BelowStep(links, c, visited, d, s, back, i, before.value, x.value);
      var m := if x.value < before.value then x.value else before.value;
      if m < LongMax {
        ReachedStep(links, c, visited, d, s, back, i, m);
      }
    }
  }

  /** Once a recursive call has thrown, the whole loop of lines 96-108 throws. */
  lemma {:induction false} ErrorStays(links: seq<seq<Link>>, c: nat, visited: set<nat>, d: int, s: nat, back: bool, i: nat, j: nat)
    requires Open(links, c, visited, s) && i <= j <= |links[c]|
    requires ExploreLinks(links, c, visited, d, s, back, i).None?
    ensures ExploreLinks(links, c, visited, d, s, back, j).None?
    decreases j
  {
    if i < j {
      ErrorStays(links, c, visited, d, s, back, i, j - 1);
    }
  }

  // ---------------------------------------------------------------------------
  // The network of a node.
  // ---------------------------------------------------------------------------

  /** Some walk leads from s to x. */
  ghost predicate Connected(links: seq<seq<Link>>, s: nat, x: nat)
  {
    exists p :: IsPath(links, p, s, x)
  }

  /** visited holds every node whose links lead to a node, and the nodes they lead to. */
  ghost predicate Closed(links: seq<seq<Link>>, visited: set<nat>)
  {
    forall x, y :: x in visited && 0 <= x < |links| && HasKey(links[x], y) ==> y in visited
  }

  /**
   * all holds each node of visited once, starting at s, and each is reached by a walk from s.
   */
  ghost predicate Seen(links: seq<seq<Link>>, s: nat, visited: set<nat>, all: seq<nat>)
  {
    s < |links| && |all| >= 1 && all[0] == s &&
    (forall i, j :: 0 <= i < j < |all| ==> all[i] != all[j]) &&
    (forall x :: x in visited <==> x in all) && |visited| == |all| &&
    forall x :: x in visited ==> x < |links| && Connected(links, s, x)
  }

  /** The links of every node of order lead into visited. */
  ghost predicate Done(links: seq<seq<Link>>, visited: set<nat>, order: seq<nat>)
  {
    forall x, y :: x in order && x < |links| && HasKey(links[x], y) ==> y in visited
  }

  /**
   * The loop invariant of GetNodesInNetwork: order (the nodes already listed) followed by queue
   * is the seen list, and every listed node is done.
   */
  ghost predicate Frontier(links: seq<seq<Link>>, s: nat, visited: set<nat>, order: seq<nat>, queue: seq<nat>)
  {
    Seen(links, s, visited, order + queue) && Done(links, visited, order)
  }

  /** Marking and queueing a node linked from a seen node keeps the seen list. */
  lemma SeenAdd(links: seq<seq<Link>>, s: nat, visited: set<nat>, all: seq<nat>, current: nat, t: nat)
    requires Seen(links, s, visited, all) && current in visited && t < |links| && t !in visited
    requires HasKey(links[current], t)
    ensures Seen(links, s, visited + {t}, all + [t])
  {
    ConnectedStep(links, s, current, t);
    AppendFresh(all, t);
  }

  /** A link from a node reached from s leads to a node reached from s. */
  lemma ConnectedStep(links: seq<seq<Link>>, s: nat, x: nat, y: nat)
    requires Connected(links, s, x) && x < |links| && y < |links| && HasKey(links[x], y)
    ensures Connected(links, s, y)
  {
    var p :| IsPath(links, p, s, x);
    var p' := p + [y];
    assert forall i :: 0 <= i < |p| ==> p'[i] == p[i];
    assert IsPath(links, p', s, y);
  }

  /** A set that holds s and is closed under links holds every node reached from s. */
  lemma ClosedReachesAll(links: seq<seq<Link>>, s: nat, visited: set<nat>)
    requires s in visited && Closed(links, visited)
    ensures forall x :: Connected(links, s, x) ==> x in visited
  {
    forall x | Connected(links, s, x) ensures x in visited {
      var p :| IsPath(links, p, s, x);
      var i := 0;
      while i < |p| - 1
        invariant 0 <= i < |p| && p[i] in visited
      {
        assert HasKey(links[p[i]], p[i + 1]);
        i := i + 1;
      }
    }
  }

  /** Lines 131-135: every link of current to a node not yet visited marks it and queues it. */
  method Enqueue(links: seq<seq<Link>>, ghost s: nat, visited: set<nat>, ghost order: seq<nat>, queue: seq<nat>, current: nat)
    returns (visited': set<nat>, queue': seq<nat>)
    requires current < |links| && WellFormed(links[current], |links|) && |order| >= 1 && current == order[|order| - 1]
    requires Seen(links, s, visited, order + queue) && Done(links, visited, order[..|order| - 1])
    ensures Frontier(links, s, visited', order, queue')
  {
    visited', queue' := visited, queue;
    assert current in order + queue;
    for i := 0 to |links[current]|
      invariant Seen(links, s, visited', order + queue') && Done(links, visited', order[..|order| - 1])
      invariant forall j :: 0 <= j < i ==> links[current][j].target in visited'
    {
      var t := links[current][i].target;
      if t !in visited' {
        assert HasKey(links[current], t);
        SeenAdd(links, s, visited', order + queue', current, t);
        assert order + queue' + [t] == order + (queue' + [t]);
        visited', queue' := visited' + {t}, queue' + [t];
      }
    }
    forall x, y | x in order && x < |links| && HasKey(links[x], y) ensures y in visited' {
      if x == current {
        var j :| 0 <= j < |links[current]| && links[current][j].target == y;
      } else {
        var k :| 0 <= k < |order| && order[k] == x;
        assert x in order[..|order| - 1];
      }
    }
  }

  /** Appending a node not in a sequence of distinct nodes keeps them distinct. */
  lemma AppendFresh(q: seq<nat>, t: nat)
    requires (forall i, j :: 0 <= i < j < |q| ==> q[i] != q[j]) && t !in q
    ensures forall i, j :: 0 <= i < j < |q + [t]| ==> (q + [t])[i] != (q + [t])[j]
  {
  }

  /** Line 129: taking the head of the queue into the listed nodes keeps the seen list. */
  lemma Dequeue(links: seq<seq<Link>>, s: nat, visited: set<nat>, order: seq<nat>, queue: seq<nat>)
    requires Frontier(links, s, visited, order, queue) && |queue| > 0
    ensures queue[0] < |links| && |order| < |links|
    ensures Seen(links, s, visited, (order + [queue[0]]) + queue[1..])
    ensures Done(links, visited, (order + [queue[0]])[..|order|])
  {
    assert queue[0] in order + queue;
    assert (order + [queue[0]]) + queue[1..] == order + queue;
    assert (order + [queue[0]])[..|order|] == order;
    SmallSet(visited, |links|);
  }

  /** With the queue empty, the listed nodes are distinct, hold s and are closed under links. */
  lemma SearchDone(links: seq<seq<Link>>, s: nat, visited: set<nat>, order: seq<nat>)
    requires Frontier(links, s, visited, order, [])
    ensures |order| >= 1 && order[0] == s
    ensures forall i, j :: 0 <= i < j < |order| ==> order[i] != order[j]
    ensures forall x :: x in visited <==> x in order
    ensures forall x :: Connected(links, s, x) <==> x in visited
  {
    assert order + [] == order;
    assert Closed(links, visited) by {
      forall x, y | x in visited && 0 <= x < |links| && HasKey(links[x], y) ensures y in visited {
        assert x in order;
      }
    }
    ClosedReachesAll(links, s, visited);
  }

  /** The names of distinct nodes are distinct, and name exactly those nodes. */
  /** The names listed when the queue runs empty are those of the nodes connected to s, s first. */
  lemma NetworkListed(names: seq<string>, links: seq<seq<Link>>, s: nat, visited: set<nat>, order: seq<nat>, result: seq<string>)
    requires Sorted(names) && |links| == |names| && s < |names|
    requires Frontier(links, s, visited, order, []) && NamesOf(names, order, result)
    ensures |result| >= 1 && result[0] == names[s]
    ensures forall i, j :: 0 <= i < j < |result| ==> result[i] != result[j]
    ensures forall y :: y in result ==> y in names
    ensures forall x :: 0 <= x < |names| ==> (names[x] in result <==> Connected(links, s, x))
  {
    SearchDone(links, s, visited, order);
    ListedNames(names, order, result, visited);
  }

  /** result lists the names of the nodes in order. */
  predicate NamesOf(names: seq<string>, order: seq<nat>, result: seq<string>)
  {
    |result| == |order| && forall i :: 0 <= i < |order| ==> order[i] < |names| && result[i] == names[order[i]]
  }

  lemma NamesOfSnoc(names: seq<string>, order: seq<nat>, result: seq<string>, x: nat)
    requires NamesOf(names, order, result) && x < |names|
    ensures NamesOf(names, order + [x], result + [names[x]])
  {
  }

  lemma ListedNames(names: seq<string>, order: seq<nat>, result: seq<string>, visited: set<nat>)
    requires Sorted(names) && NamesOf(names, order, result)
    requires forall i, j :: 0 <= i < j < |order| ==> order[i] != order[j]
    requires forall x :: x in visited <==> x in order
    ensures forall i, j :: 0 <= i < j < |result| ==> result[i] != result[j]
    ensures forall y :: y in result ==> y in names
    ensures forall x :: 0 <= x < |names| ==> (names[x] in result <==> x in visited)
  {
    forall i, j | 0 <= i < j < |result| ensures result[i] != result[j] {
      SortedDistinct(names, order[i], order[j]);
    }
    forall x | 0 <= x < |names| ensures names[x] in result <==> x in visited {
      if names[x] in result {
        var i :| 0 <= i < |result| && result[i] == names[x];
        if order[i] != x {
          SortedDistinct(names, order[i], x);
        }
      }
      if x in visited {
        var i :| 0 <= i < |order| && order[i] == x;
        assert result[i] == names[x];
      }
    }
  }
}

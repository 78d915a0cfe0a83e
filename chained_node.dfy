/**
 * ChainedNode: a circular doubly linked list of `long` values whose rings are cut and spliced
 * in place (AdventOfCode2021/Tools/ChainedNode.cs). A ring is described by the ghost sequence
 * of its nodes in `Next` order; every operation states the rings it leaves behind.
 */
module ChainedNodes {
  import CSharpInt

  class ChainedNode {
    const value: int
    // Never null once constructed; Dafny cannot name `this` before the object exists.
    var next: ChainedNode?
    var prev: ChainedNode?

    /** Lines 12-17: a new node is a ring of one. */
    constructor (value: int)
      ensures this.value == value && IsRing([this])
    {
      this.value := value;
      new;
      next := this;
      prev := this;
    }

    /** Lines 95-98: follow `Next` k times. */
    function MoveForward(k: nat, ghost nodes: set<ChainedNode>): (r: ChainedNode)
      requires this in nodes && Closed(nodes)
      reads nodes
      ensures r in nodes
      decreases k
    {
      if k == 0 then this else next.MoveForward(k - 1, nodes)
    }

    /** Lines 100-103: follow `Previous` k times. */
    function MoveBackward(k: nat, ghost nodes: set<ChainedNode>): (r: ChainedNode)
      requires this in nodes && Closed(nodes)
      reads nodes
      ensures r in nodes
      decreases k
    {
      if k == 0 then this else prev.MoveBackward(k - 1, nodes)
    }

    /**
     * Lines 31-41: splice the whole ring that starts at `newNode` right after this node.
     */
    method InsertAfter(newNode: ChainedNode, ghost ring: seq<ChainedNode>, ghost inserted: seq<ChainedNode>)
      requires IsRing(ring) && ring[0] == this
      requires IsRing(inserted) && inserted[0] == newNode && Disjoint(ring, inserted)
      modifies this, next, newNode, newNode.prev
      ensures IsRing([this] + inserted + ring[1..])
    {
      var insertStartNode := newNode;
      var insertEndNode := newNode.prev;
      ghost var n := |ring|;
      ghost var m := |inserted|;
      assert insertEndNode == inserted[m - 1];
      assert next == if n == 1 then this else ring[1];

      insertEndNode.next := next;
      next.prev := insertEndNode;
      next := insertStartNode;
      insertStartNode.prev := this;

      SpliceAfter(ring, inserted);
    }

    /**
     * Lines 19-29: splice the whole ring that starts at `newNode` right before this node.
     */
    method InsertBefore(newNode: ChainedNode, ghost ring: seq<ChainedNode>, ghost inserted: seq<ChainedNode>)
      requires IsRing(ring) && ring[0] == this
      requires IsRing(inserted) && inserted[0] == newNode && Disjoint(ring, inserted)
      modifies this, prev, newNode, newNode.prev
      ensures IsRing(ring + inserted)
    {
      var insertStartNode := newNode;
      var insertEndNode := newNode.prev;
      ghost var n := |ring|;
      ghost var m := |inserted|;
      assert insertEndNode == inserted[m - 1];
      assert prev == ring[n - 1];

      insertStartNode.prev := prev;
      prev.next := insertStartNode;
      prev := insertEndNode;
      insertEndNode.next := this;

      SpliceBefore(ring, inserted);
    }

    /**
     * Lines 67-82: cut the k nodes after this one out as a ring of their own, which starts at
     * the first node cut and is returned.
     */
    method RemoveNextNode(k: nat, ghost ring: seq<ChainedNode>) returns (first: ChainedNode)
      requires IsRing(ring) && ring[0] == this && 1 <= k < |ring|
      modifies ring
      ensures first == ring[1]
      ensures IsRing([this] + ring[k + 1..]) && IsRing(ring[1..k + 1])
    {
      ghost var n := |ring|;
      var firstNodeToRemove := next;
      RingStep(ring, 0);
      assert firstNodeToRemove == ring[1];
      ghost var nodes := RingNodes(ring);
      ForwardInRing(ring, nodes, 0, k);
      var lastNodeToRemove := MoveForward(k, nodes);
      CSharpInt.DivModUnique(k, n, 0, k);
      assert lastNodeToRemove == ring[k];
      RingStep(ring, k);
      assert lastNodeToRemove.next == if k + 1 == n then this else ring[k + 1];

      next := lastNodeToRemove.next;
      lastNodeToRemove.next.prev := this;

      firstNodeToRemove.prev := lastNodeToRemove;
      lastNodeToRemove.next := firstNodeToRemove;

      first := firstNodeToRemove;
      CutAfter(ring, k);
    }

    /**
     * Lines 43-58: cut the k nodes before this one out as a ring of their own, which starts at
     * the first node cut (k steps back) and is returned.
     */
    method RemovePreviousNode(k: nat, ghost ring: seq<ChainedNode>) returns (first: ChainedNode)
      requires IsRing(ring) && ring[0] == this && 1 <= k < |ring|
      modifies ring
      ensures first == ring[|ring| - k]
      ensures IsRing(ring[..|ring| - k]) && IsRing(ring[|ring| - k..])
    {
      ghost var n := |ring|;
      var lastNodeToRemove := prev;
      RingStep(ring, 0);
      ghost var nodes := RingNodes(ring);
      BackwardInRing(ring, nodes, 0, k);
      var firstNodeToRemove := MoveBackward(k, nodes);
      CSharpInt.DivModUnique(-(k as int), n, -1, n - k);
      assert firstNodeToRemove == ring[n - k];
      RingStep(ring, n - k);
      assert firstNodeToRemove.prev == ring[n - k - 1];

      prev := firstNodeToRemove.prev;
      firstNodeToRemove.prev.next := this;

      firstNodeToRemove.prev := lastNodeToRemove;
      lastNodeToRemove.next := firstNodeToRemove;

      first := firstNodeToRemove;
      CutBefore(ring, k);
    }

    /** Lines 60-65: link the neighbours to each other and leave this node a ring of one. */
    method Remove(ghost ring: seq<ChainedNode>)
      requires IsRing(ring) && ring[0] == this
      modifies this, prev, next
      ensures IsRing([this])
      ensures |ring| > 1 ==> IsRing(ring[1..])
    {
      ghost var n := |ring|;
      var before := prev;
      var after := next;
      assert before == ring[n - 1];
      assert after == if n == 1 then this else ring[1];
      before.next := after;
      after.prev := before;
      next := this;
      prev := this;
      if n > 1 {
        Unlink(ring);
      }
    }

    /** Lines 84-93: one lap round the ring, looking for a node holding the value. */
    method ChainContain(nodeValue: int, ghost ring: seq<ChainedNode>) returns (found: bool)
      requires IsRing(ring) && ring[0] == this
      ensures found <==> exists i :: 0 <= i < |ring| && ring[i].value == nodeValue
    {
      var searchNode := this;
      ghost var i := 0;
      while true
        invariant 0 <= i < |ring| && searchNode == ring[i]
        invariant forall j :: 0 <= j < i ==> ring[j].value != nodeValue
        decreases |ring| - i
      {
        if searchNode.value == nodeValue {
          return true;
        }
        searchNode := searchNode.next;
        i := i + 1;
        assert i < |ring| ==> searchNode == ring[i] && searchNode != this;
        assert i == |ring| ==> searchNode == this;
        if searchNode == this {
          return false;
        }
      }
    }
  }

  predicate Distinct(s: seq<ChainedNode>)
  {
    forall i, j :: 0 <= i < j < |s| ==> s[i] != s[j]
  }

  predicate Disjoint(s: seq<ChainedNode>, t: seq<ChainedNode>)
  {
    forall i, j :: 0 <= i < |s| && 0 <= j < |t| ==> s[i] != t[j]
  }

  /** Consecutive nodes point at each other. */
  predicate Linked(s: seq<ChainedNode>)
    reads s
  {
    forall i :: 0 <= i < |s| - 1 ==> s[i].next == s[i + 1] && s[i + 1].prev == s[i]
  }

  /** s lists, in `Next` order, the distinct nodes of one closed ring. */
  predicate IsRing(s: seq<ChainedNode>)
    reads s
  {
    |s| >= 1 && Distinct(s) && Linked(s) && s[|s| - 1].next == s[0] && s[0].prev == s[|s| - 1]
  }

  /** The nodes of a ring, as a set. */
  function NodesOf(ring: seq<ChainedNode>): set<ChainedNode>
  {
    set x | x in ring
  }

  /** No pointer leaves the set. */
  predicate Closed(nodes: set<ChainedNode>)
    reads nodes
  {
    // Triggered on the field reads: a trigger on `x in nodes` would feed itself `x.next in nodes`.
    forall x {:trigger x.next} {:trigger x.prev} :: x in nodes ==> x.next != null && x.next in nodes && x.prev != null && x.prev in nodes
  }

  /** Within a ring, `Next` of `Previous` and `Previous` of `Next` lead back to the node. */
  lemma RingInvariant(ring: seq<ChainedNode>, i: nat)
    requires IsRing(ring) && i < |ring|
    ensures ring[i].next != null && ring[i].next.prev == ring[i]
    ensures ring[i].prev != null && ring[i].prev.next == ring[i]
    ensures ring[i].next in ring && ring[i].prev in ring
  {
    var n := |ring|;
    if i + 1 < n {
      assert ring[i].next == ring[i + 1];
    }
    if i > 0 {
      assert ring[i - 1].next == ring[i];
    }
  }

  /** Every node of the ring is in `nodes`. */
  predicate Covers(ring: seq<ChainedNode>, nodes: set<ChainedNode>)
  {
    forall j :: 0 <= j < |ring| ==> ring[j] in nodes
  }

  /** The nodes of a ring form a set that no pointer leaves. */
  lemma RingNodes(ring: seq<ChainedNode>) returns (nodes: set<ChainedNode>)
    requires IsRing(ring)
    ensures Closed(nodes) && Covers(ring, nodes)
  {
    nodes := NodesOf(ring);
    RingClosed(ring);
    assert Covers(ring, nodes);
  }

  lemma RingClosed(ring: seq<ChainedNode>)
    requires IsRing(ring)
    ensures Closed(NodesOf(ring))
  {
    forall x | x in ring
      ensures x.next != null && x.next in ring && x.prev != null && x.prev in ring
    {
      var i :| 0 <= i < |ring| && ring[i] == x;
      RingInvariant(ring, i);
    }
  }

  /** `MoveForward(k)` from the i-th node of a ring reaches the node k places further on. */
  lemma {:induction false} ForwardInRing(ring: seq<ChainedNode>, nodes: set<ChainedNode>, i: nat, k: nat)
    requires IsRing(ring) && i < |ring| && Closed(nodes) && Covers(ring, nodes)
    ensures ring[i].MoveForward(k, nodes) == ring[(i + k) % |ring|]
    decreases k
  {
    var n := |ring|;
    if k == 0 {
      CSharpInt.DivModUnique(i, n, 0, i);
    } else {
      var j := if i + 1 < n then i + 1 else 0;
      RingStep(ring, i);
      ForwardInRing(ring, nodes, j, k - 1);
      ShiftMod(i, j, k, n);
      ForwardStep(ring[i], k, nodes);
    }
  }

  /** `MoveBackward(k)` from the i-th node of a ring reaches the node k places back. */
  lemma {:induction false} BackwardInRing(ring: seq<ChainedNode>, nodes: set<ChainedNode>, i: nat, k: nat)
    requires IsRing(ring) && i < |ring| && Closed(nodes) && Covers(ring, nodes)
    ensures ring[i].MoveBackward(k, nodes) == ring[(i - k) % |ring|]
    decreases k
  {
    var n := |ring|;
    if k == 0 {
      CSharpInt.DivModUnique(i, n, 0, i);
    } else {
      var j := if i > 0 then i - 1 else n - 1;
      RingStep(ring, i);
      BackwardInRing(ring, nodes, j, k - 1);
      ShiftBackMod(i, j, k, n);
      BackwardStep(ring[i], k, nodes);
    }
  }

  lemma ForwardStep(x: ChainedNode, k: nat, nodes: set<ChainedNode>)
    requires x in nodes && Closed(nodes) && k > 0
    ensures x.MoveForward(k, nodes) == x.next.MoveForward(k - 1, nodes)
  {
  }

  lemma BackwardStep(x: ChainedNode, k: nat, nodes: set<ChainedNode>)
    requires x in nodes && Closed(nodes) && k > 0
    ensures x.MoveBackward(k, nodes) == x.prev.MoveBackward(k - 1, nodes)
  {
  }

  /** The neighbours of the i-th node of a ring, by position. */
  lemma RingStep(ring: seq<ChainedNode>, i: nat)
    requires IsRing(ring) && i < |ring|
    ensures ring[i].next == ring[if i + 1 < |ring| then i + 1 else 0]
    ensures ring[i].prev == ring[if i > 0 then i - 1 else |ring| - 1]
  {
    if i > 0 {
      assert ring[i - 1].next == ring[i];
    }
  }

  lemma ShiftMod(i: int, j: int, k: int, n: int)
    requires n >= 1 && 0 <= i < n && j == (if i + 1 < n then i + 1 else 0) && k >= 1
    ensures (j + (k - 1)) % n == (i + k) % n
  {
    if i + 1 == n {
      assert i + k == (k - 1) + 1 * n;
      CSharpInt.ModMultiple(k - 1, 1, n);
    }
  }

  lemma ShiftBackMod(i: int, j: int, k: int, n: int)
    requires n >= 1 && 0 <= i < n && j == (if i > 0 then i - 1 else n - 1) && k >= 1
    ensures (j - (k - 1)) % n == (i - k) % n
  {
    if i == 0 {
      assert j - (k - 1) == (i - k) + 1 * n;
      CSharpInt.ModMultiple(i - k, 1, n);
    }
  }

  /** Moving back k steps undoes moving forward k steps, and the other way round. */
  lemma ForwardBackward(ring: seq<ChainedNode>, nodes: set<ChainedNode>, i: nat, k: nat)
    requires IsRing(ring) && i < |ring| && Closed(nodes) && Covers(ring, nodes)
    ensures ring[i].MoveForward(k, nodes).MoveBackward(k, nodes) == ring[i]
    ensures ring[i].MoveBackward(k, nodes).MoveForward(k, nodes) == ring[i]
  {
    var n := |ring|;
    ForwardInRing(ring, nodes, i, k);
    BackwardInRing(ring, nodes, (i + k) % n, k);
    ModBack(i, k, n);
    BackwardInRing(ring, nodes, i, k);
    ForwardInRing(ring, nodes, (i - k) % n, k);
    ModForth(i, k, n);
  }

  lemma ModBack(i: int, k: int, n: int)
    requires n >= 1 && 0 <= i < n
    ensures ((i + k) % n - k) % n == i
  {
    var q := (i + k) / n;
    assert (i + k) % n - k == i + (-q) * n;
    CSharpInt.ModMultiple(i, -q, n);
    CSharpInt.DivModUnique(i, n, 0, i);
  }

  lemma ModForth(i: int, k: int, n: int)
    requires n >= 1 && 0 <= i < n
    ensures ((i - k) % n + k) % n == i
  {
    var q := (i - k) / n;
    assert (i - k) % n + k == i + (-q) * n;
    CSharpInt.ModMultiple(i, -q, n);
    CSharpInt.DivModUnique(i, n, 0, i);
  }

  // ---------------------------------------------------------------------------------------
  // The rings left by each splice, proved over the heap after the pointer updates.
  // ---------------------------------------------------------------------------------------

  lemma SpliceAfter(ring: seq<ChainedNode>, inserted: seq<ChainedNode>)
    requires |ring| >= 1 && |inserted| >= 1 && Distinct(ring) && Distinct(inserted) && Disjoint(ring, inserted)
    requires forall i :: 1 <= i < |ring| - 1 ==> ring[i].next == ring[i + 1] && ring[i + 1].prev == ring[i]
    requires forall i :: 0 <= i < |inserted| - 1 ==> inserted[i].next == inserted[i + 1] && inserted[i + 1].prev == inserted[i]
    requires ring[0].next == inserted[0] && inserted[0].prev == ring[0]
    requires |ring| > 1 ==> inserted[|inserted| - 1].next == ring[1] && ring[1].prev == inserted[|inserted| - 1]
    requires |ring| > 1 ==> ring[|ring| - 1].next == ring[0] && ring[0].prev == ring[|ring| - 1]
    requires |ring| == 1 ==> inserted[|inserted| - 1].next == ring[0] && ring[0].prev == inserted[|inserted| - 1]
    ensures IsRing([ring[0]] + inserted + ring[1..])
  {
    var s := [ring[0]] + inserted + ring[1..];
    var m := |inserted|;
    forall i | 0 <= i < |s| - 1
      ensures s[i].next == s[i + 1] && s[i + 1].prev == s[i]
    {
      if i == 0 {
      } else if i < m {
        assert s[i] == inserted[i - 1] && s[i + 1] == inserted[i];
      } else if i == m {
        assert s[i] == inserted[m - 1] && s[i + 1] == ring[1];
      } else {
        assert s[i] == ring[i - m] && s[i + 1] == ring[i - m + 1];
      }
    }
    forall i, j | 0 <= i < j < |s|
      ensures s[i] != s[j]
    {
      if i == 0 {
        if j <= m {
          assert s[j] == inserted[j - 1];
        } else {
          assert s[j] == ring[j - m];
        }
      } else if i <= m {
        if j <= m {
          assert s[i] == inserted[i - 1] && s[j] == inserted[j - 1];
        } else {
          assert s[i] == inserted[i - 1] && s[j] == ring[j - m];
        }
      } else {
        assert s[i] == ring[i - m] && s[j] == ring[j - m];
      }
    }
  }

  lemma SpliceBefore(ring: seq<ChainedNode>, inserted: seq<ChainedNode>)
    requires |ring| >= 1 && |inserted| >= 1 && Distinct(ring) && Distinct(inserted) && Disjoint(ring, inserted)
    requires Linked(ring) && Linked(inserted)
    requires ring[|ring| - 1].next == inserted[0] && inserted[0].prev == ring[|ring| - 1]
    requires inserted[|inserted| - 1].next == ring[0] && ring[0].prev == inserted[|inserted| - 1]
    ensures IsRing(ring + inserted)
  {
    var s := ring + inserted;
    var n := |ring|;
    forall i | 0 <= i < |s| - 1
      ensures s[i].next == s[i + 1] && s[i + 1].prev == s[i]
    {
      if i < n - 1 {
        assert s[i] == ring[i] && s[i + 1] == ring[i + 1];
      } else if i == n - 1 {
        assert s[i] == ring[n - 1] && s[i + 1] == inserted[0];
      } else {
        assert s[i] == inserted[i - n] && s[i + 1] == inserted[i - n + 1];
      }
    }
    forall i, j | 0 <= i < j < |s|
      ensures s[i] != s[j]
    {
      if j < n {
        assert s[i] == ring[i] && s[j] == ring[j];
      } else if i < n {
        assert s[i] == ring[i] && s[j] == inserted[j - n];
      } else {
        assert s[i] == inserted[i - n] && s[j] == inserted[j - n];
      }
    }
  }

  lemma CutAfter(ring: seq<ChainedNode>, k: nat)
    requires 1 <= k < |ring| && Distinct(ring)
    requires forall i :: 1 <= i < k ==> ring[i].next == ring[i + 1] && ring[i + 1].prev == ring[i]
    requires forall i :: k + 1 <= i < |ring| - 1 ==> ring[i].next == ring[i + 1] && ring[i + 1].prev == ring[i]
    requires ring[k].next == ring[1] && ring[1].prev == ring[k]
    requires k + 1 < |ring| ==> ring[0].next == ring[k + 1] && ring[k + 1].prev == ring[0]
    requires k + 1 < |ring| ==> ring[|ring| - 1].next == ring[0] && ring[0].prev == ring[|ring| - 1]
    requires k + 1 == |ring| ==> ring[0].next == ring[0] && ring[0].prev == ring[0]
    ensures IsRing([ring[0]] + ring[k + 1..]) && IsRing(ring[1..k + 1])
  {
    var kept := [ring[0]] + ring[k + 1..];
    forall i | 0 <= i < |kept| - 1
      ensures kept[i].next == kept[i + 1] && kept[i + 1].prev == kept[i]
    {
      if i > 0 {
        assert kept[i] == ring[k + i] && kept[i + 1] == ring[k + i + 1];
      }
    }
    forall i, j | 0 <= i < j < |kept|
      ensures kept[i] != kept[j]
    {
      assert kept[j] == ring[k + j];
      if i > 0 {
        assert kept[i] == ring[k + i];
      }
    }
    var cut := ring[1..k + 1];
    forall i | 0 <= i < |cut| - 1
      ensures cut[i].next == cut[i + 1] && cut[i + 1].prev == cut[i]
    {
      assert cut[i] == ring[i + 1] && cut[i + 1] == ring[i + 2];
    }
  }

  lemma CutBefore(ring: seq<ChainedNode>, k: nat)
    requires 1 <= k < |ring| && Distinct(ring)
    requires forall i :: 0 <= i < |ring| - k - 1 ==> ring[i].next == ring[i + 1] && ring[i + 1].prev == ring[i]
    requires forall i :: |ring| - k <= i < |ring| - 1 ==> ring[i].next == ring[i + 1] && ring[i + 1].prev == ring[i]
    requires ring[|ring| - k - 1].next == ring[0] && ring[0].prev == ring[|ring| - k - 1]
    requires ring[|ring| - 1].next == ring[|ring| - k] && ring[|ring| - k].prev == ring[|ring| - 1]
    ensures IsRing(ring[..|ring| - k]) && IsRing(ring[|ring| - k..])
  {
    var n := |ring|;
    var kept := ring[..n - k];
    var cut := ring[n - k..];
    forall i | 0 <= i < |cut| - 1
      ensures cut[i].next == cut[i + 1] && cut[i + 1].prev == cut[i]
    {
      assert cut[i] == ring[n - k + i] && cut[i + 1] == ring[n - k + i + 1];
    }
    forall i, j | 0 <= i < j < |cut|
      ensures cut[i] != cut[j]
    {
      assert cut[i] == ring[n - k + i] && cut[j] == ring[n - k + j];
    }
  }

  lemma Unlink(ring: seq<ChainedNode>)
    requires |ring| > 1 && Distinct(ring)
    requires forall i :: 1 <= i < |ring| - 1 ==> ring[i].next == ring[i + 1] && ring[i + 1].prev == ring[i]
    requires ring[|ring| - 1].next == ring[1] && ring[1].prev == ring[|ring| - 1]
    ensures IsRing(ring[1..])
  {
    var rest := ring[1..];
    forall i | 0 <= i < |rest| - 1
      ensures rest[i].next == rest[i + 1] && rest[i + 1].prev == rest[i]
    {
      assert rest[i] == ring[i + 1] && rest[i + 1] == ring[i + 2];
    }
    forall i, j | 0 <= i < j < |rest|
      ensures rest[i] != rest[j]
    {
      assert rest[i] == ring[i + 1] && rest[j] == ring[j + 1];
    }
  }
}

/** The consistent-hashing ring as a stateful object: a set of physical nodes
    and a list of (point, node) entries kept sorted by point, changed in place
    by add_node and remove_node and read by get_node. */
module Hashing {
  import opened Ring

  class ConsistentHashing {
    /** Replicas placed on the ring per physical node. */
    const virtualNodes: nat
    /** The hash of replica labels and lookup keys (SHA-256 in the system). */
    const hash: string -> Point
    /** The physical nodes currently present. */
    var nodes: set<Node>
    /** The ring: entries sorted ascending by point. */
    var hashRing: seq<Entry>

    /** The ring's invariant, stated on the two fields. */
    ghost predicate Valid()
      reads this
    {
      RingInvariant(hashRing, nodes, virtualNodes)
    }

    /** Builds the ring by adding each initial node in turn. */
    constructor (initial: seq<Node>, virtualNodes: nat, hash: string -> Point)
      ensures Valid()
      ensures this.virtualNodes == virtualNodes && this.hash == hash
      ensures forall m :: m in nodes <==> m in initial
      ensures hashRing == BuildRing(hash, initial, virtualNodes)
    {
      this.virtualNodes := virtualNodes;
      this.hash := hash;
      nodes := {};
      hashRing := [];
      new;
      assert RingNodes([]) == {};
      for k := 0 to |initial|
        invariant Valid()
        invariant nodes == Members(initial[..k])
        invariant hashRing == BuildRing(hash, initial[..k], virtualNodes)
      {
        AddNode(initial[k]);
        assert initial[..k + 1][..k] == initial[..k];
      }
      assert initial[..|initial|] == initial;
      MembersAreListed(initial);
    }

    /** Binary search for the index of the first entry whose point is at least
        target, |hashRing| when there is none. */
    method LowerBound(target: nat) returns (idx: nat)
      requires Sorted(hashRing)
      ensures idx == FirstAtLeast(hashRing, target)
      ensures idx <= |hashRing|
      ensures forall k :: 0 <= k < idx ==> hashRing[k].point < target
      ensures forall k :: idx <= k < |hashRing| ==> hashRing[k].point >= target
    {
      var left: int := 0;
      var right: int := |hashRing| - 1;
      while left <= right
        invariant 0 <= left <= right + 1 <= |hashRing|
        invariant forall k :: 0 <= k < left ==> hashRing[k].point < target
        invariant forall k :: right < k < |hashRing| ==> hashRing[k].point >= target
        decreases right - left
      {
        var mid := (left + right) / 2;
        if hashRing[mid].point >= target {
          right := mid - 1;
        } else {
          left := mid + 1;
        }
      }
      idx := left;
      FirstAtLeastUnique(hashRing, target, idx);
    }

    /** Adds n as a member and inserts its replica entries 0 .. virtualNodes-1,
        each at the lower bound of its point. A node that is already a member
        gets a second set of replica entries. */
    method AddNode(n: Node)
      requires Valid()
      modifies this
      ensures Valid()
      ensures nodes == old(nodes) + {n}
      ensures hashRing == AddReplicas(ReplicaPoints(hash, n), old(hashRing), n, virtualNodes)
      ensures |hashRing| == |old(hashRing)| + virtualNodes
      ensures multiset(hashRing) == multiset(old(hashRing)) + multiset(Replicas(ReplicaPoints(hash, n), n, virtualNodes))
      ensures Subseq(old(hashRing), hashRing)
      ensures Without(hashRing, n) == Without(old(hashRing), n)
      ensures forall m :: CountRefs(hashRing, m) == CountRefs(old(hashRing), m) + (if m == n then virtualNodes else 0)
      ensures n !in old(nodes) ==> CountRefs(hashRing, n) == virtualNodes
    {
      nodes := nodes + {n};
      for i := 0 to virtualNodes
        invariant nodes == old(nodes) + {n}
        invariant hashRing == AddReplicas(ReplicaPoints(hash, n), old(hashRing), n, i)
        invariant Sorted(hashRing)
      {
        var h := hash(ReplicaLabel(n.name, i));
        var idx := LowerBound(h);
        ghost var e := ReplicaEntry(ReplicaPoints(hash, n), n, i);
        assert Entry(h, n) == e;
        PlaceSorted(hashRing, e);
        PlaceAtLowerBound(hashRing, e);
        assert AddReplicas(ReplicaPoints(hash, n), old(hashRing), n, i + 1) == Place(hashRing, e);
        hashRing := hashRing[..idx] + [Entry(h, n)] + hashRing[idx..];
      }
      ghost var before := old(hashRing);
      assert Valid() by {
        AddReplicasPreservesInvariant(ReplicaPoints(hash, n), before, old(nodes), n, virtualNodes);
      }
      assert |hashRing| == |before| + virtualNodes
          && multiset(hashRing) == multiset(before) + multiset(Replicas(ReplicaPoints(hash, n), n, virtualNodes)) by {
        AddReplicasMultiset(ReplicaPoints(hash, n), before, n, virtualNodes);
      }
      assert Subseq(before, hashRing) by {
        AddReplicasKeepsOrder(ReplicaPoints(hash, n), before, n, virtualNodes);
      }
      assert Without(hashRing, n) == Without(before, n) by {
        AddReplicasWithout(ReplicaPoints(hash, n), before, n, virtualNodes);
      }
      assert forall m :: CountRefs(hashRing, m) == CountRefs(before, m) + (if m == n then virtualNodes else 0) by {
        forall m
          ensures CountRefs(hashRing, m) == CountRefs(before, m) + (if m == n then virtualNodes else 0)
        {
          AddReplicasCount(ReplicaPoints(hash, n), before, n, virtualNodes, m);
        }
      }
      if n !in old(nodes) {
        CountRefsZero(before, n);
      }
    }

    /** Removes n and filters its entries out of the ring; does nothing when n
        is not a member. */
    method RemoveNode(n: Node)
      requires Valid()
      modifies this
      ensures Valid()
      ensures n !in old(nodes) ==> nodes == old(nodes) && hashRing == old(hashRing)
      ensures n in old(nodes) ==> nodes == old(nodes) - {n} && hashRing == Without(old(hashRing), n)
      ensures n !in nodes && n !in RingNodes(hashRing)
      ensures Subseq(hashRing, old(hashRing))
    {
      if n !in nodes {
        SubseqRefl(hashRing);
        return;
      }
      WithoutPreservesInvariant(hashRing, nodes, n, virtualNodes);
      WithoutKeepsOrder(hashRing, n);
      RingNodesWithout(hashRing, n);
      nodes := nodes - {n};
      hashRing := Without(hashRing, n);
    }

    /** The node responsible for key: the node of the first entry at or after
        the key's point, wrapping to entry 0; None on an empty ring. */
    method GetNode(key: string) returns (r: Option<Node>)
      requires Valid()
      ensures r == Owner(hashRing, hash(key))
      ensures r.None? <==> hashRing == []
      ensures r.Some? ==> r.value in nodes
    {
      if hashRing == [] {
        return None;
      }
      var h := hash(key);
      var idx := LowerBound(h);
      var nodeIdx := if idx >= |hashRing| then 0 else idx;
      r := Some(hashRing[nodeIdx].node);
    }
  }

  /** Re-mapping on growth: a key whose owner changes when a node is added is
      afterwards owned by the added node. */
  method AddNodeRemapsOnlyToNew(ring: ConsistentHashing, n: Node, key: string)
    returns (before: Option<Node>, after: Option<Node>)
    requires ring.Valid()
    modifies ring
    ensures ring.Valid() && ring.nodes == old(ring.nodes) + {n}
    ensures ring.hashRing == AddReplicas(ReplicaPoints(ring.hash, n), old(ring.hashRing), n, ring.virtualNodes)
    ensures before == Owner(old(ring.hashRing), ring.hash(key)) && after == Owner(ring.hashRing, ring.hash(key))
    ensures before != after ==> after == Some(n)
  {
    before := ring.GetNode(key);
    ghost var s := ring.hashRing;
    ring.AddNode(n);
    after := ring.GetNode(key);
    AddReplicasRemapsOnlyToNew(ReplicaPoints(ring.hash, n), s, n, ring.virtualNodes, ring.hash(key));
  }

  /** Re-mapping on removal: a key that the removed node did not own keeps
      its owner. */
  method RemoveNodeRemapsOnlyItsKeys(ring: ConsistentHashing, n: Node, key: string)
    returns (before: Option<Node>, after: Option<Node>)
    requires ring.Valid()
    modifies ring
    ensures ring.Valid() && ring.nodes == old(ring.nodes) - {n}
    ensures ring.hashRing == Without(old(ring.hashRing), n)
    ensures before == Owner(old(ring.hashRing), ring.hash(key)) && after == Owner(ring.hashRing, ring.hash(key))
    ensures before != Some(n) ==> after == before
  {
    before := ring.GetNode(key);
    ghost var s := ring.hashRing;
    ring.RemoveNode(n);
    after := ring.GetNode(key);
    if n !in old(ring.nodes) {
      WithoutAbsent(s, n);
    }
    if before != Some(n) && n in old(ring.nodes) {
      WithoutKeepsOtherOwners(s, n, ring.hash(key));
    }
  }

  /** Adding a node that is not a member and removing it again restores both
      the member set and the ring exactly. */
  method AddThenRemoveRestores(ring: ConsistentHashing, n: Node)
    requires ring.Valid() && n !in ring.nodes
    modifies ring
    ensures ring.Valid()
    ensures ring.nodes == old(ring.nodes) && ring.hashRing == old(ring.hashRing)
  {
    ghost var s := ring.hashRing;
    ring.AddNode(n);
    ring.RemoveNode(n);
    AddThenRemoveRoundTrip(ReplicaPoints(ring.hash, n), s, n, ring.virtualNodes);
  }
}

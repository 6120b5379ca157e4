/** The values of a consistent-hashing ring and the pure functions over them.

    A ring is a sequence of entries (point, node), kept sorted by point. The
    stateful ring in module Hashing is specified by the functions here: the
    lower bound of a point, inserting one virtual replica at its lower bound,
    filtering a node's entries out, and the clockwise lookup with wrap-around.
    The hash itself is never fixed: the points of a node's replicas are a
    parameter (ReplicaPoints builds them from any hash of the replica labels),
    so every lemma holds for every hash function. */
module Ring {

  datatype Option<+T> = None | Some(value: T)

  /** Size of the hash space: a SHA-256 digest read as an unsigned integer. */
  const HashSpace: nat := 0x1_0000_0000_0000_0000_0000_0000_0000_0000_0000_0000_0000_0000_0000_0000_0000_0000

  /** A point on the ring. */
  type Point = x: nat | x < HashSpace

  /** A physical backend; equality is by field value. */
  datatype Node = Node(name: string, ip: string)

  /** One virtual replica of a node, placed at a point. */
  datatype Entry = Entry(point: Point, node: Node)

  ghost predicate Sorted(s: seq<Entry>)
  {
    forall i, j :: 0 <= i < j < |s| ==> s[i].point <= s[j].point
  }

  /** The physical nodes that some entry of the ring references. */
  ghost function RingNodes(s: seq<Entry>): set<Node>
  {
    set e | e in s :: e.node
  }

  /** The number of entries of the ring that reference node m. */
  function CountRefs(s: seq<Entry>, m: Node): nat
  {
    if s == [] then 0
    else (if s[0].node == m then 1 else 0) + CountRefs(s[1..], m)
  }

  // ---------------------------------------------------------------------------
  // Lower bound

  /** The index of the first entry whose point is at least target, or |s| when
      there is none (the leftmost one on ties). */
  function FirstAtLeast(s: seq<Entry>, target: nat): (i: nat)
    ensures i <= |s|
    ensures i < |s| ==> s[i].point >= target
  {
    if s == [] then 0
    else if s[0].point >= target then 0
    else 1 + FirstAtLeast(s[1..], target)
  }

  /** Every entry before the lower bound is below target. */
  lemma {:induction false} FirstAtLeastBelow(s: seq<Entry>, target: nat)
    ensures forall k :: 0 <= k < FirstAtLeast(s, target) ==> s[k].point < target
  {
    if s != [] && s[0].point < target {
      FirstAtLeastBelow(s[1..], target);
      forall k | 1 <= k < FirstAtLeast(s, target) ensures s[k].point < target {
        assert s[k] == s[1..][k - 1];
      }
    }
  }

  /** An index that splits s into "below target" and "first at least target"
      is the lower bound. */
  lemma {:induction false} FirstAtLeastUnique(s: seq<Entry>, target: nat, i: nat)
    requires i <= |s|
    requires forall k :: 0 <= k < i ==> s[k].point < target
    requires i < |s| ==> s[i].point >= target
    ensures FirstAtLeast(s, target) == i
    decreases i
  {
    if i > 0 {
      assert s[0].point < target;
      forall k | 0 <= k < i - 1 ensures s[1..][k].point < target {
        assert s[1..][k] == s[k + 1];
      }
      if i - 1 < |s[1..]| {
        assert s[1..][i - 1] == s[i];
      }
      FirstAtLeastUnique(s[1..], target, i - 1);
    }
  }

  /** On a sorted ring everything from the lower bound on is at least target. */
  lemma {:induction false} LowerBoundSplitsSorted(s: seq<Entry>, target: nat)
    requires Sorted(s)
    ensures forall k :: 0 <= k < FirstAtLeast(s, target) ==> s[k].point < target
    ensures forall k :: FirstAtLeast(s, target) <= k < |s| ==> s[k].point >= target
  {
    var i := FirstAtLeast(s, target);
    FirstAtLeastBelow(s, target);
    forall k | i <= k < |s|
      ensures s[k].point >= target
    {
      assert s[i].point <= s[k].point;
    }
  }

  // ---------------------------------------------------------------------------
  // Insertion of virtual replicas

  /** Decimal digits of a natural number. */
  function NatToDecimal(i: nat): string
    decreases i
  {
    if i < 10 then ["0123456789"[i]]
    else NatToDecimal(i / 10) + ["0123456789"[i % 10]]
  }

  /** The label hashed to place replica i of a node: "<name>:<i>". */
  function ReplicaLabel(name: string, i: nat): string
  {
    name + ":" + NatToDecimal(i)
  }

  /** The points of the replicas of node n: replica i sits at the hash of its label. */
  function ReplicaPoints(hash: string -> Point, n: Node): nat -> Point
  {
    i => hash(ReplicaLabel(n.name, i))
  }

  /** The entry for replica i of node n, whose replica i sits at points(i). */
  function ReplicaEntry(points: nat -> Point, n: Node, i: nat): Entry
  {
    Entry(points(i), n)
  }

  /** The entries for replicas 0 .. count-1 of node n, in replica order. */
  function Replicas(points: nat -> Point, n: Node, count: nat): (r: seq<Entry>)
    ensures |r| == count
  {
    if count == 0 then [] else Replicas(points, n, count - 1) + [ReplicaEntry(points, n, count - 1)]
  }

  /** Replica i of the list is the entry hashed from label i. */
  lemma {:induction false} ReplicasAt(points: nat -> Point, n: Node, count: nat, i: nat)
    requires i < count
    ensures Replicas(points, n, count)[i] == ReplicaEntry(points, n, i)
  {
    if i < count - 1 {
      ReplicasAt(points, n, count - 1, i);
    }
  }

  /** The replica list for count is the one for count-1 with replica count-1 added. */
  lemma ReplicasStep(points: nat -> Point, n: Node, count: nat)
    requires count > 0
    ensures multiset(Replicas(points, n, count)) == multiset(Replicas(points, n, count - 1)) + multiset{ReplicaEntry(points, n, count - 1)}
  {
  }

  /** s with e inserted at position p. */
  function InsertAt(s: seq<Entry>, p: nat, e: Entry): seq<Entry>
    requires p <= |s|
  {
    s[..p] + [e] + s[p..]
  }

  /** s with e inserted in front of the first entry whose point is at least
      e's: one replica step of add_node. */
  function Place(s: seq<Entry>, e: Entry): seq<Entry>
  {
    if s == [] || s[0].point >= e.point then [e] + s else [s[0]] + Place(s[1..], e)
  }

  /** The ring after inserting replicas 0 .. count-1 of n one by one. */
  function AddReplicas(points: nat -> Point, s: seq<Entry>, n: Node, count: nat): seq<Entry>
    decreases count
  {
    if count == 0 then s
    else Place(AddReplicas(points, s, n, count - 1), ReplicaEntry(points, n, count - 1))
  }

  /** Place splices e in at the lower bound of its point. */
  lemma {:induction false} PlaceAtLowerBound(s: seq<Entry>, e: Entry)
    ensures Place(s, e) == InsertAt(s, FirstAtLeast(s, e.point), e)
  {
    if s != [] && s[0].point < e.point {
      PlaceAtLowerBound(s[1..], e);
      var p := FirstAtLeast(s[1..], e.point);
      assert s[1..][..p] == s[1..p + 1];
      assert s[1..][p..] == s[p + 1..];
      assert [s[0]] + s[1..p + 1] == s[..p + 1];
    }
  }

  /** Inserting e at an index that splits a sorted ring into points below
      and points at least e's keeps it sorted. */
  lemma InsertAtSorted(s: seq<Entry>, p: nat, e: Entry)
    requires Sorted(s) && p <= |s|
    requires forall k :: 0 <= k < p ==> s[k].point < e.point
    requires forall k :: p <= k < |s| ==> s[k].point >= e.point
    ensures Sorted(InsertAt(s, p, e))
  {
    var t := InsertAt(s, p, e);
    forall i, j | 0 <= i < j < |t|
      ensures t[i].point <= t[j].point
    {
      if j < p {
        assert t[i] == s[i] && t[j] == s[j];
      } else if j == p {
        assert t[i] == s[i] && t[j] == e;
      } else if i < p {
        assert t[i] == s[i] && t[j] == s[j - 1];
      } else if i == p {
        assert t[i] == e && t[j] == s[j - 1];
      } else {
        assert t[i] == s[i - 1] && t[j] == s[j - 1];
      }
    }
  }

  /** Inserting at the lower bound keeps a ring sorted. */
  lemma PlaceSorted(s: seq<Entry>, e: Entry)
    requires Sorted(s)
    ensures Sorted(Place(s, e))
  {
    PlaceAtLowerBound(s, e);
    LowerBoundSplitsSorted(s, e.point);
    InsertAtSorted(s, FirstAtLeast(s, e.point), e);
  }

  /** One replica step adds exactly its entry to the bag of entries. */
  lemma {:induction false} PlaceMultiset(s: seq<Entry>, e: Entry)
    ensures |Place(s, e)| == |s| + 1
    ensures multiset(Place(s, e)) == multiset(s) + multiset{e}
  {
    if s != [] && s[0].point < e.point {
      PlaceMultiset(s[1..], e);
      assert s == [s[0]] + s[1..];
    }
  }

  /** add_node keeps the ring sorted. */
  lemma {:induction false} AddReplicasSorted(points: nat -> Point, s: seq<Entry>, n: Node, count: nat)
    requires Sorted(s)
    ensures Sorted(AddReplicas(points, s, n, count))
  {
    if count > 0 {
      AddReplicasSorted(points, s, n, count - 1);
      PlaceSorted(AddReplicas(points, s, n, count - 1), ReplicaEntry(points, n, count - 1));
    }
  }

  /** add_node grows the ring by exactly count entries, and the entries it adds
      are exactly the replica entries of n. */
  lemma {:induction false} AddReplicasMultiset(points: nat -> Point, s: seq<Entry>, n: Node, count: nat)
    ensures |AddReplicas(points, s, n, count)| == |s| + count
    ensures multiset(AddReplicas(points, s, n, count)) == multiset(s) + multiset(Replicas(points, n, count))
  {
    if count > 0 {
      AddReplicasMultiset(points, s, n, count - 1);
      PlaceMultiset(AddReplicas(points, s, n, count - 1), ReplicaEntry(points, n, count - 1));
      ReplicasStep(points, n, count);
    }
  }

  // ---------------------------------------------------------------------------
  // Order-preserving containment

  /** a is a subsequence of b: b with some entries dropped, in the same order, is a. */
  ghost predicate Subseq(a: seq<Entry>, b: seq<Entry>)
    decreases |b|
  {
    a == [] || (b != [] && ((a[0] == b[0] && Subseq(a[1..], b[1..])) || Subseq(a, b[1..])))
  }

  lemma {:induction false} SubseqRefl(s: seq<Entry>)
    ensures Subseq(s, s)
  {
    if s != [] {
      SubseqRefl(s[1..]);
    }
  }

  /** One replica step keeps every subsequence of the ring a subsequence. */
  lemma {:induction false} PlaceKeepsSubseq(a: seq<Entry>, s: seq<Entry>, e: Entry)
    requires Subseq(a, s)
    ensures Subseq(a, Place(s, e))
    decreases |s|
  {
    var t := Place(s, e);
    if a == [] {
    } else if s[0].point >= e.point {
      assert t[1..] == s;
    } else {
      assert t[0] == s[0] && t[1..] == Place(s[1..], e);
      if a[0] == s[0] && Subseq(a[1..], s[1..]) {
        PlaceKeepsSubseq(a[1..], s[1..], e);
      } else {
        PlaceKeepsSubseq(a, s[1..], e);
      }
    }
  }

  /** The old ring appears in the ring after add_node in its original order. */
  lemma {:induction false} AddReplicasKeepsOrder(points: nat -> Point, s: seq<Entry>, n: Node, count: nat)
    ensures Subseq(s, AddReplicas(points, s, n, count))
  {
    if count == 0 {
      SubseqRefl(s);
    } else {
      AddReplicasKeepsOrder(points, s, n, count - 1);
      PlaceKeepsSubseq(s, AddReplicas(points, s, n, count - 1), ReplicaEntry(points, n, count - 1));
    }
  }

  // ---------------------------------------------------------------------------
  // Removal

  /** The entries of s that do not reference n, in their order: remove_node's filter. */
  function Without(s: seq<Entry>, n: Node): (r: seq<Entry>)
    ensures |r| <= |s|
  {
    if s == [] then []
    else if s[0].node == n then Without(s[1..], n)
    else [s[0]] + Without(s[1..], n)
  }

  /** The filtered ring holds exactly the entries of s that do not reference n. */
  lemma {:induction false} WithoutMembers(s: seq<Entry>, n: Node)
    ensures forall e :: e in Without(s, n) <==> e in s && e.node != n
  {
    if s != [] {
      WithoutMembers(s[1..], n);
      assert s == [s[0]] + s[1..];
    }
  }

  /** Filtering keeps a ring sorted. */
  lemma {:induction false} WithoutSorted(s: seq<Entry>, n: Node)
    requires Sorted(s)
    ensures Sorted(Without(s, n))
  {
    if s != [] {
      assert Sorted(s[1..]);
      WithoutSorted(s[1..], n);
      WithoutMembers(s[1..], n);
      var w := Without(s[1..], n);
      forall k | 0 <= k < |w|
        ensures s[0].point <= w[k].point
      {
        assert w[k] in s[1..];
        var j :| 0 <= j < |s[1..]| && s[1..][j] == w[k];
        assert s[j + 1] == w[k];
      }
    }
  }

  /** The filtered ring is the old ring with entries dropped, in the same order. */
  lemma {:induction false} WithoutKeepsOrder(s: seq<Entry>, n: Node)
    ensures Subseq(Without(s, n), s)
  {
    if s != [] {
      WithoutKeepsOrder(s[1..], n);
    }
  }

  /** Filtering out a node nothing references changes nothing. */
  lemma {:induction false} WithoutAbsent(s: seq<Entry>, n: Node)
    requires n !in RingNodes(s)
    ensures Without(s, n) == s
  {
    if s != [] {
      assert s[0] in s;
      assert n !in RingNodes(s[1..]) by {
        forall e | e in s[1..] ensures e.node != n {
          assert e in s;
        }
      }
      WithoutAbsent(s[1..], n);
      assert s == [s[0]] + s[1..];
    }
  }

  /** Filtering e's node out undoes one replica step of it. */
  lemma {:induction false} PlaceWithout(s: seq<Entry>, e: Entry)
    ensures Without(Place(s, e), e.node) == Without(s, e.node)
  {
    var t := Place(s, e);
    if s == [] || s[0].point >= e.point {
      assert t[0] == e && t[1..] == s;
    } else {
      PlaceWithout(s[1..], e);
      assert t[0] == s[0] && t[1..] == Place(s[1..], e);
    }
  }

  /** The inserted replica entries are exactly what filtering n out takes away again. */
  lemma {:induction false} AddReplicasWithout(points: nat -> Point, s: seq<Entry>, n: Node, count: nat)
    ensures Without(AddReplicas(points, s, n, count), n) == Without(s, n)
  {
    if count > 0 {
      AddReplicasWithout(points, s, n, count - 1);
      PlaceWithout(AddReplicas(points, s, n, count - 1), ReplicaEntry(points, n, count - 1));
    }
  }

  /** Round trip: adding a node that no entry references and then filtering it
      out gives back exactly the ring before, order and contents. */
  lemma AddThenRemoveRoundTrip(points: nat -> Point, s: seq<Entry>, n: Node, count: nat)
    requires n !in RingNodes(s)
    ensures Without(AddReplicas(points, s, n, count), n) == s
  {
    AddReplicasWithout(points, s, n, count);
    WithoutAbsent(s, n);
  }

  // ---------------------------------------------------------------------------
  // Membership and replica counts

  lemma RingNodesMember(s: seq<Entry>, k: nat)
    requires k < |s|
    ensures s[k].node in RingNodes(s)
  {
    assert s[k] in s;
  }

  /** The nodes referenced by a ring with one more entry in front. */
  lemma RingNodesCons(x: Entry, r: seq<Entry>)
    ensures RingNodes([x] + r) == {x.node} + RingNodes(r)
  {
    var t := [x] + r;
    forall y | y in RingNodes(t) ensures y in {x.node} + RingNodes(r) {
      var e :| e in t && e.node == y;
      if e != x {
        assert e in r;
      }
    }
    forall y | y in RingNodes(r) ensures y in RingNodes(t) {
      var e :| e in r && e.node == y;
      assert e in t;
    }
    assert x in t;
  }

  /** One replica step adds its node to the referenced nodes. */
  lemma {:induction false} PlaceNodes(s: seq<Entry>, e: Entry)
    ensures RingNodes(Place(s, e)) == RingNodes(s) + {e.node}
  {
    if s == [] || s[0].point >= e.point {
      RingNodesCons(e, s);
    } else {
      PlaceNodes(s[1..], e);
      RingNodesCons(s[0], Place(s[1..], e));
      RingNodesCons(s[0], s[1..]);
      assert s == [s[0]] + s[1..];
    }
  }

  /** add_node references n (when it adds at least one replica) and no other new node. */
  lemma {:induction false} AddReplicasNodes(points: nat -> Point, s: seq<Entry>, n: Node, count: nat)
    ensures RingNodes(AddReplicas(points, s, n, count)) == RingNodes(s) + (if count == 0 then {} else {n})
  {
    if count > 0 {
      AddReplicasNodes(points, s, n, count - 1);
      PlaceNodes(AddReplicas(points, s, n, count - 1), ReplicaEntry(points, n, count - 1));
    }
  }

  /** remove_node's filter drops exactly node n from the referenced nodes. */
  lemma RingNodesWithout(s: seq<Entry>, n: Node)
    ensures RingNodes(Without(s, n)) == RingNodes(s) - {n}
  {
    var w := Without(s, n);
    WithoutMembers(s, n);
    forall x | x in RingNodes(s) - {n} ensures x in RingNodes(w) {
      var e :| e in s && e.node == x;
      assert e in w;
    }
  }

  /** A node is referenced exactly when it has a positive count. */
  lemma {:induction false} CountRefsZero(s: seq<Entry>, m: Node)
    ensures CountRefs(s, m) == 0 <==> m !in RingNodes(s)
  {
    if s != [] {
      CountRefsZero(s[1..], m);
      RingNodesCons(s[0], s[1..]);
      assert s == [s[0]] + s[1..];
    }
  }

  /** One replica step adds one reference to its node and none to any other. */
  lemma {:induction false} PlaceCount(s: seq<Entry>, e: Entry, m: Node)
    ensures CountRefs(Place(s, e), m) == CountRefs(s, m) + (if e.node == m then 1 else 0)
  {
    var t := Place(s, e);
    if s == [] || s[0].point >= e.point {
      assert t[0] == e && t[1..] == s;
    } else {
      PlaceCount(s[1..], e, m);
      assert t[0] == s[0] && t[1..] == Place(s[1..], e);
    }
  }

  /** add_node adds exactly count references to n and none to any other node. */
  lemma {:induction false} AddReplicasCount(points: nat -> Point, s: seq<Entry>, n: Node, count: nat, m: Node)
    ensures CountRefs(AddReplicas(points, s, n, count), m) == CountRefs(s, m) + (if m == n then count else 0)
  {
    if count > 0 {
      AddReplicasCount(points, s, n, count - 1, m);
      PlaceCount(AddReplicas(points, s, n, count - 1), ReplicaEntry(points, n, count - 1), m);
    }
  }

  /** remove_node's filter leaves no reference to n and keeps every other node's count. */
  lemma {:induction false} CountRefsWithout(s: seq<Entry>, n: Node, m: Node)
    ensures CountRefs(Without(s, n), m) == if m == n then 0 else CountRefs(s, m)
  {
    if s != [] {
      CountRefsWithout(s[1..], n, m);
      if s[0].node != n {
        assert ([s[0]] + Without(s[1..], n))[1..] == Without(s[1..], n);
      }
    }
  }

  // ---------------------------------------------------------------------------
  // Lookup

  /** The index whose node owns point h: the first entry at or clockwise after h,
      or entry 0 when h lies past every point. */
  function OwnerIndex(s: seq<Entry>, h: nat): (k: nat)
    requires s != []
    ensures k < |s|
  {
    var i := FirstAtLeast(s, h);
    if i == |s| then 0 else i
  }

  /** The owner index is the first entry at least h when there is one, and 0
      when every point is below h. */
  lemma OwnerIndexIsLowerBound(s: seq<Entry>, h: nat)
    requires s != []
    ensures (exists j :: 0 <= j < |s| && s[j].point >= h) ==>
              s[OwnerIndex(s, h)].point >= h && forall j :: 0 <= j < OwnerIndex(s, h) ==> s[j].point < h
    ensures (forall j :: 0 <= j < |s| ==> s[j].point < h) ==> OwnerIndex(s, h) == 0
  {
    FirstAtLeastBelow(s, h);
  }

  /** The node responsible for point h, or None on an empty ring: get_node. */
  function Owner(s: seq<Entry>, h: nat): (r: Option<Node>)
    ensures r.None? <==> s == []
    ensures r.Some? ==> r.value in RingNodes(s)
  {
    if s == [] then None
    else
      var k := OwnerIndex(s, h);
      RingNodesMember(s, k);
      Some(s[k].node)
  }

  /** On a sorted ring the owner's point is the smallest point at least h (the
      clockwise successor) and, when h is past every point, the smallest point
      of all (the wrap-around). */
  lemma OwnerIsSuccessor(s: seq<Entry>, h: nat, j: nat)
    requires Sorted(s)
    requires j < |s|
    ensures s[j].point >= h ==> h <= s[OwnerIndex(s, h)].point <= s[j].point
    ensures (forall i :: 0 <= i < |s| ==> s[i].point < h) ==> s[OwnerIndex(s, h)].point <= s[j].point
  {
    var k := OwnerIndex(s, h);
    OwnerIndexIsLowerBound(s, h);
    if s[j].point >= h && j < k {
      assert false;
    }
  }

  /** Inserting one entry anywhere changes the owner of a point, if at all, to
      the inserted entry's node. */
  lemma InsertAtOwner(s: seq<Entry>, p: nat, e: Entry, h: nat)
    requires p <= |s|
    ensures Owner(InsertAt(s, p, e), h) in {Owner(s, h), Some(e.node)}
  {
    var t := InsertAt(s, p, e);
    var j := FirstAtLeast(t, h);
    FirstAtLeastBelow(t, h);
    if j < p {
      forall k | 0 <= k < j ensures s[k].point < h {
        assert s[k] == t[k];
      }
      FirstAtLeastUnique(s, h, j);
      assert t[j] == s[j];
    } else if j == p {
      assert t[p] == e;
    } else {
      forall k | 0 <= k < j - 1 ensures s[k].point < h {
        if k < p {
          assert s[k] == t[k];
        } else {
          assert s[k] == t[k + 1];
        }
      }
      if j < |t| {
        assert s[j - 1] == t[j];
        FirstAtLeastUnique(s, h, j - 1);
      } else {
        FirstAtLeastUnique(s, h, |s|);
        if p > 0 {
          assert t[0] == s[0];
        } else {
          assert t[0] == e;
        }
      }
    }
  }

  /** One replica step changes the owner of a point, if at all, to its node. */
  lemma PlaceOwner(s: seq<Entry>, e: Entry, h: nat)
    ensures Owner(Place(s, e), h) in {Owner(s, h), Some(e.node)}
  {
    PlaceAtLowerBound(s, e);
    InsertAtOwner(s, FirstAtLeast(s, e.point), e, h);
  }

  /** Locality of re-mapping: after add_node(n), a point whose owner changed is
      now owned by n. */
  lemma {:induction false} AddReplicasRemapsOnlyToNew(points: nat -> Point, s: seq<Entry>, n: Node, count: nat, h: nat)
    ensures Owner(AddReplicas(points, s, n, count), h) in {Owner(s, h), Some(n)}
  {
    if count > 0 {
      AddReplicasRemapsOnlyToNew(points, s, n, count - 1, h);
      PlaceOwner(AddReplicas(points, s, n, count - 1), ReplicaEntry(points, n, count - 1), h);
    }
  }

  /** Filtering n out keeps the lower-bound entry of h whenever that entry
      does not reference n. */
  lemma {:induction false} WithoutKeepsLowerBoundEntry(s: seq<Entry>, n: Node, h: nat)
    requires FirstAtLeast(s, h) < |s| && s[FirstAtLeast(s, h)].node != n
    ensures FirstAtLeast(Without(s, n), h) < |Without(s, n)|
    ensures Without(s, n)[FirstAtLeast(Without(s, n), h)] == s[FirstAtLeast(s, h)]
  {
    var i := FirstAtLeast(s, h);
    var x, r := s[0], s[1..];
    var w := Without(r, n);
    if x.point >= h {
      assert i == 0;
      assert Without(s, n) == [x] + w;
      assert FirstAtLeast([x] + w, h) == 0;
    } else {
      var j := FirstAtLeast(r, h);
      assert i == 1 + j;
      assert s[i] == r[j];
      WithoutKeepsLowerBoundEntry(r, n, h);
      if x.node == n {
        assert Without(s, n) == w;
      } else {
        var t := [x] + w;
        var k := FirstAtLeast(w, h);
        assert Without(s, n) == t;
        assert t[1..] == w;
        assert FirstAtLeast(t, h) == 1 + k;
        assert t[1 + k] == w[k];
      }
    }
  }

  /** Locality of re-mapping on removal: a point that n did not own keeps its
      owner once n's entries are filtered out. */
  lemma WithoutKeepsOtherOwners(s: seq<Entry>, n: Node, h: nat)
    requires Owner(s, h) != Some(n)
    ensures Owner(Without(s, n), h) == Owner(s, h)
  {
    if s != [] {
      var w := Without(s, n);
      var i := FirstAtLeast(s, h);
      if i < |s| {
        WithoutKeepsLowerBoundEntry(s, n, h);
      } else {
        FirstAtLeastBelow(s, h);
        assert s[0].node != n;
        assert w == [s[0]] + Without(s[1..], n);
        WithoutMembers(s, n);
        forall k | 0 <= k < |w| ensures w[k].point < h {
          assert w[k] in w;
        }
        FirstAtLeastUnique(w, h, |w|);
      }
    }
  }

  // ---------------------------------------------------------------------------
  // The ring's invariant

  /** Sorted; the nodes the entries reference are the members (none when no
      replicas are placed); every member is referenced by at least one whole
      replica set (exactly one unless it was added more than once). */
  ghost predicate RingInvariant(s: seq<Entry>, members: set<Node>, count: nat)
  {
    && Sorted(s)
    && RingNodes(s) == (if count == 0 then {} else members)
    && (forall m :: m in members ==> CountRefs(s, m) >= count)
  }

  /** add_node keeps the invariant, with n added to the members. */
  lemma AddReplicasPreservesInvariant(points: nat -> Point, s: seq<Entry>, members: set<Node>, n: Node, count: nat)
    requires RingInvariant(s, members, count)
    ensures RingInvariant(AddReplicas(points, s, n, count), members + {n}, count)
  {
    var t := AddReplicas(points, s, n, count);
    AddReplicasSorted(points, s, n, count);
    AddReplicasNodes(points, s, n, count);
    forall m | m in members + {n}
      ensures CountRefs(t, m) >= count
    {
      AddReplicasCount(points, s, n, count, m);
    }
  }

  /** remove_node's filter keeps the invariant, with n taken out of the members. */
  lemma WithoutPreservesInvariant(s: seq<Entry>, members: set<Node>, n: Node, count: nat)
    requires RingInvariant(s, members, count)
    ensures RingInvariant(Without(s, n), members - {n}, count)
  {
    var t := Without(s, n);
    WithoutSorted(s, n);
    RingNodesWithout(s, n);
    forall m | m in members - {n}
      ensures CountRefs(t, m) >= count
    {
      CountRefsWithout(s, n, m);
    }
  }

  /** The member set built from an initial node list. */
  function Members(nodes: seq<Node>): set<Node>
  {
    if nodes == [] then {} else Members(nodes[..|nodes| - 1]) + {nodes[|nodes| - 1]}
  }

  /** The members built from a node list are exactly the nodes listed. */
  lemma {:induction false} MembersAreListed(nodes: seq<Node>)
    ensures forall m :: m in Members(nodes) <==> m in nodes
  {
    if nodes != [] {
      var init := nodes[..|nodes| - 1];
      MembersAreListed(init);
      assert nodes == init + [nodes[|nodes| - 1]];
    }
  }

  /** The ring built from an initial node list, each node added in turn. */
  function BuildRing(hash: string -> Point, nodes: seq<Node>, count: nat): seq<Entry>
  {
    if nodes == [] then []
    else
      var n := nodes[|nodes| - 1];
      AddReplicas(ReplicaPoints(hash, n), BuildRing(hash, nodes[..|nodes| - 1], count), n, count)
  }
}

# Consistent-hashing ring

A model of the `ConsistentHashing` class of `backendEngineering/hashing.py`: a
router from string keys to physical nodes. Each physical node is placed on a
ring of 2^256 points through `virtual_nodes` replicas. Replica `i` of a node
sits at the hash of the label `"<name>:<i>"`. The ring is a list of
(point, node) entries kept sorted by point. A key is routed to the first entry
whose point is at or clockwise after the key's hash, wrapping to the first
entry when the hash lies past every point.

The project has two modules:

- `Ring` (`ring.dfy`) holds the values (`Node`, `Entry`, `Point`) and the
  functions that specify the ring:
  - `FirstAtLeast`: the lower bound of a point.
  - `Place` and `AddReplicas`: inserting one replica, and all of a node's
    replicas, at their lower bounds.
  - `Without`: the filter applied by `remove_node`.
  - `OwnerIndex` and `Owner`: the clockwise lookup with wrap-around.
  - `RingInvariant`: the invariant of the ring.

  It also holds the lemmas about these functions.
- `Hashing` (`hashing.dfy`) holds the class `ConsistentHashing`:
  - fields `nodes` (a set) and `hashRing` (a sequence), changed in place;
  - constants `virtualNodes` and `hash`;
  - the constructor and the methods `LowerBound` (the binary-search loop),
    `AddNode`, `RemoveNode` and `GetNode`, each proved against the `Ring`
    functions;
  - three client methods that state the re-mapping guarantees on the object
    itself.

The hash function is a constructor parameter of type `string -> Point`. So
every property holds for every hash, SHA-256 included. The ring functions see
only a node's replica points as a function from replica index to point;
`ReplicaPoints` builds that function from the hash and the label.

The model keeps these behaviours of the code:

- Adding a node that is already a member inserts a second set of its replica
  entries. The member set does not change. `AddNode` states this and does not
  treat it as a no-op.
- `virtual_nodes = 0` is accepted. Nodes then become members but the ring stays
  empty, so every lookup returns no node. `RingInvariant` states this case
  separately.
- Replicas whose points collide are not deduplicated. Equal points are allowed
  throughout, and ties are broken by the leftmost position.

## Model

| member | source | states |
|---|---|---|
| Ring.FirstAtLeast | backendEngineering/hashing.py:56-70 | the lower bound is at most the ring length; when it is inside the ring, that entry's point is at least the target |
| Ring.FirstAtLeastBelow | backendEngineering/hashing.py:56-70 | every entry before the lower bound has a point below the target |
| Ring.FirstAtLeastUnique | backendEngineering/hashing.py:61-70 | any index that splits the ring into points below the target and a first point at least the target is the lower bound |
| Ring.LowerBoundSplitsSorted | backendEngineering/hashing.py:56-70 | on a sorted ring, every entry from the lower bound on has a point at least the target |
| Hashing.ConsistentHashing.LowerBound | backendEngineering/hashing.py:58-70 | the binary search over a sorted ring returns the lower bound: points before it are below the target, points from it on are at least the target |
| Ring.Replicas | backendEngineering/hashing.py:75-77 | the replica entries of a node number exactly virtual_nodes |
| Ring.ReplicasAt | backendEngineering/hashing.py:75-77 | replica i of a node sits at the point given for label i and references the node |
| Ring.PlaceAtLowerBound | backendEngineering/hashing.py:79-81 | one replica step inserts the entry exactly at the lower bound of its point |
| Ring.InsertAtSorted | backendEngineering/hashing.py:79-81 | inserting at an index that splits a sorted ring at the entry's point keeps the ring sorted |
| Ring.PlaceSorted | backendEngineering/hashing.py:79-81 | one replica step keeps the ring sorted |
| Ring.PlaceMultiset | backendEngineering/hashing.py:81 | one replica step adds exactly its entry and nothing else |
| Ring.AddReplicasSorted | backendEngineering/hashing.py:72-81 | add_node keeps the ring sorted |
| Ring.AddReplicasMultiset | backendEngineering/hashing.py:72-81 | add_node grows the ring by exactly virtual_nodes entries, and the entries added are exactly the node's replica entries |
| Ring.PlaceKeepsSubseq | backendEngineering/hashing.py:81 | one replica step keeps every subsequence of the ring a subsequence |
| Ring.AddReplicasKeepsOrder | backendEngineering/hashing.py:72-81 | the old ring appears in the new one with its entries in their original relative order |
| Ring.PlaceWithout | backendEngineering/hashing.py:81-89 | filtering a replica's node out undoes that replica's insertion |
| Ring.AddReplicasWithout | backendEngineering/hashing.py:72-89 | filtering the added node out of the ring after add_node gives what filtering it out of the ring before gives |
| Ring.PlaceNodes | backendEngineering/hashing.py:81 | one replica step adds exactly its node to the referenced nodes |
| Ring.AddReplicasNodes | backendEngineering/hashing.py:72-81 | add_node references the added node (when virtual_nodes > 0) and no other new node |
| Ring.PlaceCount | backendEngineering/hashing.py:81 | one replica step adds one reference to its node and none to any other node |
| Ring.AddReplicasCount | backendEngineering/hashing.py:72-81 | add_node adds exactly virtual_nodes references to the added node and none to any other node |
| Ring.Without | backendEngineering/hashing.py:89 | the filtered ring is no longer than the ring |
| Ring.WithoutMembers | backendEngineering/hashing.py:89 | an entry is in the filtered ring exactly when it is in the ring and does not reference the removed node |
| Ring.WithoutSorted | backendEngineering/hashing.py:87-89 | filtering keeps the ring sorted |
| Ring.WithoutKeepsOrder | backendEngineering/hashing.py:89 | the filtered ring is a subsequence of the ring |
| Ring.WithoutAbsent | backendEngineering/hashing.py:89 | filtering out a node that no entry references leaves the ring unchanged |
| Ring.RingNodesWithout | backendEngineering/hashing.py:89 | filtering drops exactly the removed node from the referenced nodes |
| Ring.CountRefsWithout | backendEngineering/hashing.py:89 | after filtering, the removed node has no references and every other node keeps its count |
| Ring.CountRefsZero | backendEngineering/hashing.py:72-81 | a node has no references exactly when no entry references it |
| Ring.AddThenRemoveRoundTrip | backendEngineering/hashing.py:72-89 | adding a node that no entry references and filtering it out again gives back exactly the ring before |
| Ring.OwnerIndex | backendEngineering/hashing.py:100-104 | the owning index of a non-empty ring is in bounds |
| Ring.OwnerIndexIsLowerBound | backendEngineering/hashing.py:100-104 | the owning index is the first entry at or after the key's point when one exists, and index 0 (the wrap-around) when every point is below it |
| Ring.Owner | backendEngineering/hashing.py:91-106 | lookup gives no node exactly on an empty ring; otherwise it gives a node that the ring references |
| Ring.OwnerIsSuccessor | backendEngineering/hashing.py:98-104 | on a sorted ring the owner's point is the smallest point at or after the key's point, or the smallest point of all on wrap-around |
| Ring.InsertAtOwner | backendEngineering/hashing.py:100-106 | inserting one entry anywhere changes a key's owner, if at all, to the inserted entry's node |
| Ring.PlaceOwner | backendEngineering/hashing.py:79-106 | one replica step changes a key's owner, if at all, to the replica's node |
| Ring.AddReplicasRemapsOnlyToNew | backendEngineering/hashing.py:72-106 | a key whose owner changes when a node is added is afterwards owned by the added node |
| Ring.WithoutKeepsLowerBoundEntry | backendEngineering/hashing.py:89-100 | filtering keeps the lower-bound entry of a point when that entry does not reference the removed node |
| Ring.WithoutKeepsOtherOwners | backendEngineering/hashing.py:83-106 | a key that the removed node did not own keeps its owner after the filter |
| Ring.AddReplicasPreservesInvariant | backendEngineering/hashing.py:72-81 | add_node keeps the ring invariant, with the added node as a member |
| Ring.WithoutPreservesInvariant | backendEngineering/hashing.py:83-89 | remove_node's filter keeps the ring invariant, with the removed node no longer a member |
| Ring.MembersAreListed | backendEngineering/hashing.py:46-50 | the members built from the initial list are exactly the listed nodes |
| Hashing.ConsistentHashing.constructor | backendEngineering/hashing.py:42-50 | the new ring satisfies the invariant, its members are exactly the initial nodes, and its entries are those of adding the initial nodes one after another |
| Hashing.ConsistentHashing.AddNode | backendEngineering/hashing.py:72-81 | the node becomes a member; the ring becomes the old ring with the node's replicas placed at their lower bounds; it stays sorted, grows by exactly virtual_nodes entries (the replica entries), keeps the old entries in order and keeps everyone else's counts; a new member gets exactly virtual_nodes references |
| Hashing.ConsistentHashing.RemoveNode | backendEngineering/hashing.py:83-89 | removing a non-member changes nothing; removing a member takes it out of the members and filters its entries out; afterwards nothing references it, the ring stays sorted, and the ring is a subsequence of the old one |
| Hashing.ConsistentHashing.GetNode | backendEngineering/hashing.py:91-106 | gives the owner of the key's hash: no node exactly on an empty ring, otherwise a current member |
| Hashing.AddNodeRemapsOnlyToNew | backendEngineering/hashing.py:72-106 | on the object: the ring becomes the old ring with the node's replicas added; before and after are the lookups of the key on the old and new ring, and when they differ the key is afterwards routed to the added node |
| Hashing.RemoveNodeRemapsOnlyItsKeys | backendEngineering/hashing.py:83-106 | on the object: the ring becomes the old ring with the node's entries filtered out; before and after are the lookups of the key on the old and new ring, and a key not routed to the removed node keeps its lookup result |
| Hashing.AddThenRemoveRestores | backendEngineering/hashing.py:72-89 | on the object: adding a non-member and removing it again restores both the members and the ring exactly |

## Left out

- SHA-256 and reading its hex digest as an integer (`_hash`, lines 52-54) are replaced by the hash parameter. The model only knows that a hash maps strings to points below 2^256.
- The UTF-8 encoding of keys and labels is part of the hash parameter. Labels are `seq<char>`, built with the decimal replica index.
- Hashing.ConsistentHashing.constructor: `virtual_nodes` is a natural number. Python's `range` of a negative count is empty, which behaves like 0; a negative argument itself is not modelled. The default of 3 is not modelled, because callers pass the count explicitly.
- Ring.RingInvariant: states "at least virtual_nodes references per member", not "exactly". The stronger statement is false for the code as written: re-adding a member inserts a second set of its replicas. `AddNode` states the exact count for a node that was not yet a member.
- `NormalHashing` (lines 22-36), the logging setup, `main` and its printed statistics are illustrative drivers and are not part of this model.
- Concurrency is not modelled: the class has no synchronisation and every operation runs to completion.
- The cost model is not modelled: the O(N) list shifting of `insert` and the full rebuild in `remove_node`.

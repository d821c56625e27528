# Consistent hashing with bounded loads

This project models the consistent-hash ring of the repository in Dafny and
proves properties of the model. The repository implements the ring twice.

- **The library ring.** `HashRing` in `pkg/consistenthash/hash.go` and `Node`
  in `pkg/consistenthash/node.go`.
  - Each physical node takes `virtualNodes` positions on a 32-bit ring,
    hashed from `"id#i"`. The positions are kept in a sorted slice, with a
    map from each position to its node.
  - `GetNode` is the unbounded clockwise lookup: the node at the first
    position at or past the key's hash, wrapping to the start.
  - `GetNodeWithBoundedLoad` is sticky. A key already assigned returns its
    node. A new key walks clockwise once around the ring and takes the
    first node under its cap, else the node at its hash.
  - `RemoveKey` releases a key.
  - Every membership change recomputes the common cap and reassigns every
    key with the unbounded lookup.
- **The standalone ring.** `ConsistentHash` and `NodeInfo` in `main.go`.
  - It uses the same sorted-ring and position-map design.
  - `AddNode` and `RemoveNode` silently ignore a duplicate or absent name.
  - `RemoveNode` splices positions out one by one at the index the binary
    search finds.
  - `GetNode` is bounded-load but not sticky. It keeps no record of keys;
    every call adds one to some node's load.
  - `ReleaseKey` lowers the load of the node at the key's hash.

## How the model is built

- **Modules.** Shared ring logic lives in four modules:
  - `SortedRing`: the sorted position sequence, sorting, binary search and
    the clockwise index;
  - `Placement`: virtual positions, the position map and the ring invariant
    `Placed`;
  - `BoundedLoad`: the two cap formulas and the bounded walk;
  - `Tally`: load sums and per-node key counts.

  `Nodes`, `Ring` and `Standalone` model the three source files, and
  `Errors` holds the error values.
- **State.** The mutable objects are classes whose methods change their
  fields in place: `Node`, `HashRing`, `NodeInfo` and `ConsistentHash`.
  The `ring` slice is a `seq<uint32>` field. The maps are `map` fields.
- **The hash.** Each ring's hash (SHA-256 truncated to four bytes in the
  library, 32-bit FNV-1a in `main.go`) is a `string -> uint32` function
  given at construction. Its body is not modelled.
- **Virtual keys.** The `"%s#%d"` formatting is modelled exactly:
  `VirtualKey(id, i) = id + "#" + Decimal(i)`. `Placement.VirtualKeyInjective`
  proves that distinct (node, replica) pairs give distinct strings. So two
  positions can coincide only through a collision of the hash itself.
- **No collisions.** A virtual position that collides with another one is
  excluded by a precondition on `AddNode` (`FreshPositions`).
- **Sorting.** `sort.Slice` and `slices.Sort` are modelled by an insertion
  sort over values (`SortAscending`).
- **Searching.** `sort.Search` is modelled by a binary-search method
  (`LowerBound`), proved against its specification `FirstAtLeast`.
- **Load factor.** The load factor is a `real`. Go's float-to-int
  conversion is `Trunc`, which truncates toward zero.
- **Library invariant.** `HashRing.Valid()` says:
  - positions, position map and members agree (`Placed`);
  - every assigned key's node is a member;
  - every node's load is the number of keys assigned to it;
  - all nodes share one cap.

  From this, `LoadsAddUp` proves load conservation: the loads add up to the
  size of the assignment table.
- **Standalone invariant.** `ConsistentHash.Valid()` says the same topology
  holds and no load is negative.

Behaviours of the code that the model reproduces as they are:

- The library cap is `int(mean * loadFactor + 0.5)`, which rounds half up,
  and it is raised to 1 when that gives 0.
  - The comment beside that line (`hash.go:243`) says "ceiling". The model
    follows the code (`BoundedLoad.HalfUpCap`).
  - The cap is recomputed only on membership change.
  - The cap uses `totalKeys`, not the sum of the loads.
- Library `RemoveNode` subtracts the removed node's load from `totalKeys`
  (`hash.go:119`). It then reassigns that node's keys to the survivors, so
  afterwards `totalKeys` is smaller than the number of assigned keys.
  `totalKeys` is therefore not part of the invariant. `RemoveNode`'s
  contract states its exact new value.
  - `totalKeys` can go negative. `RemoveKey` on the moved keys decrements
    it again (`hash.go:208`). For example, nodes A and B each hold one key.
    Removing A leaves `totalKeys` at 1 while two keys stay assigned.
    Releasing both keys leaves it at -1.
  - A key count far enough below zero gives a negative cap at the next
    membership change. With one node and the default load factor, -2 is
    enough. That breaks the "minimum of 1" at `hash.go:245-247`:
    `BoundedLoad.NegativeKeyCountCap` proves `HalfUpCap(-2, 1, 1.25) == -2`.
    This is why `BoundedLoad.HalfUpCapBounds` requires a non-negative key
    count.
  - With every cap negative, no node can accept a key, so every new key
    takes the fallback at `hash.go:185` (`Ring.HashRing.NegativeCapFallsBack`).
- Library reassignment after a membership change uses the unbounded lookup,
  not the bounded walk (`Placement.Reassigned`).
- The standalone `search` does not wrap. `GetNode` takes the index modulo
  the ring size, and `ReleaseKey` maps an index past the end to 0.
  `SortedRing.ClockwiseIsWrappedSearch` proves both give the same index.
- The standalone `ReleaseKey` lowers the load of the owner of the key's
  hash. That need not be the node `GetNode` charged for the key.
  `Standalone.ConsistentHash.ChoiceVersusOwner` proves when they agree: the
  two coincide whenever the owner was below the cap, and differ only when
  the owner was at or over a non-zero cap.
- A non-positive `replicas` gives a standalone node no positions
  (`Standalone.VirtualCount`), because Go's loop over a non-positive count
  runs no iterations.

## Model

| member | source | states |
|---|---|---|
| Nodes.Node.constructor | pkg/consistenthash/node.go:13-21 | a new node has the given id and host, load 0 and cap 0 |
| Nodes.Node.CanAcceptKey | pkg/consistenthash/node.go:24-29 | true exactly when the cap is 0 or one more key stays within the cap; when false, the node is at or over a non-zero cap |
| Nodes.Node.IncrementLoad | pkg/consistenthash/node.go:32-34 | the load goes up by exactly one and the cap is unchanged |
| Nodes.Node.DecrementLoad | pkg/consistenthash/node.go:37-41 | the load goes down by one only when it was positive, so a non-negative load stays non-negative; the cap is unchanged |
| Nodes.Node.ResetLoad | pkg/consistenthash/node.go:44-46 | the load becomes 0 and the cap is unchanged |
| Ring.DefaultConfig | pkg/consistenthash/hash.go:30-35 | the default settings, 150 virtual nodes and a load factor of 1.25, are both valid (positive) settings |
| Ring.Effective | pkg/consistenthash/hash.go:39-44 | a non-positive replica count becomes 150 and a non-positive load factor 1.25; positive settings are kept |
| Ring.EffectiveIsIdempotent | pkg/consistenthash/hash.go:30-44 | the default settings are kept as they are, and defaulting twice is defaulting once |
| Ring.HashRing.constructor | pkg/consistenthash/hash.go:38-54 | a new ring has the effective settings, no nodes, no positions, an empty assignment table and zero key count, and satisfies the invariant |
| Ring.HashRing.AcceptingIds | pkg/consistenthash/hash.go:175 | the members for which CanAcceptKey holds, which the bounded walk may pick |
| Ring.HashRing.NegativeCapFallsBack | pkg/consistenthash/hash.go:183-190 | once every cap is negative, no node accepts and every new key goes to the owner of its hash |
| Ring.HashRing.LoadsAddUp | pkg/consistenthash/hash_test.go:236-245 | under the invariant the node loads add up to the number of assigned keys |
| Ring.HashRing.Search | pkg/consistenthash/hash.go:221-232 | on a non-empty ring, the least index whose position is at or past the hash, or 0 when every position is smaller |
| Ring.HashRing.GetNodeForHash | pkg/consistenthash/hash.go:214-218 | returns the member node owning the first position clockwise from the hash |
| Ring.HashRing.GetNode | pkg/consistenthash/hash.go:133-143 | fails with no nodes; otherwise returns the owner of the key's hash; no state changes, so repeated calls give the same node |
| Ring.HashRing.Walk | pkg/consistenthash/hash.go:169-181 | the walk's index is the first position clockwise from the start whose node can accept a key, else the start |
| Ring.HashRing.BoundedChoice | pkg/consistenthash/hash.go:168-190 | the node picked for a new key is a member; it can accept a key whenever some node can, and otherwise it is the owner of the key's hash |
| Ring.HashRing.GetNodeWithBoundedLoad | pkg/consistenthash/hash.go:146-191 | with no nodes it fails and changes nothing. An assigned key returns its node and changes nothing. A new key goes to the bounded choice; that one node's load and the key count go up by one and the key is recorded. The node ends within its cap whenever some node could accept. The invariant is kept |
| Ring.HashRing.Commit | pkg/consistenthash/hash.go:176-178 | records the key, raises its node's load and the key count by one, leaves every other load, and keeps the invariant |
| Ring.HashRing.RemoveKey | pkg/consistenthash/hash.go:194-211 | an unassigned key fails and changes nothing; otherwise the entry is deleted, its node's load and the key count go down by one, and every other load stays, so a second release fails |
| Ring.HashRing.Unassign | pkg/consistenthash/hash.go:203-208 | deletes the key, lowers its node's load and the key count by one, and keeps the invariant |
| Ring.HashRing.UpdateMaxLoads | pkg/consistenthash/hash.go:235-253 | every node gets the same cap, the half-up rounded mean times the load factor (at least 1 when it rounds to 0); loads and topology are unchanged |
| Ring.HashRing.ResetLoads | pkg/consistenthash/hash.go:258-260 | every load becomes 0; caps and topology are unchanged |
| Ring.HashRing.RebalanceKeys | pkg/consistenthash/hash.go:256-272 | the new table holds the same keys, each mapped to the owner of its hash, and every node's load is the number of keys mapped to it |
| Ring.HashRing.ReassignAll | pkg/consistenthash/hash.go:263-271 | from zero loads, builds the table that maps each key to the owner of its hash, with loads equal to the per-node key counts |
| Ring.HashRing.AssignToOwner | pkg/consistenthash/hash.go:265-268 | the key goes to the owner of its hash, whose load goes up by one |
| Ring.HashRing.Refresh | pkg/consistenthash/hash.go:88-92 | after a membership change, sets every cap and reassigns every key, which restores the full invariant |
| Ring.HashRing.Join | pkg/consistenthash/hash.go:73-86 | files the node, places its positions (sorted ring of old and new positions, each new one mapped to the node) and keeps the topology |
| Ring.HashRing.AddNode | pkg/consistenthash/hash.go:65-95 | an existing id fails and changes nothing. Otherwise the node is added, the ring is the sorted old and new positions and grows by exactly virtualNodes, and each new position maps to the node. Every key is reassigned to its owner, every cap is recomputed, and the invariant holds |
| Ring.HashRing.Leave | pkg/consistenthash/hash.go:107-121 | drops the node's positions (ring shrinks by virtualNodes, stays sorted), its map entries and the node, and subtracts its load from the key count |
| Ring.HashRing.RemoveNode | pkg/consistenthash/hash.go:98-130 | an unknown id fails and changes nothing. Otherwise the node is gone, the ring keeps in order exactly the positions of other nodes, and no position maps to the removed id. The key count drops by the node's load. Every key is reassigned to a surviving owner, every cap is recomputed, and the invariant holds |
| Ring.HashRing.GetNodes | pkg/consistenthash/hash.go:275-284 | lists every node exactly once and nothing else |
| Ring.HashRing.Stats | pkg/consistenthash/hash.go:287-309 | reports node count, key count, settings and ring size, and one line per node with its id, host, load and cap |
| SortedRing.Insert | pkg/consistenthash/hash.go:84-86 | inserting adds exactly one element and keeps the multiset of the rest |
| SortedRing.SortAscending | pkg/consistenthash/hash.go:84-86 | sorting is a permutation: same length, same multiset |
| SortedRing.InsertKeepsStrictOrder | pkg/consistenthash/hash.go:84-86 | inserting a new position into a strictly ascending sequence keeps it strictly ascending |
| SortedRing.SortIsStrictlyAscending | pkg/consistenthash/hash.go:84-86 | sorting positions without duplicates gives a strictly ascending ring with exactly the same positions |
| SortedRing.AscendingUnique | main.go:82-90 | two strictly ascending rings holding the same positions are equal |
| SortedRing.FirstAtLeast | main.go:96-100 | the least index whose position is at or past h, or the ring length when there is none |
| SortedRing.FirstAtLeastUnique | main.go:96-100 | any index with those two properties is FirstAtLeast |
| SortedRing.LowerBound | pkg/consistenthash/hash.go:222-224 | the binary search returns FirstAtLeast, and every later position is at or past h |
| SortedRing.SearchFindsPresent | main.go:88 | the search for a position on the ring lands exactly on it |
| SortedRing.SpliceAscending | main.go:89 | splicing one index out keeps the ring strictly ascending and removes exactly that position |
| SortedRing.ClockwiseIndex | pkg/consistenthash/hash.go:221-232 | an index on the ring; every earlier position is below h, and the position is at or past h unless every position is below h, in which case the index is 0 |
| SortedRing.ClockwiseIsWrappedSearch | main.go:154-158 | the clockwise index is the unwrapped search index taken modulo the ring size |
| SortedRing.ClockwiseStable | pkg/consistenthash/hash.go:221-232 | the clockwise successor depends only on the set of positions: a sub-ring containing the bigger ring's successor has the same successor |
| Placement.Decimal | pkg/consistenthash/hash.go:77 | the decimal rendering is non-empty, all digits, and one digit exactly for numbers below 10 |
| Placement.DecimalInjective | pkg/consistenthash/hash.go:77 | distinct numbers print differently |
| Placement.VirtualKeyInjective | pkg/consistenthash/hash.go:77 | distinct (node, replica) pairs give distinct virtual keys, even when ids contain '#' |
| Placement.VirtualKey | pkg/consistenthash/hash.go:77 | the "%s#%d" key of replica i of a node |
| Placement.VirtualKeyShape | pkg/consistenthash/hash.go:77 | a virtual key is the node id, then '#', then only the digits of the replica number |
| Placement.VirtualPosition | pkg/consistenthash/hash.go:77-78 | the ring position of replica i is the hash of its virtual key |
| Placement.VirtualPositions | pkg/consistenthash/hash.go:76-81 | exactly count positions, the i-th being the hash of the i-th virtual key |
| Placement.Claim | pkg/consistenthash/hash.go:80 | the map gains exactly the new positions, each mapped to the node, and keeps every other entry |
| Placement.AppendReplicas | main.go:61-66 | the insertion loop appends the node's positions in replica order and maps each to the node |
| Placement.Release | pkg/consistenthash/hash.go:113 | the map loses exactly the node's entries and keeps every other entry |
| Placement.MembersOccupyRing | pkg/consistenthash/hash.go:137-138 | with at least one replica per node, the ring is empty exactly when there are no members |
| Placement.AddKeepsPlaced | pkg/consistenthash/hash.go:73-86 | placing a new node's fresh positions and sorting keeps the ring invariant, and the ring holds exactly the old and new positions |
| Placement.RemoveKeepsPlaced | pkg/consistenthash/hash.go:107-121 | dropping exactly the positions a member owns keeps the ring invariant for the other members |
| Placement.OwnedAreReplicas | main.go:82-85 | under the invariant the positions a member owns are exactly its virtual positions |
| Placement.DropReplicasIsRelease | main.go:82-90 | deleting a member's virtual positions one by one gives the same ring as filtering by owner, and the released map |
| Placement.Owner | pkg/consistenthash/hash.go:214-218 | the node owning the first position clockwise from h |
| Placement.OwnerAtSearchIndex | pkg/consistenthash/hash.go:214-232 | the owner is the node at the index the search finds, where an index past the end wraps to 0 |
| Placement.RemovalKeepsOtherOwners | pkg/consistenthash/hash_test.go:222-231 | removing a node leaves every hash owned by another node with the same owner; only the removed node's keys move |
| Placement.AdditionMovesOnlyToNewNode | pkg/consistenthash/hash.go:75-86 | adding a node moves a hash, if at all, only onto the new node |
| Placement.OwnerIsMember | pkg/consistenthash/hash.go:214-218 | under the invariant every hash is owned by a member, so the lookup never misses |
| Placement.Reassigned | pkg/consistenthash/hash.go:263-271 | the reassigned table holds exactly the given keys |
| Placement.IsReassigned | pkg/consistenthash/hash.go:263-271 | a table holding exactly the keys, each mapped to the owner of its hash, is the reassigned table |
| Placement.ReassignedWithin | pkg/consistenthash/hash.go:264-269 | reassignment sends keys only to member nodes |
| Placement.Survivors | pkg/consistenthash/hash.go:108-116 | the kept positions are exactly those whose owner is not the removed node |
| Placement.FilterOwned | pkg/consistenthash/hash.go:108-116 | the filter loop keeps, in order, the positions of other nodes and deletes the removed node's map entries |
| Placement.SurvivorsAscending | pkg/consistenthash/hash.go:108-116 | filtering keeps the ring sorted |
| Placement.RemovalShrinksByReplicas | pkg/consistenthash/hash_test.go:57-59 | removing a member's positions shortens the ring by exactly the replica count |
| BoundedLoad.Trunc | pkg/consistenthash/hash.go:244 | Go's float-to-int conversion: the integer part, truncated toward zero |
| BoundedLoad.HalfUpCap | pkg/consistenthash/hash.go:241-247 | the truncation of mean times factor plus one half, never 0: 1 where that truncates to 0 |
| BoundedLoad.HalfUpCapBounds | pkg/consistenthash/hash.go:244-247 | with a non-negative key count the cap is at least 1, and with a factor of at least 1 it is at least the mean rounded down |
| BoundedLoad.NegativeKeyCountCap | pkg/consistenthash/hash.go:241-247 | the cap is not always at least 1: one node and a key count of -2 give a cap of -2 |
| BoundedLoad.ProportionalCap | main.go:118-119 | the truncation of the mean load, new key included, times the load factor |
| BoundedLoad.ProportionalCapBounds | main.go:118-119 | with non-negative loads and a factor of at least 1 the cap is at least the mean, new key included, rounded down |
| BoundedLoad.WalkOffset | pkg/consistenthash/hash.go:170-181 | the first offset from i whose node accepts, with every offset before it rejecting, or the ring length when none accepts |
| BoundedLoad.NoAcceptingPosition | pkg/consistenthash/hash.go:183-185 | a walk that finds nothing has seen every position, so no node on the ring accepts |
| BoundedLoad.BoundedIndex | pkg/consistenthash/hash.go:168-185 | an index on the ring; when its node does not accept, it is the start and no node on the ring accepts |
| BoundedLoad.BoundedIndexAccepts | pkg/consistenthash/hash.go:168-181 | when some position belongs to an accepting node, the walk settles on an accepting node |
| BoundedLoad.WalkOffsetIs | pkg/consistenthash/hash.go:170-181 | an offset whose predecessors all reject and which accepts (or is the ring length) is the walk's offset |
| Tally.CountAfterAssign | pkg/consistenthash/hash.go:176-178 | assigning a new key raises only its node's key count, by one |
| Tally.CountAfterRelease | pkg/consistenthash/hash.go:203-208 | deleting a key lowers only its node's key count, by one |
| Tally.CountsAddUp | pkg/consistenthash/hash_test.go:162-164 | when every key's node is among the members, the per-node key counts add up to the number of keys |
| Standalone.NodeInfo.constructor | main.go:55-58 | a new node has the given name and load 0 |
| Standalone.WrapStep | main.go:127-128 | stepping from a search index that may be one past the end lands where stepping from the wrapped index does |
| Standalone.TwoChargesAddTwo | main.go:127-142 | two charges raise the total load by two, for the same key or not: GetNode is not sticky |
| Standalone.VirtualCount | main.go:61 | the number of positions a node takes: replicas when positive, none otherwise |
| Standalone.SpliceReplicas | main.go:82-90 | the splice loop keeps the ring sorted and removes exactly the node's virtual positions from the ring and the map, keeping other entries |
| Standalone.ConsistentHash.Cap | main.go:112-119 | the cap GetNode computes: the truncated mean load, new key included, times the load factor |
| Standalone.ConsistentHash.Accepting | main.go:133 | the nodes below a cap, or every node when the cap is 0 |
| Standalone.ConsistentHash.Choice | main.go:125-142 | the node GetNode charges is a member below the cap (or any node when the cap is 0), or, when no node is, the owner of the key's hash |
| Standalone.ConsistentHash.ChoiceVersusOwner | main.go:154-165 | ReleaseKey's node equals GetNode's whenever it was below the cap; when they differ, it was at or over a non-zero cap and GetNode's node was below the cap (or the cap was 0) |
| Standalone.ConsistentHash.constructor | main.go:28-35 | a new ring keeps the given replica count and load factor and starts with no positions and no nodes |
| Standalone.ConsistentHash.AddNode | main.go:45-70 | a present name changes nothing. Otherwise the name is registered with a fresh node of load 0, and the ring is the sorted old and new positions, growing by the replica count. Each new position maps to the name, and the invariant holds |
| Standalone.ConsistentHash.Join | main.go:55-69 | files the node, places its positions sorted and mapped to it, and keeps the topology |
| Standalone.ConsistentHash.RemoveNode | main.go:73-93 | an absent name changes nothing. Otherwise the name is dropped, the ring keeps in order exactly the positions of other nodes and shrinks by the replica count, the name's map entries go, and the invariant holds |
| Standalone.ConsistentHash.Search | main.go:96-100 | the least index whose position is at or past h, or the ring length; it does not wrap |
| Standalone.ConsistentHash.SumLoads | main.go:112-116 | the loop's total is the sum of all loads |
| Standalone.ConsistentHash.Walk | main.go:127-140 | from the search index taken modulo the ring size, the first position whose node is below the cap (or any when the cap is 0), else that start |
| Standalone.ConsistentHash.GetNode | main.go:103-143 | on an empty ring it fails and changes no load. Otherwise it returns Choice and raises exactly that node's load by one. The node ends within the cap whenever some node was below a non-zero cap. The invariant is kept |
| Standalone.ConsistentHash.GetNodeCharge | main.go:103-143 | on a non-empty ring GetNode succeeds with a member and raises exactly that member's load by one |
| Standalone.ConsistentHash.GetNodeTwice | main.go:103-143 | asking GetNode twice for the same key charges two keys: the total load goes up by two, so GetNode is not sticky |
| Standalone.ConsistentHash.ChooseNode | main.go:111-140 | computes the cap from the current loads, searches and walks, and picks Choice |
| Standalone.ConsistentHash.Charge | main.go:134 | raises one member's load by one and leaves the others |
| Standalone.ConsistentHash.ReleaseKey | main.go:146-168 | on an empty ring it fails and changes no load; otherwise it lowers, not below 0, only the load of the owner of the key's hash |
| Standalone.ConsistentHash.Discharge | main.go:163-165 | lowers one member's positive load by one and leaves the others |
| Standalone.ConsistentHash.GetStats | main.go:171-180 | maps every node's name to its load, and nothing else |

## Left out

- Locking (`sync.RWMutex` and every Lock/Unlock): the model is single-threaded.
- The bodies of SHA-256 and FNV-1a: the hash is a function given at construction.
- IEEE floating point: the load factor is a `real`, and the cap arithmetic is exact rational arithmetic followed by truncation.
- Go's 64-bit `int` overflow in loads, key counts and replica counts: integers are unbounded.
- Go's map iteration order: the loops over nodes and keys pick an arbitrary remaining element. No result depends on the order.
- `Node.Metadata`: an opaque payload with no logic.
- `Node.ID` and `Node.Host` are constants in the model. The source never assigns them after `NewNode`.
- `Stats`: returned as a record instead of nested `map[string]interface{}` values. `GetNodes` and `Stats` return their per-node lines in no particular order.
- Update in place of the `ring` slice and the position map: the insertion, filter and splice loops work on local copies that are assigned back once. There are no other references to the slice or the map, so no aliasing is lost.
- Ring.HashRing.AddNode: requires the new node's virtual positions to be distinct and not yet on the ring. The source, after a hash collision, overwrites the position map and keeps a duplicate position on the ring, which the model does not capture.
- Standalone.ConsistentHash.AddNode: the same no-collision precondition as the library ring.
- Ring.HashRing.RemoveNode: requires that removing the last node leaves no assigned keys. In that case the source indexes the emptied ring while reassigning keys, which is a run-time panic in Go.
- Ring.HashRing.GetNodeWithBoundedLoad: the branch that deletes an assignment whose node is gone (`hash.go:164-165`) is not modelled. The invariant makes every assigned node a member, so the branch cannot run.
- Ring.HashRing.RemoveKey: the check that the key's node still exists (`hash.go:203`) always succeeds under the invariant. The contract states the decrement without the floor at 0 because the node's load is at least 1 there.
- Standalone.ConsistentHash.GetNode: the loads are only known to be non-negative. The standalone ring keeps no record of keys, so no conservation law relates loads to keys.
- Statistical distribution and the number of keys moved by a membership change: these are probabilistic. `Placement.RemovalKeepsOtherOwners` and `Placement.AdditionMovesOnlyToNewNode` state the exact part of that property.
- The demo programs, the command-line tool and `main()`: printing glue over the ring.

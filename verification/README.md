# Verified model of the kcache cluster and of the upload protocol

This project models the two parts of the Youdge code base that carry logic of their own, and
proves properties of them.

**The distributed cache (`src/`).**

- The consistent-hash ring: sorted points, point owners, replica counts and load counters, changed
  by `Add`, `Remove`, `Get` and by a balancer that removes and re-adds virtual nodes. The ring is
  a value (`HashRing`, `Rebalancing`); the class `ConsistentHashMap` updates the four structures in
  place and is proved to do what the ring operations say. The hash is an arbitrary function to 32-bit
  points; lemmas that need labels of different names not to collide say so, for a finite set of
  names and a bound on the label index, because no 32-bit hash separates all strings. A node's own
  labels may collide with one another throughout. `Crc32` and `DefaultRing` treat the default hash.
- The LRU cache, weighted in bytes, with the table of list positions and the byte counter. A list
  iterator is the identity of a list node.
- `SingleFlight` and `KCacheGroup`, once as classes run by one thread and once as step systems in
  which any number of threads interleave. A step is one critical section; a thread may be
  overtaken between any two of its steps.
- The client: discovery events, routing, and the write and delete broadcasts over a network that may
  lose a call before or after it takes effect.

**The file upload (`Server/`, `Client/`).** The 76-byte framed units, their reassembly from TCP
fragments, the upload handlers, and the client's chunking loop.

Where the code does not keep what one would expect of it, the model follows the code, a lemma gives
an input, and another says exactly when the expectation holds:

- Removing a node can take a key away from another node when labels collide
  (`RemoveCanDisturbAnotherNode`). Every other owner is left alone exactly when each point that
  another node took from the removed one falls back to that other node (`RemoveKeepsOtherOwnersIff`);
  every other virtual node is, exactly when no point was taken (`RemoveDisturbsOnlyOwnKeysIff`).
- Adding a present node again after the balancer has raised it leaves a point that, after
  the node has been removed, still belongs to it: a run of two nodes and a thousand requests gets there (`RaisedNodeReAdded`, `OrphanStays`). The
  invariant survives exactly when each point of the node lies under a label that `Add` places
  (`ReAddKeepsValidIff`). The client never adds a present node.
- Under CRC-32 a node's first ten labels never share a point (`DefaultLabelsDiffer`), but the default
  configuration lets the balancer go to two hundred, and then they can (`OwnLabelsCanCollide`); a
  ring is strictly sorted exactly when they do not (`CanonicalStrictIff`).
- A burst of concurrent reads can load a key twice (`BurstCanLoadTwice`), although
  `test/test_group.cpp:112` expects one load. A second load happens only if a thread passes the first
  critical section after a call for the key has been erased, and then it does happen, once nobody is
  about to load (`SecondLoadIff`).
- A delete can be undone by a read that was under way (`DeleteCanBeUndone`): exactly when there was
  one, the getter knows the key, and its entry fits (`DeleteUndoneIff`).
- A stored value that the getter would not answer can break inclusion between caches of different
  sizes (`SetCanBreakInclusion`): a read breaks it exactly when only the larger cache holds the key
  and the smaller one, not empty afterwards, has a different entry in front
  (`OperationKeepsInclusionIff`).
- The byte limit of a group passes through an `int`; multiples of 4 GiB become unlimited
  (`NarrowKeepsIff`).
- The receive loop never ends on a zeroed header (`ZeroHeaderNeverEnds`); it ends exactly when it
  meets no unit whose length is zero or negative as an `int` (`LoopEndsIff`).
- Adding a fresh node and removing it again can move a key when labels collide
  (`AddAndRemoveCanMoveAKey`). It gives back the ring exactly when the node took no point
  (`RemoveUndoesAddIff`), and every owner exactly when each point it took falls back to the node it
  was taken from (`RemoveRestoresOwnersIff`).
- An empty upload is never answered (`UploadCompletesIff`), and an upload is answered as it should be
  exactly when its bytes are as many as announced (`AnsweredWithSuccessIff`). A server that could not open its file
  would still answer the data with success (`UploadArrives`); the shipped client does not get there,
  because it sends nothing after a refused announcement (`Client/reshandler.cpp:254`).

Assumptions: load ratios are exact reals; counters and sizes do not overflow 64 bits; loaders neither
throw nor call `Do` again for the same key; a write to an open file succeeds.

## Model

| member | source | states |
|---|---|---|
| Crc32.Crc32IEEE | src/consistent_hash/consistent_hash.cpp:44-50 | the table-driven loop computes the checksum of the bit-serial shift register over the reflected polynomial (section 8 of RFC 1952), for every byte string |
| Crc32.UpdateIsFeedBits | src/consistent_hash/consistent_hash.cpp:46-48 | one loop iteration, through the table, is eight message bits fed one at a time into the register |
| Crc32.TableIsRound8 | src/consistent_hash/consistent_hash.cpp:11-42 | each of the 256 table constants is what eight register steps make of its index |
| Crc32.ShortWindowNeverCollides | src/consistent_hash/consistent_hash.cpp:44-50 | equally long strings that differ only inside four consecutive bytes have different checksums |
| Crc32.CheckValues | src/consistent_hash/consistent_hash.cpp:44-50 | the digits 1 to 9 have the check value 0xCBF43926, and the empty string has 0 |
| Labels.LabelReads | src/consistent_hash/consistent_hash.cpp:169 | a label is the name, a dash, and the index in decimal digits without leading zeros |
| Labels.LabelInjective | src/consistent_hash/consistent_hash.cpp:169 | a virtual node's label determines node and index, even if names contain dashes and digits |
| Labels.OwnLabelsNeverCollide | src/consistent_hash/consistent_hash.cpp:167-174 | under CRC-32 two labels of one node with equally long indices of up to four digits are different ring points |
| DefaultRing.UnsignedDigits | src/consistent_hash/consistent_hash.cpp:44-50 | a checksum as a point is its value as an unsigned number, base-256 digit by digit |
| DefaultRing.DefaultLabelsDiffer | src/include/kcache/consistent_hash.h:35-38 | under CRC-32 the ten labels that the default configuration gives a new node are ten different points, whatever its name |
| DefaultRing.FreshNodeOwnsTenPoints | src/consistent_hash/consistent_hash.cpp:167-180 | so a node that joins any valid ring owns exactly ten points of it, whatever its labels collide with |
| DefaultRing.OwnLabelsCanCollide | src/include/kcache/consistent_hash.h:35-38 | a node name whose labels 5 and 19 share a point under CRC-32, within the default maximum of two hundred |
| HashRing.PlaceAllCoherent | src/consistent_hash/consistent_hash.cpp:167-180 | placing nodes keeps points, owners, replica counts and counters tied together, collisions or not, unless a node is remembered with more labels than are placed |
| HashRing.AddKeepsValid | src/consistent_hash/consistent_hash.cpp:63-81 | Add keeps the ring sorted and every point one of its registered owner's labels |
| HashRing.RemoveKeepsValid | src/consistent_hash/consistent_hash.cpp:83-110 | Remove keeps the ring invariant on every valid ring, even when labels collide |
| HashRing.ServingIsSuccessor | src/consistent_hash/consistent_hash.cpp:123-132 | lower bound plus wrap-around finds the first ring point clockwise from the key's hash |
| HashRing.SuccessorIsLeastNotBelowElseLeast | src/consistent_hash/consistent_hash.cpp:124-130 | being first clockwise means: the least point not below the hash, or the least point if there is none |
| HashRing.RouteIsSuccessorOwner | src/consistent_hash/consistent_hash.cpp:112-138 | a lookup returns the owner of the clockwise successor, a registered node |
| HashRing.RouteIsRegistered | src/consistent_hash/consistent_hash.cpp:112-138 | a lookup is empty only for an empty key or a ring without points, otherwise a registered node; counting it creates no counter |
| RingEffects.AddRegisters | src/consistent_hash/consistent_hash.cpp:63-81 | which nodes, label counts and counters are registered after adding any list: the listed ones but the empty name, with the configured count; old counters stay, new ones start at zero |
| RingEffects.AddPlaces | src/consistent_hash/consistent_hash.cpp:167-180 | which points are on the ring after adding any list and who owns each: the last listed node with a label there, or else who owned it before |
| RingEffects.RemoveTakes | src/consistent_hash/consistent_hash.cpp:98-109 | Remove takes off the node, its counter and every point under one of its labels, and nothing else |
| RingEffects.GetCountsItsNode | src/consistent_hash/consistent_hash.cpp:132-135 | a lookup raises the counter of the node it answers and the total by one, and changes nothing else |
| RingEffects.UninterruptedGet | src/consistent_hash/consistent_hash.cpp:112-138 | one reader taking its three steps without interruption does what the sequential Get does |
| RingEffects.RatiosAreShares | src/consistent_hash/consistent_hash.cpp:149-151 | a node's reported ratio times the total is its count |
| RingMovement.AddMovesKeysOnlyToAddedNodes | src/consistent_hash/consistent_hash.cpp:63-81 | minimal movement: after Add every key has its old owner or an added node, with no collision hypothesis |
| RingMovement.RemoveDisturbsOnlyOwnKeysIff | src/consistent_hash/consistent_hash.cpp:83-110 | Remove leaves the serving virtual node of every hash the node did not serve, exactly when no other node had taken one of its points |
| RingMovement.RemoveKeepsOtherOwnersIff | src/consistent_hash/consistent_hash.cpp:83-110 | Remove leaves the owner of every hash the node did not own, exactly when each point another node took from it falls back to that other node |
| RingMovement.RemoveMovesOnlyOwnKeys | src/consistent_hash/consistent_hash.cpp:83-110 | under that condition, which holds whenever no point was taken, only the removed node's keys are routed elsewhere |
| RingMovement.RemoveCanDisturbAnotherNode | src/consistent_hash/consistent_hash.cpp:98-105 | a concrete collision in which removing one node moves another node's key |
| RingMovement.RemoveUndoesAddIff | src/consistent_hash/consistent_hash.cpp:63-110 | Remove after Add of a fresh node restores the ring exactly, points, owners and counters, if and only if none of its points was taken |
| RingMovement.RemoveRestoresOwnersIff | src/consistent_hash/consistent_hash.cpp:63-138 | Remove after Add of a fresh node restores the owner of every hash if and only if each point the node took falls back to the node it was taken from |
| RingMovement.AddAndRemoveCanMoveAKey | src/consistent_hash/consistent_hash.cpp:63-110 | a concrete collision in which adding and removing a node leaves a key with another owner |
| RingMovement.CanonicalDetermined | src/consistent_hash/consistent_hash.cpp:167-180 | two complete rings with equal replica counts have the same owners and routes even if a node's own labels collide, and the same points if each stands as often as it was placed |
| RingMovement.CanonicalStrictIff | src/consistent_hash/consistent_hash.cpp:167-180 | such a ring is strictly sorted exactly when no node's own labels collide |
| RingMovement.KeysMoveOnlyWithReplicas | src/consistent_hash/consistent_hash.cpp:63-138 | between any two complete rings a key changes owner only if its old owner lost virtual nodes or its new one gained some |
| Rebalancing.NewReplicasDirection | src/consistent_hash/consistent_hash.cpp:237-262 | the new count stays in the limits; above average load it never grows, otherwise it never shrinks and at most doubles |
| Rebalancing.NewReplicasAntitone | src/consistent_hash/consistent_hash.cpp:247-262 | for equal old counts, more load never means more virtual nodes, rounding and clamping included |
| Rebalancing.OverloadedIff | src/consistent_hash/consistent_hash.cpp:226-244 | a node is above average load exactly when its count times the number of nodes exceeds the total |
| Rebalancing.TargetInCounts | src/consistent_hash/consistent_hash.cpp:226-262 | a node's new count is the integer nearest to a quotient of its old count, the counters and the number of nodes, halves upward, held within the limits |
| Rebalancing.RebalanceInCounts | src/consistent_hash/consistent_hash.cpp:218-290 | one balancer run in terms of the counters alone: direction, doubling bound and the exact new count of each node |
| Rebalancing.RebalanceKeepsValid | src/consistent_hash/consistent_hash.cpp:218-290 | the balancer keeps the ring invariant and the node set in every visiting order, gives every node its target count, and resets the counters |
| Rebalancing.RebalanceArithmetic | src/consistent_hash/consistent_hash.cpp:218-290 | one balancer run on a whole ring: range, direction, doubling bound and monotonicity for all nodes |
| RingHistory.StepCanonical | src/consistent_hash/consistent_hash.cpp:63-290 | when names do not collide with one another, every operation with fresh additions keeps the ring determined by its replica counts |
| RingHistory.HistoryIndependence | src/consistent_hash/consistent_hash.cpp:167-180 | after any two runs, balancer included, equal replica counts mean the same sorted ring, strictly so exactly when no node's own labels collide, and the same route for every key |
| RingHistory.RebalanceMovesKeysOffOverloadedNodes | src/consistent_hash/consistent_hash.cpp:236-280 | the balancer never moves a key from a node whose count times the number of nodes is at most the total to one where it exceeds the total |
| ReAdding.ReAddKeepsValidIff | src/consistent_hash/consistent_hash.cpp:167-180 | adding a present node again keeps the invariant exactly when its points lie under labels that are placed; for a complete node with differing labels, when it is remembered with at most the configured number |
| ReAdding.OrphanStays | src/consistent_hash/consistent_hash.cpp:175 | otherwise a point is left that still routes its keys to the node after the node has been removed |
| ReAdding.RaisedNodeReAdded | src/consistent_hash/consistent_hash.cpp:218-290 | a run from the empty ring in which the balancer, with its trigger met, doubles a node, and adding it again then loses the invariant and leaves it reachable after removal |
| ConsistentHash.ConsistentHashMap.AddNode | src/consistent_hash/consistent_hash.cpp:167-180 | the loop pushes all labels, overwrites their owners, records the count and starts a counter only for a new node |
| ConsistentHash.ConsistentHashMap.Add | src/consistent_hash/consistent_hash.cpp:63-81 | refuses an empty list, skips empty names, and leaves the whole state that the ring operation describes, sorted |
| ConsistentHash.ConsistentHashMap.Remove | src/consistent_hash/consistent_hash.cpp:83-110 | the whole new state, and success exactly for a registered non-empty name |
| ConsistentHash.ConsistentHashMap.Get | src/consistent_hash/consistent_hash.cpp:112-138 | returns the route and raises exactly that node's counter and the total, in the fields themselves; an empty key or ring changes nothing |
| ConsistentHash.ConsistentHashMap.GetStats | src/consistent_hash/consistent_hash.cpp:140-153 | every node's share of the total, or nothing without requests |
| ConsistentHash.ConsistentHashMap.RebalanceNodes | src/consistent_hash/consistent_hash.cpp:218-290 | for some visiting order of the counter table, the in-place loop leaves the state of the rebalancing operation |
| ConsistentHash.ImbalancedIff | src/consistent_hash/consistent_hash.cpp:182-216 | the trigger fires exactly with a thousand requests, a node, and some count whose gap to the total, times the number of nodes, exceeds the threshold's share of the total |
| ConsistentHash.ConsistentHashMap.CheckAndRebalance | src/consistent_hash/consistent_hash.cpp:182-216 | the maximum-deviation loop triggers a rebalance exactly when some node's relative deviation exceeds the threshold and there are enough requests |
| RingConcurrency.CountersConserved | src/consistent_hash/consistent_hash.cpp:132-152 | in every interleaving live counters plus discarded ones equal the total plus the Gets between their two increments, and writers see none of those |
| RingConcurrency.RingOkThroughout | src/consistent_hash/consistent_hash.cpp:83-138 | the ring invariant over every interleaving without a collision hypothesis; every overlapping Get holds a node that has a counter, so nothing is inserted under the shared lock |
| RingConcurrency.StatsSumToAtMostOneIff | src/consistent_hash/consistent_hash.cpp:140-153 | the reported ratios sum to at most one exactly when Gets between increments do not outnumber discarded counts; always when no Get is running |
| Lru.FitIsLongestPrefix | src/cache/lru.cpp:35-38 | the eviction loop leaves the longest prefix of the recency order that fits a capacity |
| Lru.EvictionConserves | src/cache/lru.cpp:56-67 | what stays followed by what went, reversed, is the list: eviction is oldest first and loses nothing |
| Lru.OversizedEntryEmpties | src/cache/lru.cpp:35-38 | storing an entry heavier than the capacity empties the cache |
| Lru.SizeCountsCharacters | src/cache/lru.cpp:21-39 | the byte size of a list is the sum of its key and value lengths |
| Lru.FindIff | src/cache/lru.cpp:8-19 | a key is found exactly with the value of its entry, and not found exactly if it has none |
| Lru.TouchMovesToFront | src/cache/lru.cpp:13-18 | a hit moves its entry to the front and leaves all others in their order |
| Lru.PutIsLongestPrefix | src/cache/lru.cpp:21-39 | storing leaves the longest fitting prefix of the new entry followed by all other entries in their order |
| Lru.PutHoldsIff | src/cache/lru.cpp:21-39 | an entry just stored is found with its value exactly if it fits; otherwise the cache is empty |
| Lru.LRUCache.Get | src/cache/lru.cpp:8-19 | finds the value and moves the entry to the front; table, list and byte counter keep agreeing |
| Lru.LRUCache.Set | src/cache/lru.cpp:21-39 | the new recency order cut to capacity, and the eviction callback called oldest first with exactly the rest |
| Lru.LRUCache.Delete | src/cache/lru.cpp:41-54 | removes the key's entry and its bytes, and calls the callback only if it was there |
| Lru.LRUCache.RemoveOldest | src/cache/lru.cpp:56-67 | drops the last entry, or does nothing on an empty list |
| LruInclusion.GetEffect | src/group/group.cpp:39-59 | a Get of a cached key answers its entry, whatever the getter says, moves it to the front and loads nothing; any other answers with one getter call and stores what there is |
| LruInclusion.SetAndDeleteEffect | src/group/group.cpp:61-103 | Set stores and Delete removes its own key and leaves all other entries in their order, without a load |
| LruInclusion.GetAfterSet | src/group/group.cpp:39-73 | a Get right after a Set answers the value set exactly if it fits, and the getter's answer otherwise |
| LruInclusion.Inclusion | src/cache/lru.cpp:8-67 | for every trace the smaller cache's recency list is a prefix of the larger one's, and the larger one calls the getter no more often |
| LruInclusion.AnswersIgnoreCapacity | src/group/group.cpp:39-59 | after any trace a Get answers what the getter would, at any capacity |
| LruInclusion.OperationKeepsInclusionIff | src/group/group.cpp:39-87 | whatever was stored before, one operation keeps inclusion except a Get of a key that only the larger cache holds, after which the smaller one is not empty and has a different entry in front |
| LruInclusion.SetCanBreakInclusion | src/group/group.cpp:61-73 | a concrete trace with a Set the getter disagrees with, after which inclusion fails |
| SingleFlight.SingleFlight.JoinOrLead | src/include/kcache/singleflight.h:24-39 | the first critical section: joins the call in the table, or inserts a new one and leads |
| SingleFlight.SingleFlight.Do | src/include/kcache/singleflight.h:23-50 | where it need not wait: a new call returns the loader's answer and leaves the table as it was, a resolved call answers without a load |
| SingleFlight.StepKeepsInv | src/include/kcache/singleflight.h:23-50 | every step of every thread keeps the protocol invariant: table entries have a working leader, erased calls were resolved, calls for one key never overlap |
| SingleFlight.EraseTakesOwnCall | src/include/kcache/singleflight.h:45-47 | a leader that is about to erase finds its own call in the table |
| SingleFlightRuns.LeaderIntervalsDisjoint | src/include/kcache/singleflight.h:36-47 | in every run a call for a key is inserted only after every earlier call for it was erased |
| SingleFlightRuns.LeaderErasesOwnCall | src/include/kcache/singleflight.h:45-47 | in every run an erase removes the leader's own call and touches no other key |
| SingleFlightRuns.ReturnedValueIsLeadersLoad | src/include/kcache/singleflight.h:26-49 | every thread returns the value its call's leader loaded, for its own key, and both calls of Do were in progress at one moment |
| SingleFlightRuns.SecondCallIff | src/include/kcache/singleflight.h:26-47 | a second call for a key is made exactly when some thread enters after one has been erased |
| SingleFlightRuns.WaiterHasWorkingLeader | src/include/kcache/singleflight.h:27-34 | whoever waits for an unresolved result has a leader that has not yet published |
| SingleFlightRuns.NeverStuck | src/include/kcache/singleflight.h:23-50 | in every reachable state with an unfinished thread some thread can take a step |
| SingleFlightRuns.RunsAreBounded | src/include/kcache/singleflight.h:23-50 | a run is at most five times as long as the number of calls begun |
| SingleFlightRuns.EnabledStays | src/include/kcache/singleflight.h:23-50 | a step one thread can take stays possible whatever other threads do |
| SingleFlightRuns.CallFinishes | src/include/kcache/singleflight.h:23-50 | even if calls begin for ever, each call has returned after at most four steps of its own thread or the leader it waits for, and until then that thread can step |
| SingleFlightRuns.MaximalRunsFinish | src/include/kcache/singleflight.h:23-50 | a run that cannot be continued has every call returned |
| CacheGroup.NarrowKeepsIff | src/include/kcache/cache.h:45-46 | the narrowed limit is the int congruent to the 64-bit one; it is unchanged exactly when that fits, and multiples of 4 GiB become 0, unlimited |
| CacheGroup.KCacheGroup.constructor | src/include/kcache/group.h:39-40 | a new group is open and empty, with the narrowed capacity |
| CacheGroup.KCacheGroup.Get | src/group/group.cpp:39-59 | a cached key answers its entry without a load, any other the getter's answer with one; closed groups and empty keys get nothing and change nothing |
| CacheGroup.KCacheGroup.Set | src/group/group.cpp:61-73 | reports success exactly on an open group and a non-empty key; then the entry is cached if it fits and the cache is empty if not |
| CacheGroup.KCacheGroup.Delete | src/group/group.cpp:75-87 | removes the key and leaves every other entry in its place, with the same refusals |
| CacheGroup.KCacheGroup.InvalidateFromPeer | src/group/group.cpp:89-103 | removes the key locally and leaves every other entry in its place, with the same refusals |
| CacheGroup.KCacheGroup.Load | src/group/group.cpp:105-125 | one getter call; the cache is filled only when there is a value |
| GroupConcurrency.CacheIsTransparent | src/group/group.cpp:39-125 | in every interleaving, at any capacity, every cached value and every answer to a non-empty key is the getter's, as long as Sets agreed with it |
| GroupConcurrency.LoadsAgainOnlyAfterLoss | src/group/group.cpp:50-58 | a Get that starts after another has answered the key goes to the loader only if the key was deleted or evicted at the step with which that other Get finished or later |
| GroupConcurrency.DeletedUntilStored | src/group/group.cpp:75-87 | whatever is stored by Sets, after a delete the key stays away until a Set or a loading Get stores it |
| GroupRaces.UninterruptedGet | src/group/group.cpp:39-125 | a Get that no thread interrupts, for a key nobody is loading, leaves the cache and answers as the sequential group does |
| GroupRaces.SecondLoadIff | src/group/group.cpp:105-125 | the getter is called twice for a key only if a thread passed the first critical section after a call for it was erased, and then it is, once nobody is about to load |
| GroupRaces.BurstCanLoadTwice | test/test_group.cpp:112-141 | for any getter, capacity and key: two Gets that both miss before anything is loaded, with two getter calls and nothing stored, deleted or evicted |
| GroupRaces.DeleteUndoneIff | src/group/group.cpp:75-111 | without a Set or a new Get of the key some continuation brings a deleted key back, exactly when a Get of it was under way, the getter knows it and its entry fits |
| GroupRaces.DeleteCanBeUndone | src/group/group.cpp:105-111 | such a run: a Get loads, the key is deleted, the Get stores it |
| Cluster.ServedAddsOnlyItsKey | src/server/server.cpp:25-71 | a served operation can add to the caches only its own key at its own address |
| Cluster.ServedAnswer | src/server/server.cpp:25-37 | an accepted Get is answered with the cached entry, or else by the getter, whose answer is then cached if it fits; right after an accepted fitting Set, with the value set |
| Cluster.EqualReplicasAgree | src/client/client_sdk.cpp:217-230 | clients whose rings are complete and have equal replica counts route every key alike |
| Cluster.CallKeepsOwnership | src/client/client_sdk.cpp:25-136 | one Get, Set or Delete by any agreeing client keeps every cached key at its owner |
| Cluster.KeysOnlyCachedAtOwner | src/client/client_sdk.cpp:25-136 | with fixed members and such rings, after any calls by any clients over a lossy network a key is cached only at its owner |
| Client.ParseAddrIff | src/client/client_sdk.cpp:209-215 | the key "/services/", service, slash, address yields that address, and any other key yields nothing |
| Client.ParseAddrInjective | src/client/client_sdk.cpp:209-215 | different registry keys never yield the same address |
| Client.MembershipIsLastWord | src/client/client_sdk.cpp:152-187 | an address is a member exactly when the last event about its registry key was a PUT, or there was none and it was one before |
| Client.KCacheClient.HandleWatchEvents | src/client/client_sdk.cpp:152-187 | the members become what the events say, and stay equal to the node set of a valid ring with balancer runs in between |
| Client.KCacheClient.FetchAllServices | src/client/client_sdk.cpp:189-207 | after the initial fetch an address is a member exactly when its registry key was listed, and the ring agrees |
| Client.KCacheClient.GetCacheNode | src/client/client_sdk.cpp:217-230 | the empty string exactly when there is no member, otherwise a member: the ring's owner unless the key is empty or the ring has no points |
| Client.KCacheClient.Get | src/client/client_sdk.cpp:25-56 | asks the ring's owner, returns its cached value or what its getter loaded, without losses whenever it is accepted, and has exactly the effect of the cluster's Get call or none |
| Client.KCacheClient.Set | src/client/client_sdk.cpp:58-107 | goes to the ring's owner; when it returns true no other member holds the key, and the owner holds the new value if it holds the key at all; without losses it returns true exactly when every member has the group open and the key is not empty; its effect is that of the cluster's Set call or none |
| Client.KCacheClient.Delete | src/client/client_sdk.cpp:109-136 | when it returns true no member holds the key; without losses it returns true exactly when there are members and each has the group open and the key is not empty; its effect is that of the cluster's Delete call |
| Client.SetAndInvalidate | src/client/client_sdk.cpp:66-106 | the write at the target and the broadcast to the others: what holds on success, when a lossless network makes it succeed, and its whole effect |
| Client.DropAll | src/client/client_sdk.cpp:88-104 | the broadcast reports success only if every listed server dropped the key, without losses exactly if each accepts it, and leaves out no accepting server that held the key; its effect is that of the calls that arrived |
| Pdu.LE32Bytes | Server/protocol.h:48-54 | a header word is stored lowest byte first |
| Pdu.LE64Words | Server/msghandler.cpp:327 | a qint64 is stored low word first, in two's complement |
| Pdu.PrintLayout | Server/protocol.h:48-54 | which bytes of a transmitted unit are which field |
| Pdu.RoundTrip32 | Server/protocol.h:48-54 | a little-endian header word reads back as written |
| Pdu.RoundTrip64 | Server/msghandler.cpp:327 | a qint64 in the parameter area reads back as written, negative ones included |
| Pdu.ViewOfPrint | Server/protocol.h:48-54 | a unit read through a PDU pointer is the unit that was sent, whatever bytes follow |
| Pdu.MkPdu | Server/protocol.cpp:6-18 | a zeroed buffer with the three header words in place, total length 76 plus the message length as a `uint`; without wrap-around, the printed blank unit |
| Reassembly.LeftoverIsIncomplete | Server/mytcpsocket.cpp:113-122 | what stays in the buffer is an incomplete unit, or a unit that the loop cannot step over |
| Reassembly.SplitOfPrinted | Server/mytcpsocket.cpp:113-122 | printed units come back all and in order, and an incomplete remainder is kept |
| Reassembly.SplitAppend | Server/mytcpsocket.cpp:109-122 | on arbitrary bytes, handling a first piece and then a second handles what the whole would |
| Reassembly.FragmentsDoNotMatter | Server/mytcpsocket.cpp:105-123 | handling fragment by fragment equals handling the concatenation at once |
| Reassembly.PrintedUnitsArrive | Server/mytcpsocket.cpp:105-123 | every fragmentation of well-formed units is handled completely, in order, without getting stuck |
| Reassembly.LoopEndsIff | Server/mytcpsocket.cpp:113-122 | the loop ends exactly when none of its iterations stands before a unit whose length is zero or negative as an int |
| Reassembly.ZeroHeaderNeverEnds | Server/mytcpsocket.cpp:113-122 | 76 zero bytes keep the loop busy for ever |
| Upload.InitAnnouncesSize | Server/msghandler.cpp:320-336 | an announcement sets the size it carries, for any 64-bit value, resets the count, and opens and truncates or not as it answers |
| Upload.UploadUnitsLayout | Server/msghandler.cpp:324-327 | where an announcement carries name, size and directory, and what a data unit carries |
| Upload.OtherRequestsLeaveUpload | Server/mytcpsocket.cpp:47-97 | the sixteen other requests get their handler's answer and any other type gets none; none of them touches the upload |
| Upload.RespondBytes | Server/msghandler.cpp:332-335 | a response is a bare header of its type whose first parameter byte is the truth value |
| Upload.RestOfUpload | Server/msghandler.cpp:338-352 | from any point in the middle of an upload, other requests in between: the missing chunks are written in order if the file is open, it is closed, and they are answered once, at the last, with success |
| Upload.AnswersFollowSize | Server/msghandler.cpp:338-352 | for any announced size and any upload data: no answer while the bytes so far fall short of the size, then an answer to the unit that reaches it and to each later one, success exactly where the bytes so far are the size |
| Upload.AnsweredWithSuccessIff | Server/msghandler.cpp:341-351 | the chunks are answered once, at the last, with success, exactly when their bytes complete the announced size |
| Upload.WrittenUntilReached | Server/msghandler.cpp:338-347 | the open file receives the chunks up to the one that reaches the announced size, and is closed with it; short of the size it stays open |
| Upload.MyTcpSocket.SendMsg | Server/mytcpsocket.cpp:11-25 | writes the response's bytes, or nothing |
| Upload.MyTcpSocket.RecvMsg | Server/mytcpsocket.cpp:105-123 | appends the fragment, handles and answers every complete unit in order, keeps the rest |
| Upload.SessionHandlesReassembledUnits | Server/mytcpsocket.cpp:105-123 | over any fragments a connection handles and answers exactly the reassembled units |
| Upload.UploadArrives | Server/msghandler.cpp:320-352 | end to end: a non-empty file in chunks of 1 to 40960 bytes, mixed with any other requests and fragmented anyhow, is written whole if it could be opened; the handler's answers to the stream are the ones written back, and those to its chunks are one, at the last, with success |
| Upload.ClientsFileArrives | Client/uploader.cpp:17-46 | client and server together: what the client sends for a non-empty file, after an accepted announcement and cut in any way, leaves that file on the server, closed, and exactly two answers, both success |
| Upload.SentIsPrinted | Client/uploader.cpp:24-43 | what the client sends is the printed form of the units that carry its chunks in order |
| Upload.FragmentsAreAccepted | Server/mytcpsocket.cpp:105-123 | on such a connection each fragment finds the receive loop's preconditions met |
| Upload.UploadCompletesIff | Server/msghandler.cpp:338-352 | the upload is answered and the file closed exactly when the file is not empty |
| Upload.UploadFile | Client/uploader.cpp:17-46 | fails exactly if the file does not open or the read after the last unit sent fails; each earlier read becomes one unit of 1 to 40960 bytes, in order, and without a failure they carry the whole file |
| Upload.FillChunk | Client/uploader.cpp:30-42 | after the read and the two corrected lengths, the transmitted bytes are the chunk's unit |

## Left out

- Round: load ratios are exact reals; the rounding error of double division is not modelled.
- CountersConserved: counters are unbounded; the wrap-around of 64-bit counters is not modelled.
- CheckAndRebalance: runs with no other call between its check and its action; the step system instead lets the balancer act at any moment.
- StatsSumToAtMostOneIff: speaks of the counters at one moment, not of a GetStats that reads them one by one while Gets run.
- MkPdu: a message length that makes the 32-bit total wrap around to less than twelve bytes is excluded, because the code then writes outside its buffer.
- RecvMsg: requires that the loop ends and that upload data is at least as long as it says, because the handler would read beyond the unit.
- Do: never waits; a thread that joins an unresolved call is the step system's Joined phase.
- ClientsFileArrives: a client whose read fails part of the way stops sending; what the server then holds is not stated.
- LRUCache: `std::list` is a sequence of nodes with identities; the doubly linked cells are not modelled.
- SingleFlight: loaders that throw or re-enter `Do` for the same key.
- The handlers for accounts, friends, chat, directories and file sharing: their answers are an arbitrary stream; the database and file system behind them are foreign.
- Failing or partial writes to an open upload file, and the path that an upload is stored under.
- The client application's own receive loop, whose dialogs can re-enter it, and all user interface.
- Balancer timing, etcd leases and keep-alive, gRPC channels, server start and stop.
- Group statistics, the global table of groups, and moving groups: easy members only.
- Freshness against a data source that changes: the cache does not provide it.

# fast-socket: verified models

Dafny models of a zero-copy UDP/IP socket stack, and proofs about them. `dafny verify dfyconfig.toml` checks the whole project.

What is modelled, in dependency order:

- **Rings** (`Bits`, `Ring`, `RingProtocol`, `RingDelivery`, `RawSocket`). AF_XDP rings with cached 32-bit cursors. Code-level cursors are related to unbounded counts, and a two-party state machine interleaves reserve, write and commit with sync, read and release.
- **UMEM frames** (`Umem`, `FrameReclaim`, `FrameProtocol`, `FrameInvariant`, `FrameRuns`, `FrameBounds`, `FrameMigration`, `FrameOverflow`, `FrameEffects`, `SocketState`). Every place a frame can be, every step that moves one, for one socket and for N members sharing a UMEM. The kernel is lawful: it returns only frames it was given, each once, and receive descriptors stay inside FILL frames. `SocketState` holds the owner's loops, proved against the protocol's steps.
- **Longest-prefix match** (`BinaryTrie`, `PoptrieBuilder`, `PoptrieTable`, `PoptrieSize`, `PoptrieEmitter`, `Poptrie`). Builder, emission of the compressed arrays, their exact size, and the search, for every key width and direct width that the builder accepts.
- **Routes** (`Egress`, `Routes`, `RouteSnapshot`, `RouteHistory`). Facts, sorting, both derived indexes and the folded lookup, on top of the real longest-prefix table; the facts told from the updates, and the answers told from the facts.
- **Headers** (`Checksum`, `Headers`, `Parser`, `WireFormat`). Writing, incremental patching and parsing of Ethernet, IPv4 and UDP headers (RFC 791 section 3.1, RFC 768, RFC 1071, RFC 1624 section 3, RFC 3168 section 5), in userspace and in the eBPF filter.
- **Prepared endpoints** (`Endpoint`, `EndpointPackets`, `EndpointRuns`, `EndpointBatch`, `EndpointBatchWire`). Cached headers, their refresh on route updates, the direct batch path, and what a receiver reads from the submitted bytes.
- **Batches, actor, pools** (`Batch`, `OsSend`, `OsRecv`, `Actor`, `ActorRuns`, `ActorHistory`, `OsPool`). Sockets and kernels answer from arbitrary finite scripts, and contracts say which answers a call used up and what each did. Concurrent parts are state machines over atomic steps.
- **Ports, workers, aggregates** (`Program`, `Factory`, `Aggregate`).

Two claims in the source are false as written. The models keep the code and state exactly when the claims hold:

- A comment says that completion reclaim always has free-list capacity because frames came from that list (`crates/fast-socket-xdp-rs/src/socket.rs:477-478`). Members that share a UMEM may send each other's buffers, and then it does not. `FrameOverflow.SafePoliciesAreHomePolicies` shows that sending every buffer through its home member is the one policy under which it does.
- The incremental checksum folds once (`crates/fast-socket-xdp-rs/src/socket.rs:3325-3329`). It differs from recomputation exactly when the three-term sum is 0x1FFFF. `Headers.CarryExample` gives a header the code writes and then patches wrongly, `Headers.PatchChainIsFresh` says for every chain of patches whether it ends in the right header, and `EndpointRuns.Run` says for every run which packets are affected.

Reading conventions: `hide` statements in proofs only keep definitions out of a proof that does not need them. Panics of the code are results (`TooManyNodes`, `ok == false`) or preconditions stated next to the operation.

## Model

| member | source | states |
|---|---|---|
| `Ring.WordDistance` | crates/fast-socket-xdp-rs/src/ring.rs:169-234 | for counts less than 2^32 apart the wrapping difference of the two index words is the true difference |
| `Ring.AvailableIsRoom` | crates/fast-socket-xdp-rs/src/ring.rs:218-221 | the producer's available count is the ring size minus the true number of entries in flight, across index wrap |
| `Ring.SlotOfWord` | crates/fast-socket-xdp-rs/src/ring.rs:180-207 | masking the wrapped 32-bit index gives the slot of the unbounded count, for every power-of-two size |
| `RingProtocol.ProduceManyExact` | crates/fast-socket-xdp-rs/src/ring.rs:193-208 | on true counts: reserves exactly the smaller of what was asked and the room seen, and in flight never exceeds the size |
| `RingProtocol.ConsumeManyExact` | crates/fast-socket-xdp-rs/src/ring.rs:276-292 | on true counts: takes exactly the smaller of what was asked and what was published |
| `RingProtocol.WriteHitsFreeSlot` | crates/fast-socket-xdp-rs/src/raw_socket.rs:419-442 | a reserved slot is never the slot of an entry the consumer has not released |
| `RingProtocol.ReadIsNextInput` | crates/fast-socket-xdp-rs/src/ring.rs:263-292 | the slot a consumer reads next holds the next item of the producer's input |
| `RingProtocol.StepKeepsInv` | crates/fast-socket-xdp-rs/src/ring.rs:155-305 | every step of either side keeps cursors, words and slots consistent |
| `RingProtocol.RunDeliversInOrder` | crates/fast-socket-xdp-rs/src/ring.rs:155-305 | every interleaving, every power-of-two size, across 2^32 wrap: the consumer's output is a prefix of the producer's input, and in flight never exceeds the size |
| `RingProtocol.SeenRoomIsNotLost` | crates/fast-socket-xdp-rs/src/raw_socket.rs:568-599 | room the producer has seen stays available whatever the consumer does meanwhile |
| `RingDelivery.ReservesTrueRoom` | crates/fast-socket-xdp-rs/src/ring.rs:193-208 | a reservation takes what was wanted or all the room there truly is, counted with what the consumer released, however stale the cached position was |
| `RingDelivery.ReservesOneIfRoom` | crates/fast-socket-xdp-rs/src/ring.rs:180-190 | one slot exactly when there truly is room |
| `RingDelivery.TakesAllPublished` | crates/fast-socket-xdp-rs/src/ring.rs:276-292 | a consumer takes what was wanted or everything published |
| `RingDelivery.TakesOneIfPublished` | crates/fast-socket-xdp-rs/src/ring.rs:263-273 | one entry exactly when one is published |
| `RingDelivery.BatchesDelivered` | crates/fast-socket-xdp-rs/src/ring.rs:155-305 | from a fresh ring any number of batches, each no larger than the ring, arrives whole and in order, however often the index words wrap |
| `RawSocket.CopySliceToRing` | crates/fast-socket-xdp-rs/src/raw_socket.rs:688-702 | copying in chunks clipped at the ring boundary equals writing element by element to successive slots |
| `RawSocket.CopyRingToVec` | crates/fast-socket-xdp-rs/src/raw_socket.rs:704-729 | chunked reading equals element-by-element reading |
| `RawSocket.ProducerRing.EnqueueBatch` | crates/fast-socket-xdp-rs/src/raw_socket.rs:568-588 | stages the longest prefix that fits; a batch within the room already seen is staged whole |
| `RawSocket.ProducerRing.TxAvailable` | crates/fast-socket-xdp-rs/src/raw_socket.rs:596-599 | the free slots after a refresh are exactly the room in the ring |
| `RawSocket.ProducerRing.ReplenishBatch` | crates/fast-socket-xdp-rs/src/raw_socket.rs:446-467 | writes and publishes the longest prefix that fits, for slices of any length |
| `RawSocket.ConsumerRing.Drain` | crates/fast-socket-xdp-rs/src/raw_socket.rs:532-548 | appends exactly the next published descriptors, bounded by the request, whatever its size, and the spare capacity |
| `RawSocket.ConsumerRing.DrainSlices` | crates/fast-socket-xdp-rs/src/raw_socket.rs:497-529 | the two slices together are the reserved range in order; the second is empty unless the range wraps |
| `RawSocket.BatchCopyIsWriteSteps` | crates/fast-socket-xdp-rs/src/raw_socket.rs:688-702 | a batch copy is a run of single-slot write steps of the ring protocol |
| `RawSocket.BatchReadIsInput` | crates/fast-socket-xdp-rs/src/raw_socket.rs:704-729 | a batch read of entries not yet released gives the producer's input, in order, whatever the index words are |
| `Umem.SharedMaskClassifies` | crates/fast-socket-xdp-rs/src/socket.rs:380-424 | for every accepted size the member mask classifies a frame by its index within its slice, accepts exactly the active frames and rejects the slack |
| `Umem.LocalSplitClassifies` | crates/fast-socket-xdp-rs/src/socket.rs:426-447 | the single-socket comparison agrees with the index rule |
| `Umem.FrameBaseOfByte` | crates/fast-socket-xdp-rs/src/umem.rs:436-446 | every byte of a frame rounds down to that frame |
| `FrameReclaim.PopManyConserves` | crates/fast-socket-xdp-rs/src/buffer.rs:468-484 | popping loses and duplicates no frame and gets as many as free list and remote queue hold together |
| `FrameReclaim.Reclaim.constructor` | crates/fast-socket-xdp-rs/src/buffer.rs:435-453 | a fresh pool with its frames free, room for them, and a remote queue of at least one entry |
| `FrameReclaim.Reclaim.DrainRemote` | crates/fast-socket-xdp-rs/src/buffer.rs:587-604 | moves the queue behind the free list, oldest first |
| `FrameReclaim.Reclaim.PopMany` | crates/fast-socket-xdp-rs/src/buffer.rs:468-484 | takes the last freed frames first, draining the queue only when the free list is too short |
| `FrameReclaim.Reclaim.Push` | crates/fast-socket-xdp-rs/src/buffer.rs:511-519 | owner pushes go to the free list, other threads' to the queue |
| `FrameReclaim.Reclaim.DrainInto` | crates/fast-socket-xdp-rs/src/buffer.rs:544-549 | hands out free list then queue and leaves both empty |
| `FrameEffects.PopsLastFreed` | crates/fast-socket-xdp-rs/src/buffer.rs:468-484 | what is popped: the last freed first, from the free list or, when it is too short, from the free list followed by the queue; what stays |
| `FrameEffects.PushThenPop` | crates/fast-socket-xdp-rs/src/buffer.rs:468-533 | a frame pushed by the owner is the next one popped, and the pool is as before |
| `FrameReclaim.ReclaimAllSplits` | crates/fast-socket-xdp-rs/src/socket.rs:427-502 | with no rejected completion each list gains exactly the completed frames of its class, in order |
| `FrameReclaim.ReclaimAllAccepts` | crates/fast-socket-xdp-rs/src/socket.rs:427-502 | each list gains the frames of its class ahead of the first rejected completion, and the loop fails exactly when there is one |
| `FrameReclaim.ReclaimCompletions` | crates/fast-socket-xdp-rs/src/socket.rs:427-514 | the reclaim loop with its unchecked pushes, which stay within capacity when the final lists fit |
| `FrameInvariant.ReceiveConserves` | crates/fast-socket-xdp-rs/src/socket.rs:1641-1710 | the receive loop loses and duplicates no frame, on the malformed-descriptor path too |
| `FrameInvariant.DrainEffect` | crates/fast-socket-xdp-rs/src/socket.rs:1095-1179 | a drain rejects nothing, moves each completed frame to the list of its class and lowers the in-flight count by exactly the number drained |
| `FrameInvariant.StepKeepsInv` | crates/fast-socket-xdp-rs/src/socket.rs:873-1231 | every step of owner, other threads and kernel keeps one place per frame, classes apart and the counter exact; only frames long enough to parse are delivered |
| `FrameEffects.RefillExact` | crates/fast-socket-xdp-rs/src/socket.rs:873-902 | a refill of a ring that is not overfull appends the first frames of free list and queue, exactly as many as there are and fit, behind the old entries; the queue ends empty, the free list is the rest, and it is empty unless the FILL ring is full |
| `FrameEffects.EveryRefillIsExact` | crates/fast-socket-xdp-rs/src/socket.rs:873-902 | in every run of opened sockets no FILL ring is overfilled, so every refill has that effect |
| `FrameEffects.ReceiveExact` | crates/fast-socket-xdp-rs/src/socket.rs:1641-1710 | up to the first descriptor that leaves its frame, the delivered frames become live buffers and the others join the free list, both in ring order; from there on all frames join the free list; it fails exactly when there is such a descriptor |
| `FrameEffects.RecvExact` | crates/fast-socket-xdp-rs/src/socket.rs:1641-1710 | a whole receive call: the FILL ring is not overfilled, the descriptors leave the RX ring, the kernel got the oldest entries, and after a success that took something the RX pool is empty or the FILL ring full |
| `FrameEffects.DeliverableIff` | crates/fast-socket-xdp-rs/src/buffer.rs:687-714 | the protocol lets a descriptor be delivered exactly when some contents of its length, with or without an 802.1Q tag, would be |
| `FrameEffects.DropExact` | crates/fast-socket-xdp-rs/src/buffer.rs:511-519 | a dropped buffer's frame goes to the end of the free list of the pool it came from on the owner's thread, to its queue on any other, and nothing else changes |
| `FrameEffects.AllocateExact` | crates/fast-socket-xdp-rs/src/socket.rs:1198-1231 | as many buffers as asked for or as the pool has, last freed first; nothing else changes |
| `FrameEffects.SendBufferExact` | crates/fast-socket-xdp-rs/src/socket.rs:1494-1577 | the descriptor joins the TX ring, points into the buffer's frame, is counted, and the buffer is gone |
| `FrameEffects.SendEndpointExact` | crates/fast-socket-xdp-rs/src/buffer.rs:834-972 | one descriptor per popped frame, at the header offset, all counted; the live buffers are untouched |
| `FrameEffects.EndpointFailsExact` | crates/fast-socket-xdp-rs/src/buffer.rs:834-972 | a failing endpoint batch leaves every frame in the pool; the queue joins the free list exactly when the free list is too short |
| `FrameEffects.OpenedInHalves` | crates/fast-socket-xdp-rs/src/socket.rs:557-871 | each member opens with the first half of its slice in the FILL ring and the second half free for TX, in address order |
| `FrameRuns.OpenedInv` | crates/fast-socket-xdp-rs/src/socket.rs:557-871 | freshly opened sockets satisfy the ownership invariant, in both layouts and for every accepted size |
| `FrameRuns.FrameFacts` | crates/fast-socket-xdp-rs/src/socket.rs:692-871 | class, acceptance, alignment and home member of every active frame |
| `FrameRuns.EachFrameInOnePlace` | crates/fast-socket-xdp-rs/src/socket.rs:1479-1710 | every run, one socket or N members, migration included: each active frame is in exactly one place, RX structures hold only RX-class frames, TX pools only TX-class ones, and in-flight counters are exact |
| `FrameBounds.LocalDrainsFit` | crates/fast-socket-xdp-rs/src/socket.rs:427-447 | one socket, every run, every drain size: the unchecked completion pushes stay within the lists' initial capacities |
| `FrameBounds.HomeDrainFits` | crates/fast-socket-xdp-rs/src/socket.rs:449-502 | the same for a member that only holds frames of its own slice |
| `FrameBounds.RemoteQueuesNeverOverflow` | crates/fast-socket-xdp-rs/src/buffer.rs:575-581 | every run, both layouts: a buffer dropped on another thread finds room in its pool's remote queue |
| `FrameBounds.StepCounts` | crates/fast-socket-xdp-rs/src/socket.rs:1168-1179 | a drain never takes more than is in flight, so the saturating subtraction never saturates |
| `FrameBounds.InFlightIsExact` | crates/fast-socket-xdp-rs/src/socket.rs:1095-1179 | in every run the in-flight counter is descriptors submitted minus completions drained |
| `FrameMigration.HomePolicyIsSafe` | crates/fast-socket-xdp-rs/src/socket.rs:473-502 | if every buffer is sent through its home member, every drain of every run fits |
| `FrameOverflow.SafePoliciesAreHomePolicies` | crates/fast-socket-xdp-rs/src/socket.rs:473-502 | a sending policy keeps all unchecked pushes within the initial capacities in every run if and only if it sends each buffer only through the member its frame belongs to; the overflowing run receives and sends real packets, one ring entry at a time |
| `FrameOverflow.FreeMigrationIsUnsafe` | crates/fast-socket-xdp-rs/src/socket.rs:677-690 | letting any member send any buffer breaks the capacity claim as soon as there are two members |
| `SocketState.LiveXdpState.constructor` | crates/fast-socket-xdp-rs/src/socket.rs:557-675 | RX frames prefill the FILL ring, TX frames are free, nothing is in flight |
| `SocketState.LiveXdpState.ReplenishFill` | crates/fast-socket-xdp-rs/src/socket.rs:873-902 | the refill step, with the effect of `FrameEffects.RefillExact` on the fields |
| `SocketState.LiveXdpState.DrainTxCompletions` | crates/fast-socket-xdp-rs/src/socket.rs:1095-1179 | the two-slice drain equals the one-pass drain step, error path included; the lists need room for what it pushes |
| `SocketState.LiveXdpState.AllocateTxBatch` | crates/fast-socket-xdp-rs/src/socket.rs:1198-1231 | fails exactly when it drains and a completion is out of range; otherwise gets as many frames as TX pool and TX-class completions hold together; loses none, of either class; drains when the in-flight and interval thresholds are reached, and not when they are not and the pool suffices; and is a run of the frame protocol's allocate and drain steps |
| `SocketState.LiveXdpState.RecvFrames` | crates/fast-socket-xdp-rs/src/socket.rs:1641-1710 | the descriptor loop with replenish before and after is the receive step of the frame protocol, with any number of FILL entries taken by the kernel meanwhile; it succeeds exactly when every descriptor lies in one frame, and then hands out exactly the accepted frames in ring order and leaves the RX pool empty or the FILL ring full |
| `SocketState.LiveXdpState.ReclaimRxDescs` | crates/fast-socket-xdp-rs/src/socket.rs:3923-3937 | every frame inside the UMEM goes back to the pool |
| `SocketState.SubmitReserved` | crates/fast-socket-xdp-rs/src/socket.rs:1494-1577 | descriptors prepared within the reported TX room are all accepted, so the short-accept assertion cannot fire |
| `PoptrieBuilder.Builder.Insert` | crates/poptrie/src/build.rs:84-108 | the route map gains or replaces exactly this prefix; lower bits are ignored and too long a prefix is refused |
| `PoptrieBuilder.Builder.Intern` | crates/poptrie/src/build.rs:111-119 | equal values share one number; the routes represented do not change |
| `PoptrieBuilder.CompactLiveValues` | crates/poptrie/src/build.rs:123-142 | every node keeps its value, every value left in the table is some node's, and different values stay different |
| `BinaryTrie.BinLpmIsLongest` | crates/poptrie/src/build.rs:221-227 | following a key with inherited values yields the value of its longest stored prefix |
| `PoptrieTable.SlotSplitsLookup` | crates/poptrie/src/build.rs:355-383 | resolving the first bits to a slot and then the rest is following all of them |
| `PoptrieTable.RepFrame` | crates/poptrie/src/build.rs:307-351 | a represented subtree depends only on its own node range and on leaves already written |
| `PoptrieSize.ResolvedEmit` | crates/poptrie/src/build.rs:310-351 | the children of a stride account for all nodes written below it |
| `PoptrieSize.EmittedPerBoundary` | crates/poptrie/src/build.rs:250-351 | nodes written subtree by subtree are the branching trie nodes counted boundary by boundary |
| `PoptrieSize.BranchingIsCrossed` | crates/poptrie/src/build.rs:84-108 | the branching trie nodes of a depth are the prefixes of that length that some longer inserted route crosses |
| `PoptrieSize.LiveValues` | crates/poptrie/src/build.rs:123-142 | the values kept are as many as the distinct values of the inserted routes |
| `PoptrieSize.TrieSize` | crates/poptrie/src/build.rs:84-108 | the binary trie has exactly one node per prefix on the way to an inserted route |
| `PoptrieEmitter.ResolveStride` | crates/poptrie/src/build.rs:355-383 | fills the 64 slots of a stride in place with what the trie resolves them to |
| `PoptrieEmitter.EncodeSlots` | crates/poptrie/src/build.rs:313-335 | two bitmaps, children in slot order and one leaf per run encode every slot |
| `PoptrieEmitter.Emitter.Fill` | crates/poptrie/src/build.rs:310-351 | writes one reserved node and its subtree, changes no other node, the node then represents its trie node, and the number of nodes appended is exact |
| `PoptrieEmitter.Emitter.FillDirect` | crates/poptrie/src/build.rs:250-296 | every direct entry below the pattern answers for what its top bits resolve to, with the exact number of nodes appended |
| `Poptrie.Build` | crates/poptrie/src/build.rs:151-197 | the routes and widths alone decide between success and each of the three panics; a built table represents exactly the inserted routes, with as many values as the routes have and one node per crossed stride boundary; the trie has one node per prefix on the way to a route |
| `Poptrie.FewInsertionsFit` | crates/poptrie/src/build.rs:166-183 | fewer insertions than 2^31 - 1 divided by the number of strides never panic, and fewer still, by key width and leaves per node, keep every cast length within 32 bits, for every key width |
| `Poptrie.Lookup` | crates/poptrie/src/lib.rs:208-253 | every unchecked index is in bounds and the result is the longest-prefix match |
| `Poptrie.StrideOfKey` | crates/poptrie/src/lib.rs:123-130 | shift and mask at an offset extract the next six key bits |
| `Poptrie.MaskedMatch` | crates/poptrie/src/lib.rs:456-469 | comparing under the prefix mask compares the first bits |
| `Poptrie.ReferenceLpm` | crates/poptrie/benches/lookup.rs:66-82 | the exhaustive scan computes the longest-prefix match, the later of equal prefixes winning |
| `Poptrie.LpmIsLongestLast` | crates/poptrie/src/lib.rs:200-253 | longest-prefix match told from the list of insertions: the value of the longest one whose first bits agree with the key, the later of equal ones, and none exactly when none agrees |
| `Poptrie.InsertBuildLookup` | crates/poptrie/src/lib.rs:200-253 | for all insertion lists and keys: refused exactly when the routes cannot be addressed with 31 bits, otherwise insert, build and look up gives the value of the longest insertion that covers the key, the later of equal ones, and none when no insertion does; the vector lengths on the way, which fit their 32-bit casts under `CastsFit` |
| `Routes.StableSortSorts` | crates/fast-socket-xdp-rs/src/route.rs:232-239 | sorting permutes, orders by prefix length then priority, and keeps the order of equal routes |
| `Routes.LpmIsFirstMatch` | crates/fast-socket-xdp-rs/src/route.rs:408-428 | longest-prefix match over routes inserted last to first is the first match in table order |
| `Routes.SearchMeans` | crates/fast-socket-xdp-rs/src/route.rs:285-319 | on the facts alone: the answer is the header to the next hop of the longest, then lowest-priority, then first covering route, from this interface, IPv4, with the smaller MTU, if the route is the interface's or its bond master's and the next hop is known there or on the route's interface; otherwise none |
| `Routes.NoWayOutIff` | crates/fast-socket-xdp-rs/src/route.rs:285-319 | there is no answer exactly when no route covers the address, the interface is unknown, the best route does not leave through it, or the next hop has no entry |
| `Routes.OneHeader` | crates/fast-socket-xdp-rs/src/route.rs:285-319 | the facts determine the header and the MTU |
| `RouteSnapshot.RebuildRouteIndex` | crates/fast-socket-xdp-rs/src/route.rs:408-428 | panics exactly when the prefixes do not fit the table; otherwise the index answers for the sorted table, an earlier route of a prefix winning |
| `RouteSnapshot.FoldInterface` | crates/fast-socket-xdp-rs/src/route.rs:455-506 | one slot per route says none, on-link or a prebuilt egress, which is right exactly when the distinct egresses number at most 2^32 - 2; an omitted interface has nothing to offer |
| `RouteSnapshot.RebuildEgressIndex` | crates/fast-socket-xdp-rs/src/route.rs:439-509 | every interface is folded, in any iteration order, rightly exactly when the egresses of each can be numbered |
| `RouteSnapshot.Snapshot.UpsertRoute` | crates/fast-socket-xdp-rs/src/route.rs:192-197 | replaces the same route or appends it, re-sorts, and rebuilds both indexes; panics exactly when the prefixes do not fit |
| `RouteSnapshot.Snapshot.UpsertRoutes` | crates/fast-socket-xdp-rs/src/route.rs:203-217 | all updates first, then one sort and one rebuild; nothing for no routes; panics exactly when the prefixes do not fit |
| `RouteSnapshot.Snapshot.UpsertNeighbor` | crates/fast-socket-xdp-rs/src/route.rs:242-245 | keeps both indexes in step with the new neighbour |
| `RouteSnapshot.Snapshot.UpsertInterface` | crates/fast-socket-xdp-rs/src/route.rs:248-251 | keeps both indexes in step with the new interface facts |
| `RouteSnapshot.Snapshot.LookupRouteIndex` | crates/fast-socket-xdp-rs/src/route.rs:393-398 | the first matching route in table order |
| `RouteSnapshot.Snapshot.ResolvedForInterface` | crates/fast-socket-xdp-rs/src/route.rs:285-319 | the folded lookup is the plain search with the queue stamped, and so gives the header bytes, MTU and refusals that `Routes.SearchMeans` tells from the facts |
| `RouteSnapshot.Snapshot.ResolveL2ForInterface` | crates/fast-socket-xdp-rs/src/route.rs:331-388 | the header bytes that the facts determine and the smallest MTU of caller, route and interface; none exactly when there is no way out |
| `RouteSnapshot.UpdateThenResolve` | crates/fast-socket-xdp-rs/src/route.rs:192-319 | after any sequence of updates whose states can be indexed, the folded lookup answers every destination, interface and queue as the facts determine |
| `RouteHistory.RoutesAreLastGiven` | crates/fast-socket-xdp-rs/src/route.rs:192-239 | after any updates the table holds exactly the routes given last for their destination, length, interface and gateway, each once |
| `RouteHistory.NeighborIsLastGiven` | crates/fast-socket-xdp-rs/src/route.rs:242-245 | after any updates a neighbour has the MAC given last, and one never given is absent |
| `RouteHistory.InterfaceIsLastGiven` | crates/fast-socket-xdp-rs/src/route.rs:248-251 | after any updates an interface is as given last, and one never given is absent |
| `RouteHistory.UpdatedFactsOk` | crates/fast-socket-xdp-rs/src/route.rs:192-251 | after any updates the table is sorted and interfaces are under their own index |
| `RouteSnapshot.FewUpdatesIndexable` | crates/fast-socket-xdp-rs/src/route.rs:192-251 | updates that add fewer than (2^31 - 1) / 3 routes in all can be indexed at every step |
| `Egress.WriteEthernetHeader` | crates/fast-socket-xdp-rs/src/egress.rs:193-206 | the slice copies produce destination, source, optional VLAN tag and ethertype |
| `Egress.WithQueueOfFrom` | crates/fast-socket-xdp-rs/src/egress.rs:123-126 | stamping a queue commutes with building the header |
| `Checksum.HeaderChecksum` | crates/fast-socket-xdp-rs/src/socket.rs:3717-3729 | complement of the one's-complement sum, after folding to the end |
| `Checksum.ReplaceWordExact` | crates/fast-socket-xdp-rs/src/socket.rs:3325-3329 | the single-fold update equals recomputation if and only if the three-term sum is not 0x1FFFF |
| `Headers.WriteIpv4UdpHeaders` | crates/fast-socket-xdp-rs/src/socket.rs:3696-3715 | the bytes written into any buffer, which are the header of the fields exactly when the identification bytes were zero and the checksum field zero or all ones |
| `Headers.WrittenHeaderVerifies` | crates/fast-socket-xdp-rs/src/socket.rs:3696-3729 | the checksum over a written header, checksum included, is zero |
| `Headers.PatchHeaderLengths` | crates/fast-socket-xdp-rs/src/socket.rs:3290-3311 | patches the two lengths and the checksum in place, refusing lengths beyond 16 bits |
| `Headers.PatchIsFresh` | crates/fast-socket-xdp-rs/src/socket.rs:3290-3329 | patching a template gives the freshly written header if and only if the carry case is not met |
| `Headers.CarryExample` | crates/fast-socket-xdp-rs/src/socket.rs:3325-3329 | a header with source 119.7.0.0 and TTL 64 whose patch from 0 to 972 payload bytes stores 0xFFFF where a fresh header has 0xFFFE |
| `Headers.PatchChainIsFresh` | crates/fast-socket-xdp-rs/src/socket.rs:3277-3311 | a chain of patches ends in the fresh header of its last length if and only if its carry cases number a multiple of 65535 and the last patch is none of them |
| `Headers.CleanChainIsRight` | crates/fast-socket-xdp-rs/src/socket.rs:3277-3329 | a chain whose consecutive lengths avoid the carry case ends right, and below 65535 patches only such a chain does |
| `Headers.PatchChainVerifies` | crates/fast-socket-xdp-rs/src/socket.rs:3277-3311 | a receiver accepts the header at the end of a chain of patches if and only if its carry cases number a multiple of 65535 |
| `Headers.ShortChainIsFresh` | crates/fast-socket-xdp-rs/src/socket.rs:3277-3311 | fewer than 65535 patches end in the fresh header if and only if none of them met the carry case |
| `Parser.ParseIpv4Udp` | crates/fast-socket-xdp-rs/src/socket.rs:3616-3658 | a parsed payload range lies inside the datagram and the packet; `WireFormat.ParseIpv4UdpExact` says the whole answer |
| `Parser.BuildThenParse` | crates/fast-socket-xdp-rs/src/socket.rs:3616-3748 | building and parsing a frame is the identity on all fields and the payload, with or without VLAN tag and padding |
| `Parser.ParsersAgree` | crates/fast-socket-xdp-ebpf/src/main.rs:187-249 | userspace classifies a frame as UDP to a port exactly when the filter yields that port, there is no 802.1ad tag and the length fields fit |
| `WireFormat.ParseIpv4UdpExact` | crates/fast-socket-xdp-rs/src/socket.rs:3616-3658 | the answer for every byte string, by the bits of RFC 791 and RFC 768: fragment exactly for a well-formed IPv4 packet with the more-fragments bit or a fragment offset, UDP exactly for an unfragmented one with protocol 17 and fitting lengths, with the fields at their offsets, and drop otherwise |
| `WireFormat.DontFragmentIgnored` | crates/fast-socket-xdp-rs/src/socket.rs:3616-3658 | setting the don't-fragment bit changes nothing the parser answers |
| `WireFormat.ParseEthernetExact` | crates/fast-socket-xdp-rs/src/socket.rs:3661-3694 | the frame parser answers as the IPv4 parser does behind 14 bytes, or behind 18 with one 802.1Q tag, and drops every other frame |
| `WireFormat.EbpfPortExact` | crates/fast-socket-xdp-ebpf/src/main.rs:187-249 | the filter yields the destination port exactly for unfragmented IPv4 frames with protocol 17 whose UDP header is in the frame, also behind 802.1ad tags |
| `WireFormat.FilterSkipsFragments` | crates/fast-socket-xdp-ebpf/src/main.rs:187-249 | no fragment yields a port |
| `WireFormat.FilterIgnoresDontFragment` | crates/fast-socket-xdp-ebpf/src/main.rs:187-249 | setting the don't-fragment bit does not change the port |
| `WireFormat.HeaderLayout` | crates/fast-socket-xdp-rs/src/socket.rs:3696-3715 | every field of a written header is at its offset, with the numbers of the standards |
| `WireFormat.EthernetLayout` | crates/fast-socket-xdp-rs/src/egress.rs:193-206 | destination, source, optional 802.1Q tag and ethertype at their offsets |
| `WireFormat.ParseBuilt` | crates/fast-socket-xdp-rs/src/socket.rs:3616-3715 | a datagram with a written header parses to its fields whatever its checksum field says |
| `Endpoint.CompletionRecoversFrame` | crates/fast-socket-xdp-rs/src/buffer.rs:1399-1421 | a prepared descriptor stays in its frame and any completed address inside it masks back to that frame |
| `Endpoint.BuiltCacheFits` | crates/fast-socket-xdp-rs/src/socket.rs:3193-3275 | a built cache is the fresh header of its length under the resolved route; `EndpointPackets.EndpointOnTheWire` says what a packet sent with it carries |
| `Endpoint.PathsAgree` | crates/fast-socket-xdp-rs/src/socket.rs:2539-2620 | from a fresh cache, endpoint and plain path submit the same descriptor and frame bytes if and only if the patch does not meet the carry case; the cache then stays fresh, and what the plain path accepts fits the endpoint's limits |
| `Endpoint.PathsAgreeAfter` | crates/fast-socket-xdp-rs/src/socket.rs:3277-3311 | after any chain of patches the two paths submit the same if and only if the chain, this packet's patch included, leaves the right checksum |
| `Endpoint.PlainIsTemplate` | crates/fast-socket-xdp-rs/src/socket.rs:2109-2150 | the plain path puts the template header of the payload's length in front of it; `EndpointPackets.PlainOnTheWire` says what that carries |
| `EndpointPackets.ResolveMeans` | crates/fast-socket-xdp-rs/src/route.rs:331-388 | the resolved header is that of the one way out and its MTU the smallest of socket, route and interface; none exactly when there is no way out |
| `EndpointPackets.PlainOnTheWire` | crates/fast-socket-xdp-rs/src/socket.rs:2067-2150 | every packet the plain path submits, parsed from the bytes its descriptor covers, has the destination, ports, source or else socket address, ECN and payload asked for, the socket's TTL, the header of the way out, a datagram within its MTU and a checksum that verifies; no other byte of the frame changes |
| `EndpointPackets.EndpointOnTheWire` | crates/fast-socket-xdp-rs/src/socket.rs:2539-2620 | the same for every packet sent with a cached header, whatever patches it has been through; its checksum verifies when they left the right header |
| `EndpointPackets.SubmittableIff` | crates/fast-socket-xdp-rs/src/buffer.rs:1399-1421 | the frame protocol lets a descriptor be submitted exactly when some packet and Ethernet header give it |
| `EndpointPackets.PlainAcceptsIff` | crates/fast-socket-xdp-rs/src/socket.rs:2067-2150 | a packet is accepted exactly when there is a way out, the datagram fits its MTU and 16 bits, and the headers fit in front of the payload; each refusal names what is missing |
| `EndpointRuns.XdpLocalRoutes.ApplyUpdates` | crates/fast-socket-xdp-rs/src/route.rs:550-560 | adopts queued snapshots in order and advances the generation by their number, wrapping at 64 bits |
| `EndpointRuns.SameGeneration` | crates/fast-socket-xdp-rs/src/socket.rs:2268-2276 | equal generations fewer than 2^64 updates apart mean no update in between |
| `EndpointRuns.XdpUdpEndpoint.Refresh` | crates/fast-socket-xdp-rs/src/socket.rs:2268-2292 | which cache a send uses: the one there is while its wrapped generation is the current one, else one built under the current snapshot, or that build's error |
| `EndpointRuns.XdpUdpEndpoint.SendBatch` | crates/fast-socket-xdp-rs/src/socket.rs:2539-2620 | how many packets are taken and the error of the first refused one; each accepted packet is on the wire as asked for, and is what the plain path submits if and only if the patches since the cache was built leave the right header; the plain path refuses the packet stopped at too, but for a fixed length; the patches made |
| `EndpointRuns.Run` | crates/fast-socket-xdp-rs/src/socket.rs:2539-2620 | every run of pushed updates, adoptions and sends, with no restriction on it: every accepted packet is on the wire as asked for, and is what the plain path submits if and only if the patches since the last rebuild leave the right header; the facts compared with are the snapshot in use unless 2^64 were adopted since then |
| `EndpointRuns.CleanPacketsAsPlain` | crates/fast-socket-xdp-rs/src/socket.rs:2539-2620 | consequence for any packet of any run: with at most 2^64 adopted snapshots and no patch since the rebuild over the carry case it is as the plain path sends it, and a fixed-length endpoint never patches |
| `EndpointRuns.RefusalIff` | crates/fast-socket-xdp-rs/src/socket.rs:3331-3347 | on the facts: when a packet is refused and why, in the order of the checks |
| `EndpointRuns.BuildErrorIff` | crates/fast-socket-xdp-rs/src/socket.rs:3193-3275 | on the facts: when no cache can be built and why |
| `EndpointBatch.PatchCopiesAgree` | crates/fast-socket-xdp-rs/src/buffer.rs:275-325 | the patch on a copied header is the in-place patch |
| `EndpointBatch.BatchHeaderIsFresh` | crates/fast-socket-xdp-rs/src/buffer.rs:308-325 | a batch frame carries the fresh header of its length exactly when the carry case is not met |
| `EndpointBatch.PrepareEndpointBatch` | crates/fast-socket-xdp-rs/src/buffer.rs:834-972 | all or nothing for every callback: fails exactly when the shape does not fit or a length is refused, with the first error and nothing changed; success moves exactly the popped frames to descriptors covering patched header and payload and reports their bytes; no other byte changes |
| `EndpointBatchWire.BatchOnTheWire` | crates/fast-socket-xdp-rs/src/buffer.rs:834-972 | every descriptor of a prepared batch lies in its frame and, read back by the parser, is a datagram with the endpoint's addresses, ports, ECN and TTL whose payload is exactly what the callback reported |
| `EndpointBatchWire.CheckIff` | crates/fast-socket-xdp-rs/src/buffer.rs:834-972 | a length is accepted exactly when it is the fixed one, fits the frame and gives a 16-bit datagram length |
| `EndpointBatchWire.NewPatchIff` | crates/fast-socket-xdp-rs/src/buffer.rs:275-307 | a patch exists exactly when its three words lie in the header at 16-bit offsets, and it remembers the two it replaces |
| `Batch.PrefixSocket.SendAll` | crates/fast-socket-rs/src/udp.rs:581-610 | for every script of answers and drains: how many slots are taken, passed on once and in order; a drain follows each answer that took nothing; it ends only with all slots taken, the end of the script, or the error of the last answer or drain |
| `Batch.SendGenericEndpoint` | crates/fast-socket-rs/src/udp.rs:248-309 | keeps the prefix contract and gives exactly the result of the answer: its own error first, then that of the slot that ended the valid prefix, once the whole prefix is accepted |
| `Batch.SendableExact` | crates/fast-socket-rs/src/udp.rs:248-309 | the room is the longest front of ready slots the endpoint accepts, and what stops it is a taken slot or the endpoint's verdict |
| `Batch.EndpointResultIsOneAnswer` | crates/fast-socket-rs/src/udp.rs:248-309 | one endpoint send is sending to completion with a single answer |
| `Batch.RestoreUnaccepted` | crates/fast-socket-rs/src/udp.rs:443-455 | every slot from the accepted count on holds its original packet again |
| `Batch.SendAllToEndpoint` | crates/fast-socket-rs/src/udp.rs:614-644 | as `SendAll`, and stops at the first slot the endpoint cannot send, with its error, once all slots before it are taken |
| `OsSend.SendImpl` | crates/fast-socket-os-rs/src/lib.rs:612-744 | for all kernel answers, the chunked loops take and dispatch exactly the slots of a one-answer-at-a-time machine, once and in order, later slots keep their packets, and it ends only with the valid slots, the script, back-pressure or the kernel's error |
| `OsSend.SendableExact` | crates/fast-socket-os-rs/src/lib.rs:612-640 | only ready slots within the MTU and without unsupported options are dispatched, and which error stops them |
| `OsSend.SendsProgress` | crates/fast-socket-os-rs/src/lib.rs:676-744 | of two calls that meet no error one dispatches a packet, because a short send is followed by a call for the slot it left behind |
| `OsSend.SendsAtLeastOne` | crates/fast-socket-os-rs/src/lib.rs:676-744 | with a kernel that dispatches something in every call, at most one call per packet |
| `OsRecv.Receiver.Recv` | crates/fast-socket-os-rs/src/lib.rs:794-912 | which buffer each slot gets from the pool, which messages are delivered in which buffer, the outcome with its truncation error, and the slots and pool left; no buffer is lost |
| `OsRecv.DeliveredExact` | crates/fast-socket-os-rs/src/lib.rs:794-912 | exactly the messages that came whole and from a readable address are delivered, in order, with their lengths, each in its slot's own buffer or one of the pool |
| `ActorRuns.StepKeepsInv` | crates/fast-socket-async-rs/src/unix.rs:723-907 | every step of application and actor keeps lease count, packet order and shutdown state |
| `ActorRuns.CounterIsLeases` | crates/fast-socket-async-rs/src/unix.rs:127-179 | in every run the outstanding counter is the number of live leases |
| `ActorRuns.EndsWithoutBuffers` | crates/fast-socket-async-rs/src/unix.rs:701-721 | the actor ends only when the application holds no buffer and the channel is empty; `ActorHistory.WhyItEnds` says why it ends |
| `ActorRuns.PacketsInCommandOrder` | crates/fast-socket-async-rs/src/unix.rs:819-907 | what the socket accepted is a prefix of the packets of the handled commands |
| `ActorRuns.OkMeansAllAccepted` | crates/fast-socket-async-rs/src/unix.rs:744-817 | on an Ok finish the socket accepted exactly the packets of all commands sent before the first shutdown |
| `ActorHistory.WhyItEnds` | crates/fast-socket-async-rs/src/unix.rs:723-817 | told from the steps of any run: it ends with an error exactly when a flush, notification, drain, receive or wait failed; without one only after a handled shutdown, or with all senders gone, every command handled and a batch that could not be delivered |
| `ActorHistory.CheckExact` | crates/fast-socket-async-rs/src/unix.rs:723-817 | at each check: it ends only when it may and nothing is pending, does so after a shutdown, and goes to wait exactly when nothing happened since the last check |
| `ActorHistory.ReceivesWhileOpen` | crates/fast-socket-async-rs/src/unix.rs:723-817 | the socket is asked for packets exactly while no batch was undeliverable and no shutdown was handled |
| `ActorHistory.LedgerOfRun` | crates/fast-socket-async-rs/src/unix.rs:127-179 | the buffers outside are those delivered by receives or given to allocations, less those dropped or sent; the counter is their number plus the buffers in queued commands |
| `ActorHistory.AcceptedOfRun` | crates/fast-socket-async-rs/src/unix.rs:874-907 | what the socket accepted is the first packets of the handled commands, exactly as many as the flushes say, failing ones included |
| `OsPool.StepKeepsInv` | crates/fast-socket-os-rs/src/buffer.rs:172-261 | every interleaved step keeps one place per buffer and the counter exact |
| `OsPool.PoolConserves` | crates/fast-socket-os-rs/src/buffer.rs:135-261 | free, queued, mid-push and in-use buffers are those issued, at most the limit; the counter covers the queue; a counted push finds room |
| `OsPool.FailureMeansAllBusy` | crates/fast-socket-os-rs/src/buffer.rs:329-341 | an allocation fails only if some prefix of the run, inside the same call, has all buffers of the limit in use or mid-push |
| `OsPool.GrowsOnlyWhenAllBusy` | crates/fast-socket-os-rs/src/buffer.rs:194-211 | the pool grows only if, inside the same call, all issued buffers were in use or mid-push |
| `OsPool.AllocationEnds` | crates/fast-socket-os-rs/src/buffer.rs:329-341 | the last free buffer, else the last of a slab of 64 or what the limit leaves; fails exactly when neither exists |
| `OsPool.LastDroppedFirst` | crates/fast-socket-os-rs/src/buffer.rs:329-341 | a buffer dropped by the owner is the next one handed out |
| `Program.XdpProgram.BindPort` | crates/fast-socket-xdp-rs/src/program.rs:180-210 | for every outcome of the map writes, when it succeeds, which count it raises, and that no other port changes |
| `Program.XdpProgram.UnbindPort` | crates/fast-socket-xdp-rs/src/program.rs:213-238 | for every outcome of the map writes, when it succeeds and when it lowers the count; other ports are untouched |
| `Program.BoundFramesAreRedirected` | crates/fast-socket-xdp-ebpf/src/main.rs:91-104 | in every reachable state a frame userspace would deliver to a bound port is redirected |
| `Program.SelectedIffBound` | crates/fast-socket-xdp-ebpf/src/main.rs:151-164 | with no failed map write the filter selects exactly the bound ports |
| `Program.RangeAcceptedIffActive` | crates/fast-socket-xdp-rs/src/program.rs:98-115 | the loader accepts exactly the ordered port ranges that reach beyond port 0, which are those the filter acts on, and of the frames userspace would deliver the filter redirects exactly those in an accepted range |
| `Factory.Partition` | crates/fast-socket-xdp-rs/src/factory.rs:376-527 | succeeds exactly when workers divide over nodes, each node's queues over its workers, each interface's queues on a node over whole blocks, and every worker gets a core; then exactly `threads` plans, equally many per node in increasing node order, each on one interface and node; equal sizes, increasing interfaces and cores in turn within a node; the queues of each interface on each node in claim order, all claimed ones |
| `Aggregate.Aggregate.Recv` | crates/fast-socket-xdp-rs/src/aggregate.rs:124-140 | a sweep asks members in cyclic order while the batch has room; the total is the sum of their answers up to that room; it ends with the members, the room or a member's error, which leaves the cursor |
| `Aggregate.Aggregate.RecvRun` | crates/fast-socket-xdp-rs/src/aggregate.rs:446-459 | in any run of calls, failing ones included, every one of n members has been asked once n calls with room have succeeded |

## Left out

- Memory ordering and raw-pointer lifetime: atomic operations are single sequentially consistent steps, and the owner-epoch guard is not modelled.
- Liveness: spinning in the send-all loops, wake-ups of the actor and retries on EINTR are covered for safety only; a call still waiting when its script of answers ends is reported as unfinished.
- Doorbells, system calls, netlink, program loading, huge pages and NUMA or IRQ discovery: their results are parameters.
- Statistics counters, error texts and configuration builders: they would only add easy members.
- The heap-backed test paths of the sockets: they duplicate the live paths.
- The receive loop of the UDP wrapper: it differs from the modelled one only in the parser that decides whether a frame is delivered.
- IPv6 parsing and the generic IP packet path: no property here depends on them.
- Payload window operations of the OS packet buffer (reserve, trim, segments).
- GSO endpoints: an endpoint with a segment size is refused, as the code does.
- RX, TX and COMPLETION ring sizes in the frame protocol: only the FILL ring's size limits a step there.
- Poptrie.Build: past `CastsFit` some vector length no longer fits its 32-bit cast and the code goes on with a wrapped index, which is not modelled; `Poptrie.FewInsertionsFit` gives `CastsFit` for 22 million 32-bit or 3.5 million 128-bit insertions.
- Poptrie.InsertBuildLookup: the same.
- RouteSnapshot.Snapshot.UpsertRoutes: not claimed to equal repeated single upserts, because a replaced route that changes priority may then sort differently among equals.
- RouteSnapshot.UpdateThenResolve: says nothing past a state that cannot be indexed: more than 2^32 routes, prefixes the table builder refuses, or more than 2^32 - 2 egresses on an interface.
- FrameOverflow.SafePoliciesAreHomePolicies: asks that a frame hold the headroom and a minimal packet (42 bytes); the kernel refuses frames below 2048 bytes anyway.
- FrameOverflow.FreeMigrationIsUnsafe: the same.
- SocketState.LiveXdpState.DrainTxCompletions: asks for the list capacity that the unchecked pushes rely on; `FrameBounds.LocalDrainsFit` and `FrameOverflow.SafePoliciesAreHomePolicies` say when runs provide it.
- OsRecv.Receiver.Recv: a kernel length beyond the buffer is not modelled, because the kernel truncates instead.
- Factory.Partition: reading queue slots, loading programs and binding the filter ports before the partition.
- Aggregate.Aggregate.Recv: members' own receive work is an arbitrary answer.

# Proofs about the RADIUS library and the sidebar tree

This project models the hand-written data structures, protocols and codecs of the vendored
FreeRADIUS 3.2.2 library and the sidebar tree of the admin front end, and proves what they are for.
`dafny verify dfyconfig.toml` checks all of it.

**Split-ordered hash table** (`hash.c`). `SplitOrder` is the bit arithmetic: reversing a hash,
dropping its highest bit, and why chains sorted by reversed hash fall into contiguous runs. `SplitTable`
is the table as a value, with lazy splitting and the placement invariant; `HashSpec` and `HashMap` are
the operations and what they mean for the stored items; `HashRun` refines any run to a finite map;
`HashWalk` is the walk and the iterator. `Links` and `HashTable` are the pointers: an array of heads,
chains that end in one sentinel, and loops that change links in place, proved to do what the value-level
operations say.
`list_insert` moves its insertion point past a node with an equal hash before it looks at the result of
the comparison. So a new item that is larger than a stored item with the same 32-bit hash lands behind
it, where `list_find` stops before reaching it. `HashMap.InsertFindableIff` says exactly when that
happens, and `HashMap.BlockedExample` is a case of it. The map theorems hold for all runs that avoid it
(`HashRun.RunRefines`), which are exactly the runs in which every new item can be found
(`HashRun.AllowedRunIff`), and for all runs at all when there is no comparison function
(`HashRun.RunWithoutCmp`).

**Lock-free queue** (`atomic_queue.c`). `AtomicQueue` is a state machine: any number of threads, each
load, store and compare-and-swap one step, and a history of who won which ticket. `QueueTheorems` states
the bound, the ownership of slots, first-in first-out without loss or duplication, why calls fail, and
what a call that runs alone does. `QueueCalls` follows each call from its argument to its answer: every answer
is justified, and a call that is left alone ends. `fr_atomic_queue_create` accepts size 1, for which published and free
for the next lap are the same number; `QueueTheorems.BoundedIff`, `SizeOneLoses` and `SizeOneSpins` are
about that.

**Packet Identifiers** (`packet.c`, `fr_ipaddr_cmp` in `misc.c`; the Identifier is in section 3 of
RFC 2865). `PacketOrder` is the comparison, `PacketIds` the 256-bit maps, `PacketSpec` what each
operation may do, whatever the random numbers, and what every run keeps, `PacketTheorems` what follows
for requests and replies, `PacketCalls` what each call does field by field, and `PacketList` the loops. Two findings: socket_add gives up,
for an address of an unknown family or when getsockname fails, only after it has cleared the slot, which
leaves descriptor 0 open in it (`PacketTheorems.AddKeepsIff`, with `AddBreaksExample`); and the test that
is meant for link-local sockets looks at the last octet on a little-endian machine.
`PacketTheorems.FilterRightIff` says for which sockets and requests that makes no difference, and
`AllocStraysIff` and `AllocMissesIff` exactly when an allocation can land on a socket it should not, and
when it fails although a socket is free.

**Heap and timers** (`heap.c`, `event.c`). `HeapSpec` is the heap as a sequence, `Heap` the array with
stored positions, `EventList` the timers with their back pointers, running what is due, and the time to
wait.

**Streaming digests** (`md5.c`, `md4.c`, `sha1.c`). `MerkleDamgard` is the construction all three share,
over any compression function; `Md5`, `Md4` and `Sha1` are the three ways of buffering, counting and
padding. MD5 and MD4 compare the new bit count with the number of bytes instead of bits, so a carry can
be missed: `MerkleDamgard.Md5CountIff` and `Md5CountSmall` say exactly when, `CarryLost` is a case, and
`Md5CountsIff` and `Md5LostIff` are the exact conditions for whole runs.

**Codecs and sums.** `Base64` (`base64.c`, section 3 of RFC 3548); `Oid` and `OidText` (`dict.c`, naming
as in section 2.7 of RFC 6929), with the exact set of attributes that come back from printing and
parsing; `OidCases`, with the accepted numbers written out; `OidTree` and `OidParents`, with the parents and children of attributes and exactly when
`dict_parent` and `dict_attr_child` agree with taking a number off the end of the text and adding one,
the first of which `dict_str2oid` checks in its debugging code; `InetChecksum` (`net.c`, RFC 1071). `dict_parent` does not find the parents of DHCP options
above 255 with a wide type, nor those of the numbers 4 and up nested in attribute 173 (`OidParents.DhcpParentMissed`,
`SixRdParentMissed`).

**Sidebar tree** (`sideBarTree.js`). `SideBarTree` builds the tree from parent ids in place,
`SideBarList` flattens it breadth first; what comes back is a permutation exactly when the parent
relation has no cycles.

`Bits`, `Options`, `Sequences` and `Compare` hold what several parts need.

Where the code and its comments differ, the model follows the code: `fr_base64_decode` is documented to
return -1 and returns other negative numbers too; `print_attr_oid` takes a vendor of exactly 2^24 for a
plain one, because it compares with `>`; numbers below the deepest level of an OID are ignored by
`dict_str2oid`, not refused; and the range of a two-byte vendor type is compared with `>` 65536.

## Model

| member | source | states |
|---|---|---|
| `SplitOrder.ReverseIsRev` | docker/radius/freeradius-server-3.2.2/src/lib/hash.c:151-157 | reverse() on four table look-ups reverses all 32 bits of a hash |
| `SplitOrder.RevInvolution` | docker/radius/freeradius-server-3.2.2/src/lib/hash.c:151-157 | reversing twice gives the hash back, so distinct hashes have distinct reversals |
| `SplitOrder.ParentOfIsParent` | docker/radius/freeradius-server-3.2.2/src/lib/hash.c:162-174 | parent_of() drops exactly the highest one bit, whichever byte it is in |
| `SplitOrder.SortedByBucket` | docker/radius/freeradius-server-3.2.2/src/lib/hash.c:298-307 | a chain sorted by reversed hash is sorted by reversed bucket number for every table size |
| `SplitOrder.ParentFirst` | docker/radius/freeradius-server-3.2.2/src/lib/hash.c:159-174 | along a sorted chain a bucket comes before every bucket split out of it |
| `SplitOrder.SameBucketContiguous` | docker/radius/freeradius-server-3.2.2/src/lib/hash.c:322-341 | along a sorted chain the hashes with the same low bits form one contiguous run |
| `SplitTable.SplitKeeps` | docker/radius/freeradius-server-3.2.2/src/lib/hash.c:327-346 | splitting a chain keeps the placement invariant and the multiset of items |
| `SplitTable.SplitFills` | docker/radius/freeradius-server-3.2.2/src/lib/hash.c:327-346 | splitting a chain overwrites only NULL buckets, and only those whose nearest filled ancestor is the one that is split |
| `SplitTable.FixupKeeps` | docker/radius/freeradius-server-3.2.2/src/lib/hash.c:308-347 | fixup, with its recursion to the parents, keeps the placement invariant (every item in the nearest filled ancestor of key & mask, chains sorted) and loses or duplicates nothing |
| `HashSpec.CreateValid` | docker/radius/freeradius-server-3.2.2/src/lib/hash.c:256-295 | a new table is valid and empty |
| `HashSpec.CreateIs` | docker/radius/freeradius-server-3.2.2/src/lib/hash.c:257-294 | a new table has 64 buckets, all NULL but the first |
| `HashSpec.GrowsIff` | docker/radius/freeradius-server-3.2.2/src/lib/hash.c:355-378 | the table doubles exactly when it holds two and a half times as many elements as buckets |
| `HashSpec.GrowPlaced` | docker/radius/freeradius-server-3.2.2/src/lib/hash.c:358-374 | doubling leaves every item in the right place, with the upper half NULL, and keeps the items |
| `HashSpec.InsertKeeps` | docker/radius/freeradius-server-3.2.2/src/lib/hash.c:385-429 | insertion keeps the invariant, the count and the load limit, and adds exactly the new item, or nothing when it reports 0 |
| `HashSpec.YankKeeps` | docker/radius/freeradius-server-3.2.2/src/lib/hash.c:499-525 | yanking keeps the invariant and takes out exactly the item it returns |
| `HashSpec.ReplaceKeeps` | docker/radius/freeradius-server-3.2.2/src/lib/hash.c:456-475 | replacing keeps the invariant and exchanges exactly the item that find returns, or inserts |
| `HashSpec.FindKeeps` | docker/radius/freeradius-server-3.2.2/src/lib/hash.c:435-448 | a lookup may fill buckets, but keeps the invariant and the items |
| `HashMap.FoundIff` | docker/radius/freeradius-server-3.2.2/src/lib/hash.c:481-492 | finddata returns x exactly when x is stored and equal to the argument |
| `HashMap.FoundNoneIff` | docker/radius/freeradius-server-3.2.2/src/lib/hash.c:481-492 | finddata returns NULL exactly when no stored item is equal to the argument |
| `HashMap.InsertFailsIff` | docker/radius/freeradius-server-3.2.2/src/lib/hash.c:413-417 | insertion reports 0 exactly when an equal item is stored |
| `HashMap.InsertKeepsOrder` | docker/radius/freeradius-server-3.2.2/src/lib/hash.c:203-228 | chains stay in the order that lookups need when the new item is not larger than a stored item with its hash |
| `HashMap.InsertFindableIff` | docker/radius/freeradius-server-3.2.2/src/lib/hash.c:211-225 | an item that insertion accepted is found again exactly when no stored item with its hash is smaller; otherwise it is lost at once |
| `HashMap.BlockedExample` | docker/radius/freeradius-server-3.2.2/src/lib/hash.c:211-217 | two distinct items with one hash, the smaller one first: insertion of the larger one reports success and the item cannot be found |
| `HashRun.StepRefines` | docker/radius/freeradius-server-3.2.2/src/lib/hash.c:385-525 | each of insert, replace, yank and finddata does and returns what the same operation on a finite map does |
| `HashRun.RunRefines` | docker/radius/freeradius-server-3.2.2/src/lib/hash.c:385-525 | any sequence of operations without a blocked insertion returns what the same sequence on a finite map returns |
| `HashRun.AllowedRunIff` | docker/radius/freeradius-server-3.2.2/src/lib/hash.c:203-229 | up to the size bound, the runs without a blocked insertion are exactly those in which every item inserted or replaced can be found afterwards |
| `HashRun.GoodCount` | docker/radius/freeradius-server-3.2.2/src/lib/hash.c:423-426 | num_elements is the size of the map and stays below 2.5 times num_buckets |
| `HashRun.RunWithoutCmp` | docker/radius/freeradius-server-3.2.2/src/lib/hash.c:186-191 | without a comparison function a new table is a finite map from hashes to items, for every run |
| `HashWalk.WalkedCut` | docker/radius/freeradius-server-3.2.2/src/lib/hash.c:334-337 | where the bucket changes along the chain, the bucket that gets the rest of it was NULL |
| `HashWalk.WalkedEnd` | docker/radius/freeradius-server-3.2.2/src/lib/hash.c:327-341 | the pointer loop of fixup leaves exactly the split of the chain |
| `HashWalk.FullWalk` | docker/radius/freeradius-server-3.2.2/src/lib/hash.c:592-621 | a full walk visits every stored item exactly once although it splits buckets as it goes, and leaves no bucket NULL |
| `HashWalk.LookupsAreReadOnly` | docker/radius/freeradius-server-3.2.2/src/lib/dict.c:2789-2802 | after a full walk a lookup changes nothing, which is why dict_init walks all tables before threads start |
| `HashWalk.TouredStops` | docker/radius/freeradius-server-3.2.2/src/lib/hash.c:608-617 | a walk that a callback stops has visited a prefix of the whole walk, up to the item for which the callback did not return 0 |
| `HashWalk.IterFollowsWalk` | docker/radius/freeradius-server-3.2.2/src/lib/hash.c:634-678 | a call of the iterator returns the next item of the walk, and NULL at its end |
| `HashWalk.IterVisitsAll` | docker/radius/freeradius-server-3.2.2/src/lib/hash.c:634-696 | a run of the iterator from iter_init returns every stored item exactly once and then NULL |
| `Links.CutLinked` | docker/radius/freeradius-server-3.2.2/src/lib/hash.c:335-337 | cutting a chain in the middle and hanging the rest off another bucket gives disjoint chains ending in the sentinel, holding the split value |
| `Links.SpliceLinked` | docker/radius/freeradius-server-3.2.2/src/lib/hash.c:224-225 | linking a node in after any link gives disjoint chains that hold the value with the item inserted |
| `Links.UnlinkLinked` | docker/radius/freeradius-server-3.2.2/src/lib/hash.c:239-246 | unlinking a node gives disjoint chains that hold the value with the item removed |
| `HashTable.HashTable.constructor` | docker/radius/freeradius-server-3.2.2/src/lib/hash.c:256-295 | a new table with 64 buckets, bucket 0 the sentinel |
| `HashTable.HashTable.ListFind` | docker/radius/freeradius-server-3.2.2/src/lib/hash.c:177-197 | the pointer loop returns the node at the place list_find is specified to return |
| `HashTable.HashTable.ListInsert` | docker/radius/freeradius-server-3.2.2/src/lib/hash.c:203-228 | the pointer loop links the node in at the specified place, or leaves the list alone when an equal item is met |
| `HashTable.HashTable.ListDelete` | docker/radius/freeradius-server-3.2.2/src/lib/hash.c:234-248 | the node is unlinked from its chain and nothing else changes |
| `HashTable.HashTable.Fixup` | docker/radius/freeradius-server-3.2.2/src/lib/hash.c:308-347 | bucket heads and next pointers end up as the specified split |
| `HashTable.HashTable.Grow` | docker/radius/freeradius-server-3.2.2/src/lib/hash.c:358-379 | the array doubles; the old heads stay, the new ones are NULL; mask and next_grow follow |
| `HashTable.HashTable.Insert` | docker/radius/freeradius-server-3.2.2/src/lib/hash.c:385-429 | the table and the result are those of the specification |
| `HashTable.HashTable.FindData` | docker/radius/freeradius-server-3.2.2/src/lib/hash.c:481-492 | the table and the result are those of the specification |
| `HashTable.HashTable.Replace` | docker/radius/freeradius-server-3.2.2/src/lib/hash.c:456-475 | the table and the result are those of the specification |
| `HashTable.HashTable.Yank` | docker/radius/freeradius-server-3.2.2/src/lib/hash.c:499-525 | the table and the result are those of the specification |
| `HashTable.HashTable.Walk` | docker/radius/freeradius-server-3.2.2/src/lib/hash.c:592-621 | the callback is given the items of the specified walk in order, up to the first for which it does not return 0, whose result is returned |
| `HashTable.HashTable.Next` | docker/radius/freeradius-server-3.2.2/src/lib/hash.c:634-678 | the iterator, the table and the result are those of the specified iterator |
| `AtomicQueue.CreateInv` | docker/radius/freeradius-server-3.2.2/src/lib/atomic_queue.c:65-106 | a new queue of size 2 or more satisfies the invariant |
| `AtomicQueue.IndexIsRemainder` | docker/radius/freeradius-server-3.2.2/src/lib/atomic_queue.c:133 | the slot of a ticket is its remainder by the size |
| `AtomicQueue.ClaimKeeps` | docker/radius/freeradius-server-3.2.2/src/lib/atomic_queue.c:161-163 | the winning compare-and-swap of a push keeps the invariant: head stays within size of tail |
| `AtomicQueue.TakeKeeps` | docker/radius/freeradius-server-3.2.2/src/lib/atomic_queue.c:214-216 | the winning compare-and-swap of a pop keeps the invariant: tail stays at or below head |
| `AtomicQueue.PublishKeeps` | docker/radius/freeradius-server-3.2.2/src/lib/atomic_queue.c:171-172 | the store of head + 1 publishes exactly the claimed ticket |
| `AtomicQueue.ReleaseKeeps` | docker/radius/freeradius-server-3.2.2/src/lib/atomic_queue.c:229-230 | the store of tail + size frees the slot for exactly the next lap |
| `AtomicQueue.StepKeeps` | docker/radius/freeradius-server-3.2.2/src/lib/atomic_queue.c:118-233 | every atomic step of every thread keeps the invariant |
| `AtomicQueue.RunKeeps` | docker/radius/freeradius-server-3.2.2/src/lib/atomic_queue.c:118-233 | the invariant holds in every state of every interleaving of any number of threads |
| `QueueTheorems.Bounded` | docker/radius/freeradius-server-3.2.2/src/lib/atomic_queue.c:118-233 | in every interleaving tail <= head <= tail + size |
| `QueueTheorems.BoundedIff` | docker/radius/freeradius-server-3.2.2/src/lib/atomic_queue.c:71 | that bound holds in every interleaving exactly when size >= 2, although create accepts size 1 |
| `QueueTheorems.SlotPhase` | docker/radius/freeradius-server-3.2.2/src/lib/atomic_queue.c:133-172 | head, tail and the sequence number of a slot say whether its ticket is free, claimed, published or being drained; exactly one thread owns a claimed or draining slot, and nobody a free or published one |
| `QueueTheorems.OwnerTicket` | docker/radius/freeradius-server-3.2.2/src/lib/atomic_queue.c:161-172 | between its compare-and-swap and its store a thread is the recorded winner of the ticket its slot is at |
| `QueueTheorems.Fifo` | docker/radius/freeradius-server-3.2.2/src/lib/atomic_queue.c:161-230 | the pop that wins ticket t returns the value stored by the push that won ticket t, after that push returned; no ticket is pushed or popped twice |
| `QueueTheorems.NothingLost` | docker/radius/freeradius-server-3.2.2/src/lib/atomic_queue.c:171-230 | a value whose push has returned is in its slot, or is being popped by exactly one thread, or has been popped |
| `QueueTheorems.QuietQueue` | docker/radius/freeradius-server-3.2.2/src/lib/atomic_queue.c:161-232 | with no call in progress the pushes done are the tickets below head, the pops done those below tail, and the slots hold the values in between in order |
| `QueueTheorems.QuietFull` | docker/radius/freeradius-server-3.2.2/src/lib/atomic_queue.c:133-145 | with no call in progress a push finds the queue full exactly when it holds size values, and a pop finds it empty exactly when it holds none |
| `QueueTheorems.PushFailsIff` | docker/radius/freeradius-server-3.2.2/src/lib/atomic_queue.c:133-145 | a push returns false exactly when, as the sequence number was read, the ticket a lap before its own had not been released |
| `QueueTheorems.PopFailsIff` | docker/radius/freeradius-server-3.2.2/src/lib/atomic_queue.c:197-207 | a pop returns false exactly when, as the sequence number was read, its ticket had not been published |
| `QueueTheorems.RetryMeansProgress` | docker/radius/freeradius-server-3.2.2/src/lib/atomic_queue.c:150-163 | a thread goes round its loop again only when another thread has won the ticket it was after |
| `QueueCalls.CreateIs` | docker/radius/freeradius-server-3.2.2/src/lib/atomic_queue.c:66-104 | a queue of positive size starts empty, with every slot free for the ticket of its own number |
| `QueueCalls.PushStep` | docker/radius/freeradius-server-3.2.2/src/lib/atomic_queue.c:118-174 | each step of a push leaves it a push of the same value, or ends it: with its own ticket published, or with false because the ticket a lap before its own had not been released |
| `QueueCalls.PopStep` | docker/radius/freeradius-server-3.2.2/src/lib/atomic_queue.c:185-232 | each step of a pop leaves it a pop, or ends it: with the value of its own ticket, which it releases, or with false because its ticket had not been published |
| `QueueCalls.BeginStep` | docker/radius/freeradius-server-3.2.2/src/lib/atomic_queue.c:118-123 | a call with a null argument returns false at once and changes nothing; any other begins with its argument |
| `QueueCalls.AnswersJustified` | docker/radius/freeradius-server-3.2.2/src/lib/atomic_queue.c:118-232 | in every interleaving, every answer of every call was justified in the state in which it was given |
| `QueueCalls.CallBegan` | docker/radius/freeradius-server-3.2.2/src/lib/atomic_queue.c:118-232 | a thread that is inside a push of d began that call with d, and has not returned since |
| `QueueCalls.FinishesAlone` | docker/radius/freeradius-server-3.2.2/src/lib/atomic_queue.c:118-232 | from any point of its program, whatever the others have done, a call that is left alone returns within six steps with exactly one answer |
| `QueueTheorems.PushOrder` | docker/radius/freeradius-server-3.2.2/src/lib/atomic_queue.c:161-172 | a push that wins its ticket after another push has returned gets a later ticket |
| `QueueTheorems.HistoryGrows` | docker/radius/freeradius-server-3.2.2/src/lib/atomic_queue.c:118-233 | tickets are handed out in order and nothing that happened is taken back |
| `QueueTheorems.PushAlone` | docker/radius/freeradius-server-3.2.2/src/lib/atomic_queue.c:118-173 | a push that runs alone returns within five steps, and false exactly when the queue is full |
| `QueueTheorems.PopAlone` | docker/radius/freeradius-server-3.2.2/src/lib/atomic_queue.c:185-233 | a pop that runs alone returns within five steps, with the value pushed with ticket tail, or false exactly when that is not published |
| `QueueTheorems.SizeOneLoses` | docker/radius/freeradius-server-3.2.2/src/lib/atomic_queue.c:71-94 | in a queue of size 1 two pushes in a row both report success and the first value is gone |
| `QueueTheorems.SizeOneSpins` | docker/radius/freeradius-server-3.2.2/src/lib/atomic_queue.c:194-217 | after that no pop ever returns |
| `PacketOrder.AddrCmpIff` | docker/radius/freeradius-server-3.2.2/src/lib/misc.c:1550-1579 | fr_ipaddr_cmp is 0 exactly for the same known family, prefix, address and (for IPv6) scope; swapping its arguments swaps its sign exactly unless both have one unknown family and one prefix |
| `PacketOrder.PacketCmpIff` | docker/radius/freeradius-server-3.2.2/src/lib/packet.c:40-81 | fr_packet_cmp is 0 exactly when the families are known and Identifier, descriptor, addresses and ports agree; for known families, swapping its arguments swaps its sign |
| `PacketOrder.PacketCmpTransitive` | docker/radius/freeradius-server-3.2.2/src/lib/packet.c:40-81 | fr_packet_cmp is transitive, also strictly, for addresses of any family |
| `PacketOrder.ComparesToItselfIff` | docker/radius/freeradius-server-3.2.2/src/lib/misc.c:1558-1579 | a packet compares equal to itself exactly when both address families are known |
| `PacketIds.SetIdUsed` | docker/radius/freeradius-server-3.2.2/src/lib/packet.c:774-778 | setting a bit adds exactly that Identifier to the used ones |
| `PacketIds.ClearIdUsed` | docker/radius/freeradius-server-3.2.2/src/lib/packet.c:855 | clearing a bit takes exactly that Identifier out of the used ones |
| `PacketIds.FullByte` | docker/radius/freeradius-server-3.2.2/src/lib/packet.c:769-775 | a byte is 0xff exactly when all its eight Identifiers are taken |
| `PacketIds.AllTakenIff` | docker/radius/freeradius-server-3.2.2/src/lib/packet.c:695-698 | the number of used Identifiers is 256 exactly when none is free |
| `PacketSpec.NoCollision` | docker/radius/freeradius-server-3.2.2/src/lib/packet.c:807-815 | for a free bit of an open socket the tree has no request with that descriptor and Identifier, so its insertion never fails |
| `PacketSpec.AllocKeeps` | docker/radius/freeradius-server-3.2.2/src/lib/packet.c:774-814 | allocating an Identifier keeps the invariant of sockets, maps, counters and tree |
| `PacketSpec.FreeKeeps` | docker/radius/freeradius-server-3.2.2/src/lib/packet.c:835-865 | freeing an outstanding request keeps the invariant |
| `PacketSpec.StepKeeps` | docker/radius/freeradius-server-3.2.2/src/lib/packet.c:296-865 | every call of add, freeze, thaw, delete, alloc and free keeps the invariant, whatever the random numbers are |
| `PacketSpec.RunKeeps` | docker/radius/freeradius-server-3.2.2/src/lib/packet.c:296-865 | the invariant holds after every run |
| `PacketTheorems.IdsDistinct` | docker/radius/freeradius-server-3.2.2/src/lib/packet.c:614-865 | after every run the outstanding requests have pairwise distinct (descriptor, Identifier), each counter is the number of bits set in its map, and their sum is the number of outstanding requests |
| `PacketTheorems.TakenIffOutstanding` | docker/radius/freeradius-server-3.2.2/src/lib/packet.c:774-858 | a bit is set exactly while a request on that socket has that Identifier |
| `PacketTheorems.AllocSucceedsIff` | docker/radius/freeradius-server-3.2.2/src/lib/packet.c:679-815 | id_alloc succeeds for a request that passes its argument checks exactly when a socket passing the filters has fewer than 256 requests outstanding |
| `PacketTheorems.FreeUndoesAlloc` | docker/radius/freeradius-server-3.2.2/src/lib/packet.c:835-865 | freeing what was just allocated gives the whole list back |
| `PacketTheorems.ReplyFindsIff` | docker/radius/freeradius-server-3.2.2/src/lib/packet.c:512-569 | a reply is mapped to an outstanding request exactly when it answers it: same descriptor and Identifier, and source and destination swapped, where the destination does not matter on a socket bound to any address; on a TCP socket exactly when that is connected to the destination of the request |
| `PacketTheorems.ReplyFoundIff` | docker/radius/freeradius-server-3.2.2/src/lib/packet.c:512-569 | a reply is mapped to some request exactly when there is an outstanding request that it answers |
| `PacketTheorems.ReplyFindsOnly` | docker/radius/freeradius-server-3.2.2/src/lib/packet.c:512-569 | what a reply is mapped to is the only request with its descriptor and Identifier, sent to where the reply came from |
| `PacketTheorems.AddKeepsIff` | docker/radius/freeradius-server-3.2.2/src/lib/packet.c:393-435 | adding a socket keeps the invariant exactly when both families are known, the destination is unspecified, or the list is full; otherwise descriptor 0 is left open in a slot |
| `PacketTheorems.AddBreaksExample` | docker/radius/freeradius-server-3.2.2/src/lib/packet.c:422-427 | descriptor 7 added to a new list for a destination of family 1: refused, and slot 0 is open with descriptor 0 |
| `PacketTheorems.FilterRightIff` | docker/radius/freeradius-server-3.2.2/src/lib/packet.c:721-728 | the filters pass what they are meant to exactly when the link-local test does not come into it, or the last octets say the same about 127 as the first ones |
| `PacketTheorems.AllocStraysIff` | docker/radius/freeradius-server-3.2.2/src/lib/packet.c:679-815 | id_alloc can land on a socket bound inside 127/8 for a destination outside exactly when such a socket matches, has room, and has not 127 as its last octet unless the destination has |
| `PacketTheorems.AllocMissesIff` | docker/radius/freeradius-server-3.2.2/src/lib/packet.c:679-815 | id_alloc fails although a socket that is meant to pass has room exactly when every matching socket with room has 127 as its last octet and the destination has not |
| `PacketTheorems.LoopbackTestReadsLastOctet` | docker/radius/freeradius-server-3.2.2/src/lib/packet.c:721-728 | two sockets as witnesses: the test passes one on 127.0.0.1 and stops one on 10.0.0.127 |
| `PacketCalls.AllocTakes` | docker/radius/freeradius-server-3.2.2/src/lib/packet.c:614-829 | the socket that gets the Identifier is open and not frozen, has the protocol, the family of the destination, and the ports and addresses asked for or wildcards; the bit, the two counters and the tree are all that changes |
| `PacketCalls.AllocServes` | docker/radius/freeradius-server-3.2.2/src/lib/packet.c:614-829 | a socket with all of that, not stopped by the link-local test and with fewer than 256 outstanding, makes id_alloc succeed |
| `PacketCalls.ArgumentsIff` | docker/radius/freeradius-server-3.2.2/src/lib/packet.c:621-660 | what id_alloc checks of the request before it looks at any socket |
| `PacketCalls.AddEffect` | docker/radius/freeradius-server-3.2.2/src/lib/packet.c:350-436 | when a socket is added, and every field of its slot |
| `PacketCalls.FreezeEffect` | docker/radius/freeradius-server-3.2.2/src/lib/packet.c:296-312 | a frozen socket is marked, and nothing else changes; false exactly when there is none |
| `PacketCalls.ThawEffect` | docker/radius/freeradius-server-3.2.2/src/lib/packet.c:315-326 | a thawed socket is unmarked, and nothing else changes; false exactly when there is none |
| `PacketCalls.DeleteEffect` | docker/radius/freeradius-server-3.2.2/src/lib/packet.c:329-347 | a socket is taken out exactly when nothing is outstanding on it |
| `PacketCalls.FreeEffect` | docker/radius/freeradius-server-3.2.2/src/lib/packet.c:835-865 | freeing an outstanding request clears its bit, its place in the tree and one from both counters |
| `PacketCalls.CreateEffect` | docker/radius/freeradius-server-3.2.2/src/lib/packet.c:458-481 | a new list has 1024 closed slots of zeros |
| `PacketCalls.ReplyLooksUp` | docker/radius/freeradius-server-3.2.2/src/lib/packet.c:512-569 | what find_byreply looks up, field by field, for TCP and for other protocols |
| `PacketList.PacketList.SocketFind` | docker/radius/freeradius-server-3.2.2/src/lib/packet.c:280-294 | finds a slot with the descriptor if there is one, by probing all slots from its own place on |
| `PacketList.PacketList.Add` | docker/radius/freeradius-server-3.2.2/src/lib/packet.c:350-436 | does one of the steps allowed for adding a socket, also when getsockname fails |
| `PacketList.PacketList.Delete` | docker/radius/freeradius-server-3.2.2/src/lib/packet.c:329-347 | does one of the steps allowed for deleting: only a socket with nothing outstanding |
| `PacketList.PacketList.FreeBit` | docker/radius/freeradius-server-3.2.2/src/lib/packet.c:772-781 | the rotated search of a byte finds a clear bit if there is one |
| `PacketList.PacketList.FreeId` | docker/radius/freeradius-server-3.2.2/src/lib/packet.c:763-783 | the rotated search of a map finds a free Identifier if there is one |
| `PacketList.PacketList.FreeSocket` | docker/radius/freeradius-server-3.2.2/src/lib/packet.c:679-788 | the rotated search of the sockets finds a usable socket with a free Identifier if there is one |
| `PacketList.PacketList.Passes` | docker/radius/freeradius-server-3.2.2/src/lib/packet.c:684-757 | the filters, in order, pass exactly the usable sockets |
| `PacketList.PacketList.IdAlloc` | docker/radius/freeradius-server-3.2.2/src/lib/packet.c:614-829 | does one of the steps allowed for allocation, assigns the Identifier, socket and source, and inserts the request under its key |
| `PacketList.PacketList.Assign` | docker/radius/freeradius-server-3.2.2/src/lib/packet.c:777-828 | when the tree refuses the request the map and the counters are as before |
| `PacketList.PacketList.IdFree` | docker/radius/freeradius-server-3.2.2/src/lib/packet.c:835-865 | frees the Identifier of the request, modulo 256, on its socket and resets the request, or fails when it is not in the tree or has no socket; without yank the tree stays |
| `PacketList.PacketList.Insert` | docker/radius/freeradius-server-3.2.2/src/lib/packet.c:487-495 | refuses a packet that compares equal to one in the tree |
| `PacketList.PacketList.Yank` | docker/radius/freeradius-server-3.2.2/src/lib/packet.c:572-585 | takes out exactly the packet that compares equal, and none for an unknown family |
| `PacketList.PacketList.FindByReply` | docker/radius/freeradius-server-3.2.2/src/lib/packet.c:512-569 | looks the made-up request up in the tree |
| `PacketList.RepliedExactly` | docker/radius/freeradius-server-3.2.2/src/lib/packet.c:512-569 | find_byreply returns the outstanding request that the reply answers, and nothing when it answers none |
| `PacketList.FreedIsStep` | docker/radius/freeradius-server-3.2.2/src/lib/packet.c:831-865 | freeing an outstanding request never fails, and keeps the invariant exactly when the request is yanked |
| `PacketList.FreedAfterYank` | docker/radius/freeradius-server-3.2.2/src/lib/packet.c:831-865 | yanking and then freeing without yank is freeing with yank |
| `HeapSpec.BubbleOrders` | docker/radius/freeradius-server-3.2.2/src/lib/heap.c:118-141 | bubbling up repairs a heap that is out of order at one element |
| `HeapSpec.DescendOrders` | docker/radius/freeradius-server-3.2.2/src/lib/heap.c:173-187 | moving the hole down to a leaf keeps everything around it in order |
| `HeapSpec.InsertOrders` | docker/radius/freeradius-server-3.2.2/src/lib/heap.c:92-115 | insertion keeps the heap order for any total preorder |
| `HeapSpec.InsertAdds` | docker/radius/freeradius-server-3.2.2/src/lib/heap.c:92-115 | insertion adds exactly the new element |
| `HeapSpec.ExtractOrders` | docker/radius/freeradius-server-3.2.2/src/lib/heap.c:147-204 | extraction from any position keeps the heap order |
| `HeapSpec.ExtractRemoves` | docker/radius/freeradius-server-3.2.2/src/lib/heap.c:147-204 | extraction removes exactly the element at that position |
| `HeapSpec.FirstIsLeast` | docker/radius/freeradius-server-3.2.2/src/lib/heap.c:207-215 | the first element is not after any other |
| `HeapSpec.InsertFirst` | docker/radius/freeradius-server-3.2.2/src/lib/heap.c:92-145 | an inserted element comes first exactly when it is not after the first one, so of equal elements the last one inserted |
| `HeapSpec.ExtractFirst` | docker/radius/freeradius-server-3.2.2/src/lib/heap.c:147-203 | which element comes first when the first has been extracted, also among equal ones |
| `Heap.Heap.Insert` | docker/radius/freeradius-server-3.2.2/src/lib/heap.c:92-115 | the array is the specified one, and every element stores its own position |
| `Heap.Heap.Extract` | docker/radius/freeradius-server-3.2.2/src/lib/heap.c:147-204 | the element at the stored position goes, its stored position becomes -1, all others store theirs; fails exactly for an empty heap, no offset, or a position out of bounds |
| `EventList.EventList.Insert` | docker/radius/freeradius-server-3.2.2/src/lib/event.c:207-266 | the slot has one pending timer, the new one, whether or not it had one before; refused exactly when tv_usec is too large |
| `EventList.EventList.Delete` | docker/radius/freeradius-server-3.2.2/src/lib/event.c:175-204 | the timer goes, and the slot it was known to is NULL, as is the slot that was given |
| `EventList.EventList.EarliestFirst` | docker/radius/freeradius-server-3.2.2/src/lib/event.c:283 | the first event of the heap is an earliest pending timer |
| `EventList.EventList.Run` | docker/radius/freeradius-server-3.2.2/src/lib/event.c:269-314 | runs and removes an earliest timer if it is due, else reports its time, or 0 when none is pending |
| `EventList.EventList.RunDue` | docker/radius/freeradius-server-3.2.2/src/lib/event.c:677-682 | with a fixed time exactly the due timers run, once each, in nondecreasing time, and the earliest remaining time is reported |
| `EventList.WaitTime` | docker/radius/freeradius-server-3.2.2/src/lib/event.c:624-642 | the subtraction gives the exact time to wait, normalized, and 0 exactly when the event is due |
| `EventList.TimeCmpIs` | docker/radius/freeradius-server-3.2.2/src/lib/event.c:88-99 | the comparison of times is that of their microseconds |
| `MerkleDamgard.AbsorbMore` | docker/radius/freeradius-server-3.2.2/src/lib/md5.c:99-134 | feeding more bytes is feeding what was left over followed by them, so chunking does not matter |
| `MerkleDamgard.PaddedWhole` | docker/radius/freeradius-server-3.2.2/src/lib/md5.c:153-159 | 0x80, zeros and eight bytes of length end on a block boundary, in as few blocks as hold them |
| `MerkleDamgard.PaddedAt` | docker/radius/freeradius-server-3.2.2/src/lib/md5.c:144-159 | the padded message byte by byte: the message, 0x80, only zero bytes, and the length in the last eight bytes, in whole blocks of 64 |
| `MerkleDamgard.AbsorbBlock` | docker/radius/freeradius-server-3.2.2/src/lib/md5.c:114-133 | feeding one more block is one more call of the compression function |
| `MerkleDamgard.Md5CountIff` | docker/radius/freeradius-server-3.2.2/src/lib/md5.c:107-113 | the 64-bit count is right exactly when the comparison with inlen sees a carry if and only if there is one |
| `MerkleDamgard.Md5CountSmall` | docker/radius/freeradius-server-3.2.2/src/lib/md4.c:139-145 | for chunks below 2^29 bytes the count is right exactly when there is no carry, or one that leaves few enough bits to be seen |
| `MerkleDamgard.CarryLost` | docker/radius/freeradius-server-3.2.2/src/lib/md5.c:107-113 | 2^29 - 1 bytes and then 2 more: the carry is lost |
| `MerkleDamgard.Md5CountsRight` | docker/radius/freeradius-server-3.2.2/src/lib/md5.c:107-113 | below 2^29 bytes in all the count is right, however they are cut up |
| `MerkleDamgard.Md5CountsIff` | docker/radius/freeradius-server-3.2.2/src/lib/md5.c:107-113 | however a message is cut up, the final count is right exactly when what the updates fall short of is a multiple of 2^32 |
| `MerkleDamgard.Md5ShortIs` | docker/radius/freeradius-server-3.2.2/src/lib/md5.c:107-113 | an update below 2^29 bytes falls short by one exactly when its carry is lost |
| `MerkleDamgard.Md5LostIff` | docker/radius/freeradius-server-3.2.2/src/lib/md5.c:107-113 | with every chunk below 2^29 bytes the final count is right exactly when the number of lost carries is a multiple of 2^32 |
| `MerkleDamgard.Sha1CountIff` | docker/radius/freeradius-server-3.2.2/src/lib/sha1.c:111-115 | the count is right exactly when the chunk is below 2^29 bytes or really carries |
| `MerkleDamgard.Sha1CountsIff` | docker/radius/freeradius-server-3.2.2/src/lib/sha1.c:111-115 | the same for SHA-1, whose updates can only count a carry too many |
| `MerkleDamgard.Sha1ShortIs` | docker/radius/freeradius-server-3.2.2/src/lib/sha1.c:111-115 | an update counts a carry too many exactly when it has 2^29 bytes or more and does not carry |
| `MerkleDamgard.Sha1CountsRight` | docker/radius/freeradius-server-3.2.2/src/lib/sha1.c:111-115 | with every chunk below 2^29 bytes the count is right modulo 2^64 |
| `MerkleDamgard.LengthField` | docker/radius/freeradius-server-3.2.2/src/lib/sha1.c:137-139 | the two words of the count make up the eight bytes of the length in either byte order |
| `MerkleDamgard.LittleEndianAt` | docker/radius/freeradius-server-3.2.2/src/lib/md5.c:144-148 | byte i of the length is the number divided by 256^i, modulo 256 |
| `MerkleDamgard.BigEndianAt` | docker/radius/freeradius-server-3.2.2/src/lib/sha1.c:137-139 | byte i of n is the number divided by 256^(n - 1 - i), modulo 256 |
| `MerkleDamgard.BytesBack` | docker/radius/freeradius-server-3.2.2/src/lib/sha1.c:137-139 | reading the bytes, highest first, gives the number back |
| `Md5.Context.Update` | docker/radius/freeradius-server-3.2.2/src/lib/md5.c:99-134 | state and buffer are those of everything fed so far |
| `Md5.Context.Final` | docker/radius/freeradius-server-3.2.2/src/lib/md5.c:144-167 | the result is the compression function folded over the padded message |
| `Md5.Calculate` | docker/radius/freeradius-server-3.2.2/src/lib/md5.c:26-34 | any sequence of updates gives the digest of the whole message (section 3 of RFC 1321), with the right length below 2^29 bytes |
| `Md4.Context.Update` | docker/radius/freeradius-server-3.2.2/src/lib/md4.c:132-174 | state and buffer are those of everything fed so far |
| `Md4.Context.Final` | docker/radius/freeradius-server-3.2.2/src/lib/md4.c:184-225 | the result is the compression function folded over the padded message |
| `Md4.PaddedTail` | docker/radius/freeradius-server-3.2.2/src/lib/md4.c:196-221 | padding in place feeds the last one or two blocks of the padded message |
| `Md4.Calculate` | docker/radius/freeradius-server-3.2.2/src/lib/md4.c:24-32 | any sequence of updates gives the digest of the whole message (section 3 of RFC 1320), with the right length below 2^29 bytes |
| `Sha1.Context.Update` | docker/radius/freeradius-server-3.2.2/src/lib/sha1.c:106-127 | state and buffer are those of everything fed so far |
| `Sha1.PadFits` | docker/radius/freeradius-server-3.2.2/src/lib/sha1.c:143-145 | the loop over zero bytes stops exactly when the length fits |
| `Sha1.Context.Final` | docker/radius/freeradius-server-3.2.2/src/lib/sha1.c:132-149 | the result is the compression function folded over the padded message, with the count taken before padding |
| `Sha1.Calculate` | docker/radius/freeradius-server-3.2.2/src/lib/sha1.c:106-149 | any sequence of updates gives the digest of the whole message (section 5.1.1 of FIPS 180-4), with the right length for chunks below 2^29 bytes and a total below 2^64 bits |
| `Base64.SplitGroup` | docker/radius/freeradius-server-3.2.2/src/lib/base64.c:54-57 | the shifts and masks of the encoder take the four sextets out of a group of three bytes |
| `Base64.AlphabetIs` | docker/radius/freeradius-server-3.2.2/src/lib/base64.c:45 | the characters written are those of Table 1 of RFC 3548 |
| `Base64.AlphabetOnly` | docker/radius/freeradius-server-3.2.2/src/lib/base64.c:221-224 | exactly those 64 characters are accepted, each for its place in the table |
| `Base64.BytesValue` | docker/radius/freeradius-server-3.2.2/src/lib/base64.c:270-272 | the shifts and masks of the decoder put three bytes together out of four sextets |
| `Base64.EncodedSextets` | docker/radius/freeradius-server-3.2.2/src/lib/base64.c:43-66 | encoded text is well formed, has the documented length and decodes to the data |
| `Base64.Encode` | docker/radius/freeradius-server-3.2.2/src/lib/base64.c:43-66 | writes the encoding of section 3 of RFC 3548 and a NUL, or returns -1 exactly when they do not fit |
| `Base64.QuantumSextets` | docker/radius/freeradius-server-3.2.2/src/lib/base64.c:257-258 | four alphabet characters in front are the first four sextets |
| `Base64.Decode` | docker/radius/freeradius-server-3.2.2/src/lib/base64.c:247-315 | succeeds exactly on full quanta, then 0, 2 or 3 alphabet characters, then only =, with enough room; gives their bytes; every error is below zero |
| `Base64.Finish` | docker/radius/freeradius-server-3.2.2/src/lib/base64.c:277-314 | the last quantum and the padding: what is accepted, and the bytes written |
| `Base64.DecLengthFits` | docker/radius/freeradius-server-3.2.2/src/include/base64.h:29-30 | the documented buffer is large enough for what was encoded |
| `Base64.DecLengthTight` | docker/radius/freeradius-server-3.2.2/src/include/base64.h:30 | it has exactly one byte more than the decoder needs for full quanta |
| `Base64.RoundTrip` | docker/radius/freeradius-server-3.2.2/src/lib/base64.c:43-315 | decoding undoes encoding for every byte string, into a buffer of the documented length |
| `Base64.ThereAndBack` | docker/radius/freeradius-server-3.2.2/src/lib/base64.c:43-315 | through the two buffers the data comes back |
| `InetChecksum.FoldIs` | docker/radius/freeradius-server-3.2.2/src/lib/net.c:67-69 | adding carries until there are none ends, and gives the remainder by 65535 between 1 and 65535, or 0 for 0 |
| `InetChecksum.FoldKeepsRemainder` | docker/radius/freeradius-server-3.2.2/src/lib/net.c:67-69 | folding keeps the sum modulo 65535 |
| `InetChecksum.ByteOrder` | docker/radius/freeradius-server-3.2.2/src/lib/net.c:57-69 | swapping the bytes of all words swaps the bytes of the result (section 2(B) of RFC 1071) |
| `InetChecksum.UdpVerifies` | docker/radius/freeradius-server-3.2.2/src/lib/net.c:39-72 | writing the returned value into a zeroed aligned field makes the datagram check to 0 |
| `InetChecksum.UdpVerifiesIff` | docker/radius/freeradius-server-3.2.2/src/lib/net.c:39-72 | a datagram checks to 0 exactly when its sum is a multiple of 65535 |
| `InetChecksum.UdpExpected` | docker/radius/freeradius-server-3.2.2/src/lib/net.c:65-71 | given the current checksum, the one that belongs in the field is returned |
| `InetChecksum.UdpSumIs` | docker/radius/freeradius-server-3.2.2/src/lib/net.c:49-55 | what is added up is the twelve bytes of the pseudo header of RFC 768 in network order, and the datagram |
| `InetChecksum.OddByte` | docker/radius/freeradius-server-3.2.2/src/lib/net.c:61-63 | a last odd byte counts as if a zero byte stood in front of it; that agrees with RFC 1071 exactly when it is zero |
| `InetChecksum.UdpSubtracts` | docker/radius/freeradius-server-3.2.2/src/lib/net.c:65 | subtracting a checksum larger than the sum wraps around and adds one, and only then |
| `InetChecksum.TwiceIsEnough` | docker/radius/freeradius-server-3.2.2/src/lib/net.c:91-93 | folding twice without a loop is enough for as many words as a header can have |
| `InetChecksum.IpHeaderVerifies` | docker/radius/freeradius-server-3.2.2/src/lib/net.c:81-94 | writing the returned value into the zeroed field makes the header check to 0 |
| `InetChecksum.Udp` | docker/radius/freeradius-server-3.2.2/src/lib/net.c:39-72 | the loops compute the folded complement of pseudo header and datagram less the current checksum |
| `InetChecksum.IpHeader` | docker/radius/freeradius-server-3.2.2/src/lib/net.c:81-94 | the loop computes the folded complement of the header words |
| `Oid.KeptIff` | docker/radius/freeradius-server-3.2.2/src/lib/dict.c:2862-2870 | printing up to the first zero keeps the attribute exactly when no number follows a zero |
| `Oid.TlvNumbers` | docker/radius/freeradius-server-3.2.2/src/lib/dict.c:1549-1592 | parsing the printed numbers packs them again, up to the first zero |
| `Oid.PlainIff` | docker/radius/freeradius-server-3.2.2/src/lib/dict.c:1391-1599 | exactly which attributes without a vendor come back from printing and parsing |
| `Oid.VendorIff` | docker/radius/freeradius-server-3.2.2/src/lib/dict.c:1391-1599 | exactly which vendor attributes come back |
| `Oid.ExtendedIff` | docker/radius/freeradius-server-3.2.2/src/lib/dict.c:1391-1599 | exactly which attributes of the extended space come back, with or without a vendor |
| `Oid.RoundTripIff` | docker/radius/freeradius-server-3.2.2/src/lib/dict.c:2807-2873 | dict_str2oid of print_attr_oid gives (attr, vendor) back exactly for the attributes that survive |
| `OidText.ShowBack` | docker/radius/freeradius-server-3.2.2/src/lib/dict.c:1343-1372 | what was printed for a number is read as that number |
| `OidText.DigitIff` | docker/radius/freeradius-server-3.2.2/src/lib/dict.c:1343-1372 | the digits are those of the table, in upper and lower case, as many as the base has |
| `OidText.NumberIs` | docker/radius/freeradius-server-3.2.2/src/lib/dict.c:1343-1372 | a number is read as decimal, or as hexadecimal after 0x or 0X, modulo 2^32 |
| `OidText.TokensBack` | docker/radius/freeradius-server-3.2.2/src/lib/dict.c:2862-2870 | dotted text is read as the numbers it was made of |
| `OidText.TextRoundTripIff` | docker/radius/freeradius-server-3.2.2/src/lib/dict.c:2807-2873 | the same round trip, on text |
| `OidText.SscanfI` | docker/radius/freeradius-server-3.2.2/src/lib/dict.c:1343-1372 | the number in front of the first dot, decimal or hexadecimal, modulo 2^32 |
| `OidText.PrintAttrOid` | docker/radius/freeradius-server-3.2.2/src/lib/dict.c:2807-2873 | the loops print the specified numbers |
| `OidText.StrToOid` | docker/radius/freeradius-server-3.2.2/src/lib/dict.c:1391-1599 | the jumps and loops parse as specified |
| `OidText.PrintAndParse` | docker/radius/freeradius-server-3.2.2/src/lib/dict.c:2807-2873 | through the two functions an attribute comes back exactly when it survives |
| `OidTree.NestedParentIff` | docker/radius/freeradius-server-3.2.2/src/lib/dict.c:683-689 | dict_parent of dict_attr_child is the parent exactly when the vendor may nest and the number is not zero in the bits its level has |
| `OidTree.ExtendedParentIff` | docker/radius/freeradius-server-3.2.2/src/lib/dict.c:646-716 | below an extended base dict_attr_child makes a key whose parent is the base exactly when it has no vendor and the number fits in a byte |
| `OidTree.StripAdded` | docker/radius/freeradius-server-3.2.2/src/lib/dict.c:683-689 | a number added at a free level is what dict_parent strips |
| `OidParents.ParseAdds` | docker/radius/freeradius-server-3.2.2/src/lib/dict.c:1549-1592 | one more number in the text starts an extended attribute exactly after one alone; otherwise it adds that number at the next level, or changes nothing |
| `OidParents.StripAddedIff` | docker/radius/freeradius-server-3.2.2/src/lib/dict.c:683-689 | dict_parent strips the number added last exactly when nothing else was at its level or above |
| `OidParents.TextParentIff` | docker/radius/freeradius-server-3.2.2/src/lib/dict.c:1567-1577 | what the debugging code checks, for every text and every further number: exactly when dict_parent leads from its attribute to that of the text without the last number |
| `OidParents.VendorParentIff` | docker/radius/freeradius-server-3.2.2/src/lib/dict.c:1567-1577 | for all vendors but DHCP with wide types that is exactly when the vendor may nest, and below an extended attribute when it has one byte |
| `OidParents.NestIff` | docker/radius/freeradius-server-3.2.2/src/lib/dict.c:3237-3250 | dict_attr_child adds a number at a level exactly when the deepest number is at the level above |
| `OidParents.TextChildIff` | docker/radius/freeradius-server-3.2.2/src/lib/dict.c:3182-3260 | for every text and every further number: exactly when dict_attr_child of its attribute and the number is the attribute of the longer text |
| `OidParents.DhcpParentMissed` | docker/radius/freeradius-server-3.2.2/src/lib/dict.c:1529-1541 | 26.54.256.2 of a two-byte DHCP dictionary: dict_parent gives 0, not 256 |
| `OidParents.SixRdParentMissed` | docker/radius/freeradius-server-3.2.2/src/lib/dict.c:654-664 | 173.4 parses, and dict_parent finds no parent for it |
| `OidParents.SixRdChildDiffers` | docker/radius/freeradius-server-3.2.2/src/lib/dict.c:3225-3228 | below 173, dict_attr_child makes another attribute than the text stands for |
| `OidCases.OneNumberIs` | docker/radius/freeradius-server-3.2.2/src/lib/dict.c:1425-1431 | one number is an attribute without a vendor |
| `OidCases.Refused` | docker/radius/freeradius-server-3.2.2/src/lib/dict.c:1400-1499 | what is refused: a malformed number, 26 and a vendor alone, and levels that are too deep or below nothing |
| `OidCases.StandardCases` | docker/radius/freeradius-server-3.2.2/src/lib/dict.c:1444-1469 | what may follow a number of the standard space: anything, ignored, when it is not registered; nothing when it is, except for 173 and the extended ones |
| `OidCases.VendorNumber` | docker/radius/freeradius-server-3.2.2/src/lib/dict.c:1516-1545 | which numbers of a vendor are accepted: by the size of its type |
| `OidCases.ExtendedNumber` | docker/radius/freeradius-server-3.2.2/src/lib/dict.c:1473-1507 | a number below an extended attribute is a byte |
| `OidCases.FiveNumbers` | docker/radius/freeradius-server-3.2.2/src/lib/dict.c:1549-1592 | the numbers of five levels: their limits 255, 255, 255, 31 and 7, and where their bits go |
| `OidCases.NestedParent` | docker/radius/freeradius-server-3.2.2/src/lib/dict.c:668-689 | a nested attribute has a parent exactly for DHCP and for vendors with types and lengths of one byte |
| `OidCases.NoParent` | docker/radius/freeradius-server-3.2.2/src/lib/dict.c:646-698 | a vendor's own attribute, a standard attribute and 173 have none |
| `OidCases.AtLevelIff` | docker/radius/freeradius-server-3.2.2/src/lib/dict.c:3237-3247 | the masks of dict_attr_child see a number at a level exactly when unpacking gives one |
| `OidCases.ChildIs` | docker/radius/freeradius-server-3.2.2/src/lib/dict.c:3209-3250 | the child of a vendor's attribute and of one without a vendor, bit by bit |
| `OidTree.DictParent` | docker/radius/freeradius-server-3.2.2/src/lib/dict.c:646-716 | the loop over the parent masks finds the key of the deepest proper ancestor, or none |
| `OidTree.DictChild` | docker/radius/freeradius-server-3.2.2/src/lib/dict.c:3182-3260 | the loop over the masks puts the number below the deepest one, or refuses |
| `SideBarTree.SortSorts` | frontend/src/store/modules/sideBarTree.js:24-25 | sorting gives the same elements in label order |
| `SideBarTree.SortAgain` | frontend/src/store/modules/sideBarTree.js:19-25 | sorting after every push is sorting once |
| `SideBarTree.SortStable` | frontend/src/store/modules/sideBarTree.js:25 | sorting keeps the order of elements with the same label |
| `SideBarTree.ListToTree` | frontend/src/store/modules/sideBarTree.js:6-28 | succeeds exactly when every parent id but the root one is there; the result are the roots in list order, and every element has its children, sorted by label |
| `SideBarTree.AddChild` | frontend/src/store/modules/sideBarTree.js:19-25 | pushing and sorting one child |
| `SideBarTree.FindPidOfRoot` | frontend/src/store/modules/sideBarTree.js:49-58 | the parent id of the first element whose parent is not in the list, or undefined when there is none |
| `SideBarList.FlatStep` | frontend/src/store/modules/sideBarTree.js:37-44 | one turn of the loop keeps the breadth-first invariant: put out, parents first, and queued are exactly the roots and the children of what was put out |
| `SideBarList.ChildrenAre` | frontend/src/store/modules/sideBarTree.js:19-25 | the children array of an element holds exactly its children, sorted by label |
| `SideBarList.RootsInOrder` | frontend/src/store/modules/sideBarTree.js:12-18 | the roots come in the order of the list |
| `SideBarList.KidsInOrder` | frontend/src/store/modules/sideBarTree.js:19-23 | before sorting, the children are in the order of the list |
| `SideBarList.TreeToList` | frontend/src/store/modules/sideBarTree.js:30-46 | what comes out is the tree followed by the children of everything that is put out, in that order, and no children are left |
| `SideBarList.PermutationIff` | frontend/src/store/modules/sideBarTree.js:30-46 | what comes out is a permutation of the list exactly when the parent relation has no cycles |
| `SideBarList.ThereAndBack` | frontend/src/store/modules/sideBarTree.js:6-58 | from the list to the tree and back |

## Left out

What the model takes as given or does not have:

- Null-pointer guards of the C functions, failure of malloc and talloc, and freeing: allocation succeeds.
- The 256-entry tables of `hash.c` and `base64.c` are the rules that generate them.
- `HashTable.HashTable.Insert`: needs fewer than 1342177279 elements, where `next_grow` still fits a C int.
- `HashTable.HashTable.Replace`: needs the same bound, and does not call the free callback.
- `HashRun.RunRefines`: runs in which no new item is larger than a stored item with its hash, as `HashRun.AllowedRunIff` says exactly; what a table does after an item has been lost is not described.
- `HashTable.HashTable.Walk`: the callback is a function of the data; callbacks that change the table are not modelled.
- `HashTable.HashTable.Next`: the iterator's two fields are passed in and out instead of being kept in a record.
- Memory orders weaker than sequential consistency in the queue, and wrap-around of 64-bit tickets; the queue is a state machine, not a class.
- The red-black tree is a map ordered by what `fr_packet_cmp` compares; random numbers are any numbers.
- `WITH_TCP` and `WITH_DHCP` are on, and attribute 173 is the IPv6-6rd-Configuration of the dictionary.
- `PacketList.PacketList.Insert`: needs known address families; the source would insert a packet of another family, and never find it.
- `PacketList.PacketList.IdAlloc`: needs the invariant, which every run of the operations keeps.
- `PacketSpec.RunKeeps`: runs that add distinct descriptors with known destination families and free outstanding requests.
- `EventList.EventList.Insert`: the slot is NULL or holds an event of this list that knows it as its slot.
- `EventList.EventList.RunDue`: the time is fixed, and callbacks are returned in order instead of being called, so they cannot change the list.
- The file-descriptor readers and the select or kevent call of `event.c`.
- The compression functions of the digests, the initial values and wiping of contexts.
- `Sha1.Context.Update`: chunks of less than 2^32 - 64 bytes, so that its 32-bit index does not wrap.
- `Base64.Encode`: the buffer has at least one byte, as the code writes one even when it reports -1.
- `OidText.PrintAttrOid`: the buffer is large enough for the text.
- `OidTree.DictParent`: the key that is looked up, not whether that attribute is registered.
- `OidTree.DictChild`: the parent's type is one that can have children.
- `InetChecksum.Udp`: words in memory are those of a little-endian machine; for an odd length the last byte is shifted, as in the code, and agreement with RFC 1071 is only claimed for even lengths.
- `SideBarTree.ListToTree`: ids are integers, and the comparison of labels is any total preorder; the result for duplicate ids is not described.
- `SideBarList.ThereAndBack`: the ids are unique and no element has children at first.
- The dictionary file parser, pools and flag checks of `dict.c`, and its other look-ups.
- HMAC, ISAAC and the other users of the digests.
- `cursor.c`, `fifo.c`, `cbuff.c`, `filters.c`, `jlibtool.c`: easier, or without a specification that the code meets.
- The network clients, Vue components, routing and scripts of the rest of the repository.

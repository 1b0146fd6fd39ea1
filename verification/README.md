# A verified model of YaNFD's tables and protocol machines

YaNFD is a forwarding daemon for Named Data Networking. Its tables are fast, pointer-rich structures
that have to behave like something simple. This project models them as stateful classes in the form
of the source, gives each the simple thing as a specification, and proves that every operation, and
every run of operations, keeps the two in agreement.

| module | what it models |
|---|---|
| `Names` | names, their prefixes and hashes |
| `FibSpec`, `HashFib`, `TreeFib`, `FibAgreement` | the FIB-Strategy table as a flat map; the two-stage hash table with virtual nodes; the name tree; that they answer alike |
| `RibSpec`, `Rib`, `RibAgreement` | the Routing Information Base, its self-pruning tree, and the calls that it makes on either FIB |
| `PriorityQueue`, `DeadNonceList` | the indexed binary heap, and the list of dead nonces on top of it |
| `CsLru`, `PitCs` | the replacement policy of the Content Store, and the tree of pending Interests and cached Data |
| `VarNum`, `TlvBlock`, `BlockObjects` | TLV numbers, block trees and their encoding, and block objects with cached encodings |
| `StreamReceiver`, `Fragmentation` | the receive loop of stream transports, and NDNLPv2 fragmentation and reassembly |
| `UriName`, `NameOrder` | names as URIs, and the canonical order |
| `Sharding`, `Forwarder` | the dispatch to forwarding threads, and a thread's pipelines with the balance of Interests and Data |

Codecs and orders are those of the NDN Packet Format Specification, sections "Variable-Size Encoding
for Type and Length", "Non-Negative Integer Encoding", "NDN URI Scheme" and "Canonical Order". The
two-stage lookup is that of So, Narayanan and Oran, ANCS 2013, section 2.3.

Maps that the source iterates over are visited in an arbitrary order, the clock and the network are
parameters, and panics of the source are results. `dafny verify dfyconfig.toml` checks everything.

## Model

| member | source | states |
|---|---|---|
| FibSpec.LongestMatchMeaning | table/fib-strategy-hashtable.go:71-112 | the longest match is a key and a prefix of the name, and every other key that is a prefix of the name is a prefix of it |
| FibSpec.FindMeaning | table/fib-strategy-hashtable.go:230-276 | a lookup answers with the nexthops (the strategy) of a prefix of the name that has some, such that no longer prefix has any; or with none, if no prefix has any |
| FibSpec.ApplyMeaning | table/fib-strategy-hashtable.go:279-373 | face by face and name by name what each operation does: a removal takes this face from this name's nexthops and leaves the other faces their costs, an insertion sets one cost, a clearing leaves none, and a strategy comes or goes at one name only |
| FibSpec.PutHop | table/fib-strategy-hashtable.go:283-297 | the insertion loop updates the cost of a listed face or appends it: the list then holds the old faces and costs with this one replaced, each face once |
| HashFib.FibStrategyHashTable.constructor | table/fib-strategy-hashtable.go:55-69 | a new table means the empty map with the default strategy at the empty name |
| HashFib.FibStrategyHashTable.FindLongestPrefixMatch | table/fib-strategy-hashtable.go:74-112 | the two-stage search, bounded by the virtual node's md, gives the real entry of the longest real prefix of any name, and nothing exactly if there is none |
| HashFib.FibStrategyHashTable.LongerThanMdAbsent | table/fib-strategy-hashtable.go:83-105 | why stopping at md loses nothing: no real name that extends the virtual name is a longer prefix than md |
| HashFib.FibStrategyHashTable.InsertEntry | table/fib-strategy-hashtable.go:117-163 | exactly which real and virtual entries there are afterwards; the three maps stay consistent and mean the same |
| HashFib.FibStrategyHashTable.PruneTables | table/fib-strategy-hashtable.go:169-228 | the name's entry goes exactly if it holds no nexthop and no strategy, which is if the flat map has nothing for the name; it is unlisted below its virtual node, and that goes exactly if nothing is listed any more and md is the name's length; the three maps stay consistent and mean the same |
| HashFib.FibStrategyHashTable.RaiseToListed | table/fib-strategy-hashtable.go:217-223 | the loop that is to update md after a removal never changes it |
| HashFib.FibStrategyHashTable.FindNextHops | table/fib-strategy-hashtable.go:230-252 | lists, each face once, the nexthops of the longest prefix that has any in the flat map |
| HashFib.FibStrategyHashTable.FindStrategy | table/fib-strategy-hashtable.go:255-276 | gives the strategy of the longest prefix that has one in the flat map |
| HashFib.FibStrategyHashTable.InsertNextHop | table/fib-strategy-hashtable.go:279-299 | the flat map afterwards has the face with this cost at the name, and is the same elsewhere; all invariants are kept |
| HashFib.FibStrategyHashTable.ClearNextHops | table/fib-strategy-hashtable.go:302-312 | the name has no nexthops afterwards; its strategy and all other names are as before |
| HashFib.FibStrategyHashTable.RemoveNextHop | table/fib-strategy-hashtable.go:315-337 | a face is among the name's nexthops afterwards exactly if it was and is not this one, with the cost it had, although the list is reordered; all other names and strategies are as before |
| HashFib.FibStrategyHashTable.SetStrategy | table/fib-strategy-hashtable.go:355-361 | the strategy of this name is set in the flat map |
| HashFib.FibStrategyHashTable.UnSetStrategy | table/fib-strategy-hashtable.go:364-373 | the strategy of this name is gone from the flat map, and its entry from the tables exactly if it has no nexthops |
| HashFib.NodeLeftBehind | table/fib-strategy-hashtable.go:205-217 | with the last name listed below it a virtual node is left behind, listing nothing, if and only if that name is shorter than md |
| HashFib.LeaveNodeBehind | table/fib-strategy-hashtable.go:205-217 | the input: /a/b/c and /a/b come and go in this order, and the node of /a stays with md 3 |
| TreeFib.FibStrategyTree.FindExactMatch | table/fib-strategy-tree.go:50-64 | the recursive search gives the node of this very name if that is in the tree, else nothing |
| TreeFib.FibStrategyTree.FindLongestPrefix | table/fib-strategy-tree.go:66-78 | the recursive search gives the node of the longest prefix that is in the tree |
| TreeFib.FibStrategyTree.FillTreeToPrefix | table/fib-strategy-tree.go:80-93 | adds the missing nodes on the way to a name; the tree stays well formed and means the same |
| TreeFib.FibStrategyTree.PruneIfEmpty | table/fib-strategy-tree.go:95-124 | takes out exactly the node it starts from, if nothing is in it or below it; emptied ancestors stay (the loop compares with the first node); the tree stays well formed and means the same |
| TreeFib.FibStrategyTree.FindNextHops | table/fib-strategy-tree.go:127-146 | lists, each face once, the nexthops of the longest prefix that has any in the flat map |
| TreeFib.FibStrategyTree.FindStrategy | table/fib-strategy-tree.go:149-168 | gives the strategy of the longest prefix that has one in the flat map |
| TreeFib.FibStrategyTree.InsertNextHop | table/fib-strategy-tree.go:171-190 | the flat map has the face with this cost at the name, and is the same elsewhere |
| TreeFib.FibStrategyTree.ClearNextHops | table/fib-strategy-tree.go:193-205 | the name has no nexthops afterwards; without a name nothing happens |
| TreeFib.FibStrategyTree.RemoveNextHop | table/fib-strategy-tree.go:208-227 | a face is among the name's nexthops afterwards exactly if it was and is not this one, with the cost it had, whatever nodes are pruned; all other names and strategies are as before |
| TreeFib.FibStrategyTree.SetStrategy | table/fib-strategy-tree.go:255-263 | the strategy of this name is set in the flat map |
| TreeFib.FibStrategyTree.UnSetStrategy | table/fib-strategy-tree.go:266-274 | the strategy of this name is gone from the flat map |
| FibAgreement.RunBoth | table/fib-strategy-hashtable.go:279-373 | after any common run of operations on named entries the hash table and the tree both mean what the flat map does after that run; unless a strategy was set that is none, the real table has no entry that holds nothing |
| FibAgreement.SameAnswers | table/fib-strategy-hashtable.go:230-276 | from new tables, for every run and every query, the hash table and the tree answer with the same strategy and the same set of nexthops, those of the flat map, each face once |
| RibSpec.MinCostsMeaning | table/rib.go:114-121 | the loop's result has a face exactly if a route is on it, with a cost that one of its routes has and none is below |
| RibSpec.SetRouteKeepsUnique | table/rib.go:140-156 | adding or updating a route keeps (face, origin) unique in an entry |
| RibSpec.SetRouteMeaning | table/rib.go:140-156 | the routes have the added one afterwards, in the place of the one of its face and origin or at the end, and all others as before |
| RibSpec.DropKeyMeaning | table/rib.go:186-201 | the route of this face and origin goes, and no other |
| RibSpec.DropFirstMeaning | table/rib.go:214-221 | the first route on the face goes, whatever its origin, and no other |
| RibSpec.CleanUpComplete | table/rib.go:203-224 | after CleanUpFace no route on the face is left if and only if no prefix held two routes on it |
| RibSpec.CleanUpCompleteHops | table/rib.go:203-224 | the same for the nexthops that the routes flatten to |
| RibSpec.CleanUpLeavesARoute | table/rib.go:214-221 | the input: one prefix with two routes on a face, from two origins, keeps the second one |
| RibSpec.RootLosesHops | table/rib.go:186-200 | the input: routes at the empty name and at /a/b, then a withdrawal at /a; the empty name's route stays, its nexthops in the hash table are gone |
| Rib.EntriesAre | table/rib.go:105-109 | a pruned tree holds exactly the prefixes of names with routes, and the root |
| Rib.RibTable.constructor | table/rib.go:60-65 | an empty RIB in front of a FIB without nexthops |
| Rib.RibTable.FindExactMatch | table/rib.go:81-92 | gives the entry of this very name if that is in the tree, else nothing |
| Rib.RibTable.FindLongestPrefix | table/rib.go:94-103 | gives the entry of the longest prefix in the tree |
| Rib.RibTable.FillTreeToPrefix | table/rib.go:67-80 | adds the missing entries, nameless, on the way to a name |
| Rib.RibTable.PruneIfEmpty | table/rib.go:105-110 | takes out an entry without children and routes, and then the ancestors that become so; no route and no other entry is touched, also for an entry that has been taken out before |
| Rib.FibStrategy.UpdateNexthops | table/rib.go:111-127 | the calls leave the name's nexthops equal to the least cost per face in tree and hash table; for a nameless entry the tree stays as it was and the hash table loses the nexthops of the empty name |
| Rib.RibTable.AddRoute | table/rib.go:130-156 | the name's routes have this one, in the place of the one of its face and origin or at the end, and all other routes are as before; the tree is well formed with no useless leaf, and both tables' nexthops are what the routes flatten to (but for a lost empty name) |
| Rib.RibTable.RemoveRoute | table/rib.go:186-201 | just the route of this face and origin goes, whether or not it or the entry was there; the same is kept, and it says exactly when the empty name's nexthops get lost |
| Rib.RibTable.CleanUp | table/rib.go:204-224 | from the routes of every name just the first one on the face goes, by the recursive clean-up with pruning on the way and children in any order; the same is kept |
| RibAgreement.RunRib | table/rib.go:130-224 | every run of RIB operations does what the flat history says: routes, named entries, and whether the empty name's nexthops are lost |
| RibAgreement.DriveTables | table/rib.go:111-127 | replaying the RIB's calls leaves the tree with what the routes flatten to; the hash table has that if and only if nothing was lost or there was nothing to lose |
| RibAgreement.NextHopsFromRoutes | table/rib.go:111-127 | the nexthops that the tree gives for any name are the least costs per face at its longest prefix with a route; the hash table gives the same, without the empty name's if they are lost |
| PriorityQueue.RootIsLeast | utils/heap/heap.go:59-65 | in a heap the first item has the least priority |
| PriorityQueue.Queue.Swap | utils/priority_queue/priority-queue.go:29-33 | two items change places, and each still knows its index |
| PriorityQueue.Queue.Up | utils/heap/heap.go:89-98 | an item that may be too small for its place moves up until the queue is a heap; the items are the same |
| PriorityQueue.Queue.Down | utils/heap/heap.go:100-118 | an item that may be too large moves down until the first n items are a heap below it, or all of them if it moved; says whether it moved; the items behind are untouched |
| PriorityQueue.Queue.Fix | utils/heap/heap.go:83-87 | after any change of one item's priority the queue is a heap again, with the same items and right indices |
| PriorityQueue.Queue.Push | utils/priority_queue/priority-queue.go:57-64 | the heap holds one more (object, priority), and the index given back is where it is |
| PriorityQueue.Queue.Pop | utils/priority_queue/priority-queue.go:77-80 | gives an object of least priority and takes out exactly that item |
| PriorityQueue.Queue.Update | utils/priority_queue/priority-queue.go:83-92 | replaces object and priority at any index, keeps the other items, and gives back the item's new index |
| PriorityQueue.Drain | utils/priority_queue/priority-queue.go:77-80 | popping until the queue is empty gives all it held, sorted by priority |
| DeadNonceList.KeysClash | table/dead-nonce-list.go:35-42 | exactly which (name hash, nonce) pairs the list cannot tell apart, the sum being taken in 64 bits |
| DeadNonceList.DeadNonceList.Insert | table/dead-nonce-list.go:41-50 | says whether the hash was there; if not it gets the expiry now + lifetime; set and heap hold the same hashes, each once |
| DeadNonceList.DeadNonceList.RemoveExpiredEntries | table/dead-nonce-list.go:53-64 | removes only hashes that had expired when looked at, earliest first, at most 100; below 100 none is left that had expired at the last reading |
| DeadNonceList.RunNonces | table/dead-nonce-list.go:34-64 | over any run nothing that is unexpired at its latest clock reading is lost or changed, and nothing appears that was not inserted |
| DeadNonceList.FoundWhileItLasts | table/dead-nonce-list.go:34-64 | a nonce that was new when inserted is found through its lifetime, whatever is inserted or cleaned up meanwhile |
| CsLru.UsedLast | table/cs-lru.go:33-61 | taking an index out of the list and adding it at the end keeps the list free of duplicates and in the order of last use |
| CsLru.CsLRU.AfterInsert | table/cs-lru.go:33-36 | the index comes last; a location left over from an evicted index does no harm |
| CsLru.CsLRU.MoveToBack | table/cs-lru.go:38-61 | after a refresh or a use the index is last and all others keep their order, also when its old location is out of the list |
| CsLru.CsLRU.RemoveFront | table/cs-lru.go:64-68 | takes out the index that was inserted, refreshed or used longest ago |
| PitCs.PitCsTree.FillTreeToPrefix | table/pit-cs-tree.go:333-347 | adds the missing nodes on the way to a name; the tree is well formed and holds what it held |
| PitCs.PitCsTree.PruneIfEmpty | table/pit-cs-tree.go:353-358 | from the node upwards just those nodes go that hold nothing any more, up to the first that holds something, or the root; all others stay, with what they hold |
| PitCs.PitCsTree.InsertInterest | table/pit-cs-tree.go:134-175 | gives the one entry of (name, CanBePrefix, MustBeFresh, hint), new if there was none, and a duplicate exactly if another face's record has the nonce; counter, token map and lists stay in step |
| PitCs.PitCsTree.RemoveInterest | table/pit-cs-tree.go:179-196 | removes exactly this entry, by swap-delete, and says whether it was there; pruning loses nothing else |
| PitCs.PitCsTree.FindInterestPrefixMatchByData | table/pit-cs-tree.go:222-243 | without a token: each entry that the Data satisfies, once, longest names first, and no other; with a token: the entry that has it |
| PitCs.UpwardMeaning | table/pit-cs-tree.go:232-243 | walking up from a node collects exactly the usable entries at the node's name and its prefixes, deepest first |
| PitCs.UpwardIsAll | table/pit-cs-tree.go:324-331 | starting from the longest prefix in the tree misses no entry that the Data satisfies |
| PitCs.PitCsTree.InsertData | table/pit-cs-tree.go:391-428 | Data is refreshed or added, stale after its freshness period or at once without one; its index comes last in the order, and of the rest the most recently used are kept, as many as fit; index map, nodes, order and counter describe the same Data |
| PitCs.PitCsTree.EraseCsData | table/pit-cs-tree.go:431-437 | takes one index out of the map and the Data out of its node, and nothing else |
| PitCs.PitCsTree.EvictEntries | table/cs-lru.go:63-69 | evicts oldest use first until the store is within its capacity; just the newest part of the order is left |
| PitCs.PitCsTree.NewestMeaning | table/cs-lru.go:62-70 | no more is evicted than must be: what is left is the end of the order, as long as the capacity allows |
| PitCs.PitCsTree.FindMatchingDataFromCs | table/pit-cs-tree.go:372-388 | finds cached Data for an Interest if and only if a scan of all cached Data would (name equal, or prefix with CanBePrefix; fresh if demanded); an exact use moves it to the end of the order |
| PitCs.InsertAndFind | table/pit-cs-tree.go:372-428 | Data just inserted is kept exactly if the capacity is not zero; a later lookup of its name for fresh Data finds it if and only if its freshness period is not over, which without one it is at once, and a lookup for any Data finds it |
| PitCs.PitCsTree.FindMatchingDataCsPrefix | table/pit-cs-tree.go:444-463 | searches the whole subtree: it gives acceptable Data at or below the node, or there is none |
| PitCs.PitCsTree.SizesAgree | table/pit-cs-tree.go:246-253 | nPitEntries is the size of the token map and the sum of the nodes' lists; nCsEntries is the size of the index map and of the order, and within the capacity |
| PitCs.PitCsTree.PathsKept | table/pit-cs-tree.go:353-358 | every node on the way to a pending entry or to cached Data is in the tree |
| VarNum.DecodeVarNum | ndn/tlv/helpers.go:42-65 | succeeds exactly if there are as many bytes as the first one tells, and uses that many |
| VarNum.VarNumBack | ndn/tlv/helpers.go:19-65 | every 64-bit number comes back from its encoding, whatever follows, with its number of bytes |
| VarNum.PrefixCode | ndn/tlv/helpers.go:19-65 | two encodings with something behind are equal only for the same number and the same rest |
| VarNum.ShortestVarNum | ndn/tlv/helpers.go:42-65 | of all byte strings that decode to a number the encoding is the shortest, and the only one of its length |
| VarNum.NniBack | ndn/tlv/helpers.go:68-143 | every number comes back from its non-negative-integer encoding |
| VarNum.NniAccepts | ndn/tlv/helpers.go:131-143 | decoded bytes are the encoding of their number if and only if they have its length: longer forms and the lengths 3, 5, 6, 7 are taken too |
| VarNum.NumbersOnTheWire | ndn/tlv/helpers.go:42-65 | which number one, three, five and nine bytes are, most significant byte first, whatever follows |
| VarNum.NnisOnTheWire | ndn/tlv/helpers.go:131-143 | which number one, two, four and eight bytes are |
| VarNum.HeaderBack | ndn/tlv/helpers.go:145-162 | type and length of any size come back from a header: types of more than 32 bits are refused, lengths from 2^63 on are negative |
| TlvBlock.FrameBack | ndn/tlv/block.go:304-341 | type, length and value are decoded from their encoding, whatever follows, and exactly these bytes are used |
| TlvBlock.FrameHeader | ndn/tlv/helpers.go:145-162 | the header decoder finds the type, the length of the content and the size of the whole encoding, whatever follows |
| TlvBlock.NameOnTheWire | ndn/tlv/block.go:249-290 | the Name /a is 07 03 08 01 61 |
| TlvBlock.ParseBack | ndn/tlv/block.go:215-227 | the value of a node parses into just its subelements |
| TlvBlock.TreeBack | ndn/tlv/block.go:215-341 | nested round trip: encoding a block tree and decoding it level by level gives the tree back |
| TlvBlock.WireTells | ndn/tlv/block.go:249-284 | equal encodings, whatever follows, have the same type, content and rest |
| TlvBlock.ParseKeeps | ndn/tlv/block.go:215-227 | a value that parses is its subelements' own bytes, one after the other, also with longer forms of numbers; with an error some bytes are missing at the end |
| TlvBlock.DecodeItself | ndn/tlv/block.go:333-340 | a block decodes from its own bytes as it did from the longer input |
| TlvBlock.NniBlockSizeShort | ndn/tlv/helpers.go:101-112 | GetNNIBlockSize is always one less than the size of the encoded block |
| BlockObjects.Block.Wire | ndn/tlv/block.go:249-284 | gives the encoding from the caches there are and fills those on the way; no encoding changes by that |
| BlockObjects.Block.Append | ndn/tlv/block.go:98-101 | one more subelement, and the own cache is void; whatever block this one is inside of is not touched |
| BlockObjects.Block.SetType | ndn/tlv/block.go:76-81 | the type, and the own cache is void if that is another one |
| BlockObjects.Block.SetValue | ndn/tlv/block.go:84-90 | the value, and the own cache is void if that is another one |
| BlockObjects.Block.Clear | ndn/tlv/block.go:104-109 | no subelements, and the own cache is void if there were any |
| BlockObjects.Block.Encode | ndn/tlv/block.go:127-145 | turning subelements into the value keeps the block's encoding |
| BlockObjects.Block.Parse | ndn/tlv/block.go:215-227 | new subelements for the blocks that the value consists of, each with its own bytes cached, up to the first error, which is given back |
| BlockObjects.BareIsTree | ndn/tlv/block.go:249-284 | without caches the encoding is that of the tree that the block stands for |
| BlockObjects.Stale | ndn/tlv/block.go:98-101 | after a block inside others has changed its encoding, any block's Wire is the encoding of its new tree if and only if no block on the way from it down to the changed one has kept a cache |
| BlockObjects.StaleOuter | ndn/tlv/block.go:98-101 | the input: Append, Wire, Append inside, Wire gives the old bytes, which are not those of the new tree |
| BlockObjects.ParsedInner | ndn/tlv/block.go:215-227 | after Parse the content is the value if and only if there was no error or nothing in front of it; otherwise an uncached block loses the end of its value |
| BlockObjects.EncodeAndDecode | ndn/tlv/block.go:249-341 | the bytes of a coherent object tree decode, level by level, to its tree |
| BlockObjects.EncodeNewAndDecode | ndn/tlv/block.go:249-341 | the same for blocks of which none has been encoded yet, in whatever order they were put together |
| StreamReceiver.UnixStreamTransport.Receive | face/unix-stream-transport.go:96-147 | one read and the in-place loop do what cutting the byte sequence says: the frames passed up, what stays at the front, or a breakdown |
| StreamReceiver.UnixStreamTransport.CutBuffer | face/unix-stream-transport.go:118-147 | the loop over blocks in the buffer, for any decoder of block ends that is right for it |
| StreamReceiver.UnixStreamTransport.MoveToFront | face/unix-stream-transport.go:135-141 | the overlapping copy puts the rest at the front and leaves the bytes behind it |
| StreamReceiver.ReadExact | face/unix-stream-transport.go:118-147 | a read passes up all whole blocks and keeps the beginning of the next one if and only if that is empty or the header decoded there, also from older bytes, tells of a longer block |
| StreamReceiver.HeaderWaits | face/unix-stream-transport.go:125-143 | a beginning with its whole type and length is always kept |
| StreamReceiver.FullBufferDrops | face/unix-stream-transport.go:125-129 | in a full buffer a beginning without its whole type and length is always dropped |
| StreamReceiver.SecondBlockDropped | face/unix-stream-transport.go:125-129 | the input: a block of 8799 bytes and the first byte of another in one read |
| StreamReceiver.ReadBreaks | face/unix-stream-transport.go:125-133 | behind some whole blocks the loop breaks down (no progress, or a slice that ends before it starts) if and only if the next header's length, added to its size and place, reaches 2^63 and, added to its size, is not beyond 2^64 |
| StreamReceiver.BytesThatBreak | face/unix-stream-transport.go:125-133 | the input: ten bytes with a length of 2^64 - 10 |
| StreamReceiver.ReceiveStream | face/unix-stream-transport.go:96-147 | for any stream of blocks and any reads that do not end within a type and length: each block goes up, once, in order, as soon as it is whole |
| Fragmentation.NdnlpLinkService.Split | face/ndnlp-link-service.go:259-281 | the pieces are the packet, in order; all but the last are as long as permitted, and the last is not empty |
| Fragmentation.SplitCount | face/ndnlp-link-service.go:260-261 | there are length / limit pieces, rounded up |
| Fragmentation.NdnlpLinkService.SendPacket | face/ndnlp-link-service.go:253-295 | the frames of a packet, with consecutive sequence numbers modulo 2^64 if there are several, and neither index nor count |
| Fragmentation.NdnlpLinkService.ReassemblePacket | face/ndnlp-link-service.go:528-566 | stores the fragment and gives the message when the last slot fills; an index beyond the slots panics |
| Fragmentation.NdnlpLinkService.ProcessIncomingFrame | face/ndnlp-link-service.go:460-491 | which frames are dropped, passed on, or go to reassembly, with the base sequence number modulo 2^64 |
| Fragmentation.Fates | face/ndnlp-link-service.go:460-491 | without reassembly a frame with an index or a count is dropped and any other passed on; with it a frame without a sequence number is dropped, and one that is the only fragment passed on; empty ones are dropped; fragments of other messages stay as they were |
| Fragmentation.OneArrival | face/ndnlp-link-service.go:528-566 | a new fragment of any message, in any state of the store, is taken up; the one that was missing last gives the message and empties its place |
| Fragmentation.ExpectedMeaning | face/ndnlp-link-service.go:528-566 | whatever the order and interleaving, each complete message is delivered, once, as it was, and no other |
| Fragmentation.ReceiveAll | face/ndnlp-link-service.go:470-566 | the link service delivers just that; when all messages are complete the store is empty |
| Fragmentation.RepeatedArrival | face/ndnlp-link-service.go:531-566 | a repeated fragment does nothing while its message waits; once that is complete it leaves an entry in the store |
| Fragmentation.ReassemblyPanics | face/ndnlp-link-service.go:528-541 | a frame makes the receiver panic if and only if it goes to reassembly with an index not less than the slots there are, or than its count if there are none |
| Fragmentation.FramesThatPanic | face/ndnlp-link-service.go:528-541 | the inputs: an index that is not less than the count, and two fragments that disagree on the count |
| Fragmentation.SendAndReceive | face/ndnlp-link-service.go:259-295 | with index and count filled in, the frames of a packet give it back in any order of arrival |
| Fragmentation.ArrivesIntact | face/ndnlp-link-service.go:285-295 | as they are sent, a packet arrives as it was if and only if it is not empty, fits into one frame, and the receiver does not reassemble |
| UriName.EscapeBack | ndn/name.go:630-670 | a value comes back from its escaped text if and only if it is not all periods |
| UriName.EscapeComponent | ndn/name.go:630-648 | the loop computes the escaped text, with three more periods for a value of periods only |
| UriName.UnescapeComponent | ndn/name.go:651-670 | the loop computes the value that the text escapes, or an error for a bad percent escape |
| UriName.ComponentBack | ndn/name.go:537-627 | a component's text always parses, and gives the component back if and only if it is no keyword, not all periods, and, for a number, in shortest form |
| UriName.NumericTexts | ndn/name.go:306-600 | the five numeric kinds: seg, off, v, t and seq with a decimal number are parsed as components of types 50, 52, 54, 56 and 58 with the number's bytes and printed as that text, or are an error if and only if the number does not fit 64 bits |
| UriName.TypeTexts | ndn/name.go:606-612 | a decimal number as the key is the type, and an error if and only if it is above 65535 |
| UriName.DigestTexts | ndn/name.go:563-577 | the two digest keywords with 64 hexadecimal digits |
| UriName.EscapeTexts | ndn/name.go:630-670 | which bytes stand for themselves; all others are a percent sign with two hexadecimal digits, small when printed, small or capital when parsed |
| UriName.TwoSeparators | ndn/name.go:552-556 | a component with more than one equals sign is an error |
| UriName.BadEscapes | ndn/name.go:651-670 | an escape that is cut short or has other digits is an error, with or without a key |
| UriName.NoKey | ndn/name.go:606-612 | a key that is neither a keyword nor a number is an error |
| UriName.NameTexts | ndn/name.go:537-551 | what is in front of the first slash is skipped; two slashes there are the empty name |
| UriName.NameBack | ndn/name.go:537-717 | a name's URI always parses, and gives the name back if and only if all its components come back |
| UriName.Name.String | ndn/name.go:702-717 | gives the URI, cached or new |
| UriName.Name.Append | ndn/name.go:720-725 | adds the component and its text to the cached URI, which then is right if and only if the URI was cached before or there were no components |
| UriName.Name.Set | ndn/name.go:884-894 | replaces a component within range and empties the cached URI |
| UriName.Name.Insert | ndn/name.go:842-851 | inserts a component within range and empties the cached URI |
| UriName.Name.Erase | ndn/name.go:813-823 | removes a component within range and empties the cached URI |
| UriName.StringAfterAppend | ndn/name.go:702-725 | with nothing cached, Append and String give the text of the new component alone, which is right if and only if there were no components |
| UriName.StaleUri | ndn/name.go:702-725 | the input: Append, Append, Set, Append, String gives the last component for a name of three |
| UriName.Name.FromString | ndn/name.go:537-627 | the name, an error, or a panic, for every text |
| UriName.ComponentPanics | ndn/name.go:556-573 | a component's text panics if and only if it is a digest whose value is hexadecimal but not of 32 bytes |
| UriName.NamePanics | ndn/name.go:537-627 | NameFromString panics if and only if the text is not empty and has no slash, or has such a digest with no error before it |
| UriName.TextsThatPanic | ndn/name.go:545-573 | the inputs: any text without a slash, and a digest of one byte |
| UriName.PrintAndParse | ndn/name.go:537-717 | the round trip through name objects |
| NameOrder.TotalOrder | ndn/name.go:749-783 | Compare is zero just for equal names, antisymmetric and transitive |
| NameOrder.LexMeaning | ndn/name.go:749-783 | of two byte strings one is less if and only if it has the smaller byte where they first differ, or is a proper beginning of the other |
| NameOrder.PrefixFirst | ndn/name.go:749-783 | a name comes before all names that it is a proper prefix of |
| NameOrder.CanonicalOrder | ndn/name.go:749-783 | Compare is the order of the encodings as byte strings |
| NameOrder.Compare | ndn/name.go:749-783 | the nested loops compute that order |
| NameOrder.Equals | ndn/name.go:798-810 | true just for names with equal components |
| NameOrder.PrefixOf | ndn/name.go:869-881 | true just if the components are the first ones of the other name |
| Sharding.PrefixThreads | fw/thread.go:43-60 | the threads of all non-empty prefixes of a name, or thread 0 for a management name |
| Sharding.FirstComponents | fw/thread.go:31-60 | a name and its prefixes are all management names or none is |
| Sharding.IsLocalhostMeaning | fw/thread.go:28-48 | management names are exactly those whose first component has the bytes of "localhost" |
| Sharding.Transparent | fw/thread.go:31-60 | over all threads that Data goes to, it matches what it would in one PIT, but for the empty Interest name |
| Sharding.EmptyNameFound | fw/thread.go:31-60 | an Interest for the empty name is found if and only if its thread is one of those of the Data's prefixes |
| Sharding.MatchInAll | face/link-service.go:246-272 | the same on the PIT tables of the threads: the union of what they find by the Data's name |
| Forwarder.Thread.ProcessIncomingInterest | fw/thread.go:167-303 | exactly which Interests are dropped, loop, are answered from the store, go to an asked-for face, or to the nexthops of the best-route or multicast strategy; what the PIT and the counters are afterwards; the balance is kept |
| Forwarder.AskAgain | table/pit-cs-tree.go:164-169 | two Interests: one that is pending and comes again with its nonce loops if and only if it comes from another face |
| Forwarder.AskAndAnswer | fw/thread.go:397-468 | Interest and Data: whoever has an Interest pending is sent the Data that its entry is found by, by PIT token just once even if it sent that Data itself, and nobody asks for the entry any more |
| Forwarder.RecordedMeaning | table/pit-cs.go:122-145 | of a recorded Interest the in-record of its face has the nonce, and its PIT token unless there was one before; all else in the PIT is as it was |
| Forwarder.ChosenMeaning | fw/thread.go:167-343 | an Interest that came with hop limit 1 goes to local faces only, none goes back unless the face is ad hoc, and one goes out whenever some nexthop takes it: to all of these, or to one such that none is cheaper |
| Forwarder.Thread.InsertInRecord | table/pit-cs.go:122-145 | a new in-record, or a refreshed one that keeps its PIT token; says which |
| Forwarder.Thread.ProcessOutgoingInterest | fw/thread.go:306-343 | sends, and notes an out-record, exactly if the face is there, is not the incoming one (unless ad hoc), and the hop limit allows |
| Forwarder.Thread.AfterReceiveInterest | fw/bestroute.go:55-67 | the Interest goes to a usable nexthop of least cost, or to none exactly if none is usable |
| Forwarder.Thread.MulticastInterest | fw/multicast.go:54-70 | the Interest goes to just the usable nexthops, each noted in an out-record |
| Forwarder.SortByCost | fw/bestroute.go:58 | a permutation sorted by cost, whichever of equal costs comes first |
| Forwarder.Thread.AfterContentStoreHit | fw/bestroute.go:38-43 | Data for the asking face; the entry has the in-records that it had before the Interest |
| Forwarder.Thread.SendData | fw/strategy.go:79-88 | the face's in-record, if there is one, is used up, and Data goes to the face if that is there and may have it; the balance is kept if there was an in-record |
| Forwarder.Thread.ProcessIncomingData | fw/thread.go:359-468 | every matched entry is satisfied and cleared; each face gets the Data once for each entry that it asked by, but not the incoming face when several match; or a panic; with a PIT token that leads to an entry just this one is satisfied, and each of its faces that may have the Data is sent it once |
| Forwarder.Thread.Expire | fw/thread.go:345-357 | the entry goes, and its in-records count as unsatisfied unless it was satisfied |
| Forwarder.RunThread | fw/thread.go:167-499 | flow balance over every run: Data sent to a face and its pending in-records are no more than the Interests that came from it, and the same for the counters |

## Findings

Where the code does not do what its documentation or its purpose promises. Each has its input or its
exact condition as a lemma.

- RIB and hash FIB: withdrawing a route at a name that is only on the way to others clears the nexthops of the empty name in the hash table, not in the tree (`RibSpec.RootLosesHops`; exact condition in `RibAgreement.DriveTables`, with `RibSpec.Next` for when each operation brings it about).
- CleanUpFace takes only the first route on a face from each entry, contrary to its comment (table/rib.go:203): complete if and only if no prefix has two (`RibSpec.CleanUpComplete`, `RibSpec.CleanUpLeavesARoute`).
- A virtual node can stay for ever after its last name is gone (`HashFib.NodeLeftBehind`, `HashFib.LeaveNodeBehind`). The comment at table/fib-strategy-hashtable.go:219 speaks of the next longest prefix, but md is never lowered (`HashFib.FibStrategyHashTable.RaiseToListed`); it is only an upper bound, which lookups can live with.
- The Dead Nonce List adds nonce and name hash, and takes some pairs for others (`DeadNonceList.KeysClash`).
- The stream receiver loses data when a read ends within a type and length, always so in a full buffer (`StreamReceiver.ReadExact`, `StreamReceiver.FullBufferDrops`, `StreamReceiver.SecondBlockDropped`).
- Fragments are sent without index and count, so a packet of several fragments never arrives as it was (`Fragmentation.ArrivesIntact`); a repeated fragment of a complete message stays in the store (`Fragmentation.RepeatedArrival`).
- An outer block goes on to give its cached bytes after a change inside it (`BlockObjects.Stale`, `BlockObjects.StaleOuter`), and a failing Parse of a block without a cache shortens its content (`BlockObjects.ParsedInner`).
- GetNNIBlockSize does not count the length, contrary to its comment (`TlvBlock.NniBlockSizeShort`); numbers are accepted in lengths that no encoding has (`VarNum.NniAccepts`).
- A name's URI is wrong when a component is appended after a Set, Insert or Erase (`UriName.StringAfterAppend`, `UriName.StaleUri`).
- NameFromString panics at text without a slash and at digests of a wrong length (`UriName.NamePanics`, `UriName.TextsThatPanic`).
- Reassembly panics at an index beyond the slots, also of a well-numbered fragment when an earlier one spoke of fewer (`Fragmentation.ReassemblyPanics`, `Fragmentation.FramesThatPanic`).
- A length near 2^63 or 2^64 makes the receive loop run on the spot or panic (`StreamReceiver.ReadBreaks`, `StreamReceiver.BytesThatBreak`).
- Keyword components and components of periods only do not survive printing and parsing (`UriName.NameBack`).
- An Interest for the empty name may be out of reach of Data (`Sharding.EmptyNameFound`).
- Data with the empty name from a face that is not local makes the forwarding thread panic (`Forwarder.Thread.ProcessIncomingData`).

## Left out

- HashFib.FibStrategyHashTable.ClearNextHops: takes a name; the nil name that the source turns into the empty one is modelled by the RIB's calls (`Rib.ClearNil`), and other operations on nil names are not.
- HashFib.FibStrategyHashTable.FindNextHops: entries of the real table are values, so nexthop lists that callers hold on to and that later calls change in place are not modelled; the same holds for the tree's lists.
- HashFib.FibStrategyHashTable.InsertEntry: hashes are a function that tells apart the names in use; collisions, which the source does not handle, are not modelled. The same goes for the trees' component hashes and the Content Store's name hashes.
- TreeFib.FibStrategyTree.PruneIfEmpty: does not promise that no empty node stays (the loop compares with `f`, table/fib-strategy-tree.go:99); lookups are exact all the same. `fibPrefixes` and the listings of all entries are left out: they are kept but not read, or only read.
- Rib.RibTable.AddRoute: names are not nil, route flags and expiration periods are stored but not acted upon, as in the source, and GetAllEntries is left out.
- DeadNonceList.DeadNonceList.Insert: the clock is a parameter, and the ticker that asks for clean-ups is left out.
- PitCs.PitCsTree.InsertInterest: the random token is a parameter that is not in use yet; in- and out-records are in the forwarding model; scheduling expiry (updatePitExpiry, `queueIndex`, which is not refreshed when the heap moves items) is left out, so when an entry expires is not modelled.
- PitCs.PitCsTree.FindMatchingDataFromCs: one clock reading serves a whole lookup, and children are visited in any order.
- PitCs.PitCsTree.EvictEntries: the loop is that of the replacement policy, put into the table that owns it; nodes that evictions leave empty stay in the tree, as in the source.
- FindInterestExactMatchEnc, BeforeErase, and the generic heap's Init and Remove are left out: nothing that is modelled calls them.
- BlockObjects.Block.Wire: `rank` stands for the absence of cycles, without which the source's recursion does not end; Insert, Erase, EraseAll, Find, DeepCopy and Reset are left out, and so is sharing of the bytes that a decoded block points into. BlockObjects.Stale follows one change in coherent blocks.
- VarNum.DecodeVarNum: a slice is a sequence; lengths of slices are not limited to 63 bits.
- StreamReceiver.UnixStreamTransport.Receive: the socket's read is a parameter; errors, closing and byte counters are left out.
- Fragmentation.NdnlpLinkService.SendPacket: the effective MTU is a positive parameter (its computation leaves out the Fragment header, face/ndnlp-link-service.go:183-202, so frames may exceed the MTU); reliability, acknowledgements, retransmission, congestion marks and PIT tokens in frames are left out.
- Fragmentation.NdnlpLinkService.ReassemblePacket: a fragment count that is too large to allocate is not modelled.
- UriName.Name.FromString: regular expressions, DNS and the TLV decoding of names are left out; Prefix, DeepCopy and Find too.
- Sharding.MatchInAll: that each Interest is stored in its own thread's table is a condition; the queues between link services and threads are left out.
- Forwarder.Thread.ProcessIncomingInterest: the PIT is a map from keys to entries, and what the Dead Nonce List, the Content Store, the FIB and the network region table answer is given, and so is which strategy a name has; links, congestion and the packet's bytes are left out. That the text of an empty name is "/", which makes ProcessIncomingData panic, is a property of the name library, which is not part of this model.
- Forwarder.Thread.ProcessIncomingData: which nonces become dead is left out; with several matches the source takes those of the first entry each time (fw/thread.go:452).
- Forwarder.Thread.Expire: any entry may expire at any time.
- Counters and sequence numbers: sequence numbers, hashes and dead-nonce keys wrap around at 64 bits; counters are unbounded.
- Mutexes, goroutines and channels: each component is a sequence of steps.
- Sockets, faces, listeners, management, configuration, logging, measurements: plumbing that would only add easy members.

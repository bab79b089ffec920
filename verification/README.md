# Verified models of the data server and its sandbox channel

A Dafny model of the parts of this repository where data is kept, encoded and handed on, with proofs of
what they promise. `dafny verify dfyconfig.toml` checks everything.

| module | what it models |
|---|---|
| Keys, Slots, BTreeModel, BTreeLemmas, BTreeReads, BTreeShape, BTree | the paged B-tree of `redisdb/src/btree/btree.rs`, its shape invariant and the map it stands for |
| BTreeRuns, BTreeBytes | whole runs of the tree and crashes in the middle of them; its operations on byte-string keys |
| ShippedView, BTreeShipped, PageLayout | the same tree with every line as written, and the bytes of one page |
| Log, Replay, Wal | recovery from the write-ahead log, what replay keeps, and the log file |
| BufferPool, PoolRuns | the page cache over the database file, and runs of calls to it |
| Responses, Requests, Bytes | the wire protocol between the Rust server and the C++ client |
| Bits, Lists, Store, ZSet, TimeSeries | the in-memory store, its bit fields and lists, sorted sets and time series |
| FieldRuns | a bit field written while other clients act |
| Unicode, ByteForms | text as UTF-8 bytes, its lossy reading, and bytes as bit vectors |
| Jobs, JobStatus | the job queue as store steps of interleaving clients, and the status of a job meanwhile |
| Ipc | the channel between sandboxes |
| Basics, Decimals | what several modules share |

Code that changes state is modelled by classes and loops with their invariants, and each such method is
proved against a function or predicate about which the lemmas speak. Pages of the B-tree are node records
in a map; the invariant gives each page a level and a half-open interval of keys as ghost data, so each
clause speaks of one page and its neighbours. While a split is on its way up the invariant has a "hole": a
right half that the parent does not know yet.

## Where the code and its intent differ

The source is followed as written. Where its lines do not do what the code around them is for, the line as
written is modelled with the exact condition under which it is right; where the intended line is clear it is
modelled too, with the full property. For `expire` and the other operations that do not check expiry, for
`lrem` with the least count and for bit fields that wrap around there is only the exact condition.

- Nobody tells a page about its new parent (`btree.rs:317-337`, `408-416`). So `parent_id` is always 0 and each
  split grows a new root over just its two halves. ShippedView proves exactly which put then loses keys, and
  that the tree never holds more than 126. BTree re-parents in WriteRoot and Adopt.
- Delete goes left on a key equal to a separator (`btree.rs:475`) while find and insert go right and a split
  keeps the separator key in the right leaf, and it commits without logging a page (`btree.rs:515-520`).
  DeleteAsWritten misses exactly the stored separators, which BTreeRuns and BTreeShipped reach by a run, and
  leaves recovery wrong exactly when something was deleted. Delete goes right and logs the leaf.
- A page image is tagged with the next transaction number, not its own (`wal.rs:49-52`), and replay keeps an image
  only if its commit came earlier in the log (`wal.rs:143`). Replay and AppendWrite are as written, with the
  exact condition for logs without rollback, for one run (which keeps nothing) and over a restart;
  ReplayCommitted and AppendWriteFor are as intended, and BTree logs through the intended form. A restart
  reuses numbers, so even the intended replay needs Log.TwoRuns' condition.
- The key count of a page header overwrites three bytes of its leaf mark, and 64 slots do not fit a page
  (`btree.rs:24-51`). PageLayout states exactly what survives: a leaf with 1 to 63 keys reads back as an inner page
  without child ids in the page, so already the operation after the first put fails. The tree modules use node
  records, BTreeShipped too: "as written" there means every line but these.
- `ZSet::remove` searches with a comparator that never answers "equal" (`zset/mod.rs:60-66`), so the vector keeps
  every entry. Add and Remove are as written; AddIntended and RemoveIntended use the lower bound.
- `job submit` pushes the job before it writes the status. A worker can take it in between, and its status
  then falls back to "queued": JobStatus says exactly when, and that it never does with the status first.
- `expire` and the list and bit updates look at an entry without checking its expiry, so a sweep can be seen
  through them: Store.SweepShowsExactly says when.
- A negative time given to `expire` is cast to a huge one (`store/mod.rs:117`), so the key stays: Store.ExpiresExactly.
- `lrem` negates its count and `bitfield_set` adds and shifts in machine words. The models wrap around, as a
  release build does; a build with overflow checks panics there instead.
- The receive loop copies length and payload without looking at how much was received (`ipc.cpp:241-252`). A datagram
  cut short is delivered, with what the buffer held before in place of what is missing. Ipc.Receive is as written and
  Ipc.DeliveredExactly says when the message is still the one sent; Ipc.ReceiveChecked checks, and then no cut
  datagram passes (Ipc.CutShortIsRejected).
- A bit field is written one locked bit at a time (`store/mod.rs:513-519`). FieldRuns says when it reads back although
  other clients act in between.

## Model

| member | source | states |
|---|---|---|
| BTreeRuns.Play | redisdb/src/btree/btree.rs:135-153 | Any run of puts, deletes and gets on a new tree answers as a plain map does and leaves the tree standing for that map; without deletes every page but the root is half full and the height is logarithmic in the number of keys |
| BTreeRuns.RunLogged | redisdb/src/btree/btree.rs:102-153 | A run of puts and deletes stopped after any log record, even inside a cascade of splits: recovery over any database file finds, on every page of it, the whole tree as it was after exactly the operations whose commit is logged |
| BTreeRuns.Do | redisdb/src/btree/btree.rs:135-153 | One operation has the map effect and the map answer |
| BTree.BTree.Init | redisdb/src/btree/btree.rs:117-132 | An empty root leaf is a valid tree for the empty map |
| BTree.BTree.Get | redisdb/src/btree/btree.rs:135-138 | Get is lookup in the map the tree stands for |
| BTree.BTree.FindValue | redisdb/src/btree/btree.rs:175-198 | The descent by separator finds a key below a page exactly when the map has it |
| BTree.BTree.Put | redisdb/src/btree/btree.rs:140-145 | Put updates the map at one key, keeps the whole shape invariant and half-full pages; the log recovers to the state before until its last record, the commit, and to the new pages after it |
| BTree.BTree.InsertInto | redisdb/src/btree/btree.rs:201-224 | The descent reaches the leaf whose interval holds the key |
| BTree.BTree.InsertIntoLeaf | redisdb/src/btree/btree.rs:226-274 | Replacing or inserting in sorted slot order, splitting when ORDER keys are reached, updates the map at one key |
| BTree.BTree.SplitLeaf | redisdb/src/btree/btree.rs:277-344 | A split changes the shape but not the map, and no page is left over-full |
| BTree.BTree.CutLeaf | redisdb/src/btree/btree.rs:282-314 | The upper half of a leaf moves to a new page that is linked in behind it |
| BTree.BTree.GrowRoot | redisdb/src/btree/btree.rs:317-337 | The two halves of a root under a new root form a whole tree again |
| BTree.BTree.WriteRoot | redisdb/src/btree/btree.rs:318-337 | The new root separates the halves by the middle key, and both are told their new parent |
| BTree.BTree.InsertIntoInternal | redisdb/src/btree/btree.rs:347-390 | The separator goes to the slot of the child that was cut; the mutual recursion ends because each call is one level nearer the root |
| BTree.BTree.SplitInternal | redisdb/src/btree/btree.rs:393-462 | An inner page is cut at its middle key, which moves up; the map is unchanged |
| BTree.BTree.CutInternal | redisdb/src/btree/btree.rs:396-432 | Keys and children right of the middle move to a new page |
| BTree.BTree.Adopt | redisdb/src/btree/btree.rs:408-416 | Every child that moved names its new parent, the line the source leaves out |
| BTree.BTree.Delete | redisdb/src/btree/btree.rs:147-153 | As intended: delete removes one key from the map, reports whether it was there, and logs one transaction with the image it changed, so recovery stays right |
| BTree.BTree.DeleteFrom | redisdb/src/btree/btree.rs:465-482 | The descent that goes right on equality reaches the leaf that may hold the key |
| BTree.BTree.DeleteFromLeaf | redisdb/src/btree/btree.rs:484-523 | As intended: slots close up over the deleted key, the invariant holds, and the new image is logged |
| BTree.BTree.DeleteFromLeafAsWritten | redisdb/src/btree/btree.rs:484-523 | As written: the same without logging |
| BTree.BTree.LeafWithout | redisdb/src/btree/btree.rs:493-518 | Search and shift take out the slot of the key, if there is one |
| BTree.BTree.DeleteAsWritten | redisdb/src/btree/btree.rs:147-153 | As written: a stored key is deleted exactly when it is not also a separator; as no page is logged, recovery is right afterwards exactly when nothing was found |
| BTree.BTree.DeleteFromAsWritten | redisdb/src/btree/btree.rs:464-482 | The descent that goes left on equality finds a key exactly when no separator equals it |
| BTree.BTree.Scan | redisdb/src/btree/btree.rs:155-160 | Scan lists exactly the bindings from start to end, once each, in increasing key order |
| BTree.BTree.ScanRange | redisdb/src/btree/btree.rs:526-556 | What the recursion gathers below a page, skipping children left of start |
| BTree.BTree.ScanLeaf | redisdb/src/btree/btree.rs:536-545 | The slots of a leaf that lie in the range, in order |
| BTree.BTree.Count | redisdb/src/btree/btree.rs:162-165 | Count is the size of the map |
| BTree.BTree.CountKeys | redisdb/src/btree/btree.rs:559-573 | Below a page it is the number of keys in that page's interval |
| Slots.ShiftIn | redisdb/src/btree/btree.rs:251-259 | The backward shifting loop inserts at a position |
| Slots.ShiftOut | redisdb/src/btree/btree.rs:508-513 | The forward shifting loop removes at a position |
| Slots.CopyOut | redisdb/src/btree/btree.rs:292-298 | Copying slots to a new page yields that slice |
| Slots.LeafSlot | redisdb/src/btree/btree.rs:236-249 | The loop finds the key, or the slot that keeps the keys sorted |
| Slots.SlotFor | redisdb/src/btree/btree.rs:358-364 | The loop finds the slot where a separator goes |
| Slots.FindKey | redisdb/src/btree/btree.rs:493-502 | The search loop finds a key exactly when it is there |
| Keys.LexIsNumeric | redisdb/src/btree/btree.rs:191-217 | Comparing 32-byte keys as byte strings is comparing the numbers they write |
| Keys.OneWriting | redisdb/src/btree/btree.rs:53-62 | Every key is written by exactly one 32-byte string |
| Keys.Bounds | redisdb/src/btree/btree.rs:215-218 | A byte string of any length, padded or cut to 32 bytes and moved by one, bounds keys as a number does |
| BTreeBytes.GetBytes | redisdb/src/btree/btree.rs:135-138 | Get for a key of any length is lookup in the map from byte strings, in which only 32-byte keys can be |
| BTreeBytes.FindBytes | redisdb/src/btree/btree.rs:175-198 | The descent that compares the raw key finds it exactly when it is 32 bytes long and stored |
| BTreeBytes.PutBytes | redisdb/src/btree/btree.rs:140-145 | Put stores the slots of key and value, cut off or padded: the map changes at the slot of the key, for every 32-byte key and for any other whose slot is neither stored nor, if the key is shorter, a separator |
| BTreeBytes.SameSide | redisdb/src/btree/btree.rs:215-222 | On the way down a key of any length goes to the side of its slot, unless it is shorter and the separator is its slot |
| BTreeBytes.SlotStandsIn | redisdb/src/btree/btree.rs:236-249 | In the leaf a key of another length compares with every key but its slot as its slot does |
| BTreeBytes.SlotTwice | redisdb/src/btree/btree.rs:226-267 | If its slot is taken, the key is not found and its slot is stored again: no place for it keeps the leaf in strict order |
| BTreeBytes.GotIfKeyFits | redisdb/src/btree/btree.rs:53-74 | A get finds what was put exactly under a 32-byte key, and gives it back as put exactly if it is 64 bytes long |
| BTreeBytes.DeleteBytes | redisdb/src/btree/btree.rs:147-153 | Delete for a key of any length removes one string and tells whether it was there |
| BTree.BTree.CommitNothing | redisdb/src/btree/btree.rs:147-153 | A delete that finds no slot changes no page and logs its commit, and recovery stays right |
| BTreeBytes.ScanBytes | redisdb/src/btree/btree.rs:155-160 | For bounds of any length, scan lists exactly the bindings between them in byte order, in strictly increasing byte order |
| BTreeLemmas.UniqueRange | redisdb/src/btree/btree.rs:215-223 | No key is routed to two pages of one level |
| BTreeLemmas.LeafInsertInv | redisdb/src/btree/btree.rs:251-267 | Inserting in a leaf keeps every clause of the invariant, except that the leaf may now be full |
| BTreeLemmas.LeafRemoveInv | redisdb/src/btree/btree.rs:508-520 | Removing from a leaf keeps the invariant |
| BTreeLemmas.HalveLeafInv | redisdb/src/btree/btree.rs:282-314 | Cutting a leaf turns the invariant into the one with a pending right half |
| BTreeLemmas.HalveInnerInv | redisdb/src/btree/btree.rs:398-432 | The same for an inner page whose moved children were re-parented |
| BTreeLemmas.ExtendParentInv | redisdb/src/btree/btree.rs:366-383 | Putting separator and right half into the parent closes the pending split |
| BTreeLemmas.GrowRootInv | redisdb/src/btree/btree.rs:317-337 | So does growing a root |
| BTreeRuns.StoredSeparator | redisdb/src/btree/btree.rs:292-316 | However puts alone brought a tree to hold the keys 0 to 63, its separator 32 is also stored |
| BTreeRuns.DeleteMisses | redisdb/src/btree/btree.rs:473-478 | Put the keys 0 to 63 in turn, and delete as written misses the stored key 32 |
| BTreeReads.StepDown | redisdb/src/btree/btree.rs:473-481 | Going left on equality stays on the path of a key only while no separator equals it |
| BTreeReads.GatheredListing | redisdb/src/btree/btree.rs:526-556 | The gathered slots are exactly the bindings of the page's interval within the range, in order |
| BTreeReads.LeafSize | redisdb/src/btree/btree.rs:563-565 | A leaf has as many slots as the map has keys in its interval |
| BTreeShape.ContentsAreTheLeaves | redisdb/src/btree/btree.rs:175-198 | A binding is in the map exactly when some leaf stores it |
| BTreeShape.StoredOnce | redisdb/src/btree/btree.rs:226-274 | No key is stored in two leaves or twice |
| BTreeShape.OneParent | redisdb/src/btree/btree.rs:373-375 | No page is a child of two pages, nor twice of one |
| BTreeShape.ChainListing | redisdb/src/btree/btree.rs:309-310 | Following next_leaf from any leaf lists every binding from there on, in key order |
| BTreeShape.ChainIsScan | redisdb/src/btree/btree.rs:305-314 | Following next_leaf from the first leaf gives what a full scan gives |
| BTreeShape.Population | redisdb/src/btree/btree.rs:269-271 | In put-only runs a page below the root at level l covers at least 32^(l+1) keys |
| BTreeShape.HeightBound | redisdb/src/btree/btree.rs:385-387 | So the number of keys is at least 2 * 32^height |
| BTreeShipped.ShippedBTree.Init | redisdb/src/btree/btree.rs:117-132 | The tree as written starts as one empty leaf |
| BTreeShipped.ShippedBTree.Get | redisdb/src/btree/btree.rs:135-138 | Get as written looks up what is still reachable |
| BTreeShipped.ShippedBTree.FindValue | redisdb/src/btree/btree.rs:175-198 | The descent as written finds a key exactly when it is still reachable |
| BTreeShipped.ShippedBTree.Put | redisdb/src/btree/btree.rs:140-145 | Put as written acts as a map update exactly when it does not split a leaf that has a non-empty leaf beside it |
| BTreeShipped.ShippedBTree.InsertInto | redisdb/src/btree/btree.rs:201-224 | The descent as written, never more than one level deep |
| BTreeShipped.ShippedBTree.InsertIntoLeaf | redisdb/src/btree/btree.rs:226-274 | Insertion as written changes one of at most two leaves, or splits it |
| BTreeShipped.ShippedBTree.ReplaceAtSlot | redisdb/src/btree/btree.rs:239-245 | Overwriting the value of a stored key changes that one binding |
| BTreeShipped.ShippedBTree.InsertAtSlot | redisdb/src/btree/btree.rs:251-271 | A new key goes into its slot, or the leaf splits when it is full |
| BTreeShipped.ShippedBTree.SplitLeaf | redisdb/src/btree/btree.rs:277-344 | Every split as written grows a root over its two halves only; the branch into the parent is unreachable |
| BTreeShipped.ShippedBTree.Delete | redisdb/src/btree/btree.rs:147-153 | Delete as written removes a stored key exactly when it is not the separator |
| BTreeShipped.ShippedBTree.DeleteFrom | redisdb/src/btree/btree.rs:465-482 | Its descent, left on equality, misses exactly the separator |
| ShippedView.PutOutcome | redisdb/src/btree/btree.rs:316-341 | What the tree holds after a put, split or not |
| ShippedView.PutExactly | redisdb/src/btree/btree.rs:316-341 | It equals the map update exactly when no leaf drops out |
| ShippedView.Capacity | redisdb/src/btree/btree.rs:317-337 | The tree as written never holds more than 126 keys |
| ShippedView.AscendingLosesKeys | redisdb/src/btree/btree.rs:317-337 | Putting 0, 1, ..., 95 in turn leaves a tree without key 0, present one put earlier |
| BTreeShipped.PutInTurn | redisdb/src/btree/btree.rs:140-145 | Putting 0, 1, ... in turn into the tree as written follows the ascending run |
| BTreeShipped.PutLoses | redisdb/src/btree/btree.rs:140-145 | The losing run carried out: the tree returned was given key 0 and does not have it |
| BTreeShipped.DeleteMisses | redisdb/src/btree/btree.rs:147-153 | After 64 ascending puts, delete as written misses the stored key 32 |
| PageLayout.HeaderRoundTrip | redisdb/src/btree/btree.rs:24-39 | A header reads back as saved exactly when the page is not a leaf or its key count is a multiple of 2^24 |
| PageLayout.SlotsInPage | redisdb/src/btree/btree.rs:41-51 | Only 42 of the 64 slots and no child id lie inside a page |
| PageLayout.LeafTurnsInner | redisdb/src/btree/btree.rs:24-51 | So a saved leaf with 1 to 63 keys reads back as an inner page with as many keys and all its child ids outside the page: the next descent reads out of bounds |
| PageLayout.EmptyLeafReadsBack | redisdb/src/btree/btree.rs:117-126 | An empty leaf, and so a new database, reads back as saved |
| PageLayout.SlotRoundTrip | redisdb/src/btree/btree.rs:53-74 | A slot reads back as written exactly when the bytes fill it |
| Log.RecoveredPage | redisdb/src/btree/wal.rs:102-170 | Recovery leaves each page at the last image logged by a transaction with a commit that no rollback follows, and takes nothing from the others |
| Log.CommittedExactly | redisdb/src/btree/wal.rs:147-164 | A transaction ends up committed exactly when some commit of it has no rollback after it |
| Log.LastImageWins | redisdb/src/btree/wal.rs:143-145 | Of the images of chosen transactions, the last one of each page decides |
| Log.UncommittedInvisible | redisdb/src/btree/wal.rs:42-66 | Images of a transaction that has not committed change nothing that recovery builds |
| Log.CommitApplies | redisdb/src/btree/wal.rs:68-80 | The commit record makes all images of its transaction count at once |
| Log.TransactionApplies | redisdb/src/btree/wal.rs:42-80 | Over whatever pages recovery starts from, a committed transaction puts its images on top of what was recovered before |
| Log.TransactionInvisible | redisdb/src/btree/wal.rs:42-80 | Cut before its commit, a transaction leaves no trace in recovery |
| Log.TwoRuns | redisdb/src/btree/wal.rs:20-27 | Numbers start again at 1 after a restart: recovery over two runs takes the committed images of each exactly when no image of one carries a number that only the other committed |
| Wal.FramedParses | redisdb/src/btree/wal.rs:110-167 | Replay reads back exactly the records appended, whatever follows them |
| Wal.CutLog | redisdb/src/btree/wal.rs:110-167 | A log cut at a record boundary reads back as the records before the cut; cut elsewhere, replay fails |
| Wal.ParsedIsFramed | redisdb/src/btree/wal.rs:111-167 | Any file is the framed records that are read, followed by nothing, by a byte that starts no record, or by a record that is not whole, and replay fails in the last case only |
| Replay.ReplayExactly | redisdb/src/btree/wal.rs:102-170 | For logs without rollback, which are all the source writes: replay as written returns the images of committed transactions exactly when each of them follows a commit of its number |
| Replay.ReplayExactlyDistinct | redisdb/src/btree/wal.rs:102-170 | With rollbacks, for images that all differ: exactly when each image is committed at its place if and only if it is in the end |
| Replay.KeptAgree | redisdb/src/btree/wal.rs:143-145 | For any log, replay as written is right if each image is committed at its place exactly if it is in the end |
| Replay.OneRunKeepsNothing | redisdb/src/btree/wal.rs:49-52 | In the log of one run as written every image precedes any commit of its number, so replay keeps nothing, and is right exactly when no image carries a number that stands committed |
| Replay.RestartKeeps | redisdb/src/btree/wal.rs:20-27 | Over two runs, the second counting from 1 again, replay as written keeps exactly the images of the second run whose numbers the first committed |
| Replay.RestartExactly | redisdb/src/btree/wal.rs:20-27 | That is right exactly when no image of the first run carries a committed number, and numbers the second run commits for its images were committed by the first |
| Replay.RestartKeepsTheWrongImages | redisdb/src/btree/wal.rs:20-27 | An instance: two puts, a restart and an unfinished put, of which only the unfinished image is kept |
| Wal.Wal.constructor | redisdb/src/btree/wal.rs:21-27 | Numbers start at 1 |
| Wal.Wal.NextTxId | redisdb/src/btree/wal.rs:95-100 | Numbers are handed out in order |
| Wal.Wal.AppendWrite | redisdb/src/btree/wal.rs:42-66 | As written: the image is tagged with the number that is next |
| Wal.Wal.AppendWriteFor | redisdb/src/btree/wal.rs:42-66 | As intended: the image is tagged with its own transaction |
| Wal.Wal.AppendCommit | redisdb/src/btree/wal.rs:68-80 | The file gains one commit record |
| Wal.Wal.AppendRollback | redisdb/src/btree/wal.rs:82-93 | The file gains one rollback record |
| Wal.Wal.Replay | redisdb/src/btree/wal.rs:102-170 | As written: what it keeps of the appended records, when that is right, and that in one run it is nothing |
| Wal.Wal.ReplayCommitted | redisdb/src/btree/wal.rs:102-170 | As intended: the images of transactions that the whole log leaves committed, in log order |
| Wal.ReplayBytes | redisdb/src/btree/wal.rs:107-169 | The replay loop over any bytes: error exactly when a record is torn |
| Wal.ReadRecord | redisdb/src/btree/wal.rs:111-167 | One round reads one record, or finds the end, a torn record or an unknown type |
| BufferPool.BufferPool.GetPage | redisdb/src/btree/buffer_pool.rs:26-49 | The content of the page, or an error when it is nowhere; no page changes content; a hit moves the page to the back of the queue, a miss evicts at most the page touched longest ago and never itself |
| BufferPool.BufferPool.LoadPage | redisdb/src/btree/buffer_pool.rs:36-48 | A miss caches the page of the file as clean and evicts another page only when over capacity |
| BufferPool.BufferPool.PutPage | redisdb/src/btree/buffer_pool.rs:51-56 | Changes the content of one page only; every clean page still equals the file exactly when the page is dirty or equal to the file |
| BufferPool.BufferPool.MarkDirty | redisdb/src/btree/buffer_pool.rs:58-63 | Changes no content |
| BufferPool.BufferPool.FlushPage | redisdb/src/btree/buffer_pool.rs:65-86 | Afterwards the page is clean and equal to the file, no other page of the file has changed |
| BufferPool.BufferPool.FlushAll | redisdb/src/btree/buffer_pool.rs:88-102 | Afterwards nothing is dirty and a new pool on the same file reads the same content |
| BufferPool.BufferPool.TouchLru | redisdb/src/btree/buffer_pool.rs:154-158 | The queue keeps each id once, ordered by last touch |
| BufferPool.BufferPool.EvictIfNeeded | redisdb/src/btree/buffer_pool.rs:160-178 | Removes the front of the queue when over capacity, without changing any content |
| BufferPool.BufferPool.constructor | redisdb/src/btree/buffer_pool.rs:17-24 | A new pool shows the file |
| BufferPool.SaveKeeps | redisdb/src/btree/buffer_pool.rs:134-152 | Saving a page keeps what the pool shows and makes the page clean |
| BufferPool.WithoutOrdered | redisdb/src/btree/buffer_pool.rs:155-157 | Retaining the other ids keeps the queue ordered |
| PoolRuns.Run | redisdb/src/btree/buffer_pool.rs:26-102 | A new pool of any capacity answers any sequence of calls as a plain map of pages does, if pages are put back dirty or unchanged: a page of the file or one put before is never missing, and after a flush the file holds what the map does; so pools of different capacities answer alike |
| PoolRuns.Play | redisdb/src/btree/buffer_pool.rs:26-102 | The same from any pool that holds a map |
| PoolRuns.Do | redisdb/src/btree/buffer_pool.rs:26-102 | One call has the effect and the answer of the map |
| PoolRuns.CleanPut | redisdb/src/btree/buffer_pool.rs:51-56 | A changed page put back clean is lost on eviction, so there the answer does depend on the capacity |
| Responses.DecodeEncode | sandbox/src/redis_client.cpp:104-167 | Parsing the encoding of any nested value, whatever follows, yields it and stops where it ends |
| Responses.EncodeDecode | sandbox/src/redis_client.cpp:104-167 | Whatever the parser accepts is the encoding of what it returns |
| Responses.RoundTripsIfSized | redisdb/src/proto/mod.rs:30-67 | A value comes back exactly when its strings and arrays are shorter than 2^32 |
| Responses.PrefixRejected | sandbox/src/redis_client.cpp:104-167 | Every strict prefix of an encoding is rejected |
| Responses.PrefixFree | redisdb/src/proto/mod.rs:30-67 | No encoding is a prefix of another's |
| Responses.ReadValue | sandbox/src/redis_client.cpp:104-167 | The recursive parser, advancing one position by reference, computes Decode |
| Responses.ReadValueFrom | sandbox/src/redis_client.cpp:104-167 | The recursion over arrays, for any scalar parser that agrees with the real one |
| Responses.ReadScalarFrom | sandbox/src/redis_client.cpp:107-150 | Nil, error, string, integer and double are read with every length check |
| Responses.ReadElements | sandbox/src/redis_client.cpp:152-163 | The loop reads exactly the announced number of values or rejects |
| Responses.ReadResponse | sandbox/src/redis_client.cpp:90-101 | One frame is taken off the stream, refused above 64 MiB |
| Responses.Exchange | redisdb/src/proto/mod.rs:104-112 | What the server writes the client reads back exactly when it is at most 64 MiB, leaving the stream where the next response starts |
| Requests.PrintRequest | sandbox/src/redis_client.cpp:61-81 | The buffer filled by advancing an offset is the frame of the command; the copies run past its end exactly when its size overflows 32 bits |
| Requests.SizeOf | sandbox/src/redis_client.cpp:63-66 | The payload size, added up in 32 bits |
| Requests.PrintArgs | sandbox/src/redis_client.cpp:75-81 | After the two counters come length and bytes of each argument, in order, exactly if there is room for all |
| Requests.ReadRequest | redisdb/src/proto/mod.rs:70-102 | One read of the server: an I/O error exactly if the stream ends before the announced frame, every limit and every error case |
| Requests.AcceptedLayThere | redisdb/src/proto/mod.rs:70-102 | What is accepted lay wholly in the stream: its size, its count, the length-prefixed arguments returned, and perhaps ignored bytes behind them in the frame |
| Requests.FailedArgs | redisdb/src/proto/mod.rs:86-100 | When reading stops, the arguments before are whole and text, and the next is cut in its length, cut in its bytes, or not UTF-8, as the error says |
| Requests.CutFrameIsRefused | redisdb/src/proto/mod.rs:71-76 | Every strict prefix of a printed frame is an I/O error, or too large once that length arrived |
| Requests.CutIsNotServed | redisdb/src/proto/mod.rs:70-102 | Of whole frames followed by a cut one, exactly the whole ones are served |
| Requests.ReadArgs | redisdb/src/proto/mod.rs:85-101 | The loop yields the arguments, or the first error it meets |
| Requests.ParsePrinted | redisdb/src/proto/mod.rs:85-101 | Printed arguments parse back exactly if all are valid UTF-8 |
| Requests.ReadPrinted | redisdb/src/proto/mod.rs:70-102 | A printed command is read back, with nothing of what follows taken, exactly when it is within 4 MiB, 1024 arguments and UTF-8; otherwise the error names the limit |
| Requests.ServedIsAcceptedPrefix | redisdb/src/proto/mod.rs:70-102 | A whole stream of printed commands is served in order up to the first refused one; if none is, all of them |
| ZSet.BinarySearch | redisdb/src/zset/mod.rs:40-48 | With a comparator that never answers equal, the search ends at the lower bound and never reports a match |
| ZSet.ZSet.Add | redisdb/src/zset/mod.rs:31-51 | As written: map and vector gain the entry unless the score is less than 2^-52 above or below the old one |
| ZSet.ZSet.InsertEntry | redisdb/src/zset/mod.rs:38-49 | Inserting at the lower bound keeps the vector ordered |
| ZSet.ZSet.Remove | redisdb/src/zset/mod.rs:53-75 | As written: the name leaves the map and the vector stays as it was |
| ZSet.ZSet.IndexedIffNothingRemoved | redisdb/src/zset/mod.rs:53-75 | The vector is exactly the entries of the map, strictly ordered, if and only if nothing was ever removed or re-scored |
| ZSet.ZSet.AddIntended | redisdb/src/zset/mod.rs:31-51 | With the lower bound used for removal, every add keeps vector and map in step |
| ZSet.ZSet.RemoveIntended | redisdb/src/zset/mod.rs:53-75 | So does every removal |
| ZSet.ZSet.Query | redisdb/src/zset/mod.rs:81-104 | With n entries before the key, the result is the entries from max(n + offset, 0) on, as many as there are up to the limit; scores never fall, and without a negative offset no entry comes before the key |
| ZSet.OffsetMoves | redisdb/src/zset/mod.rs:98-103 | An offset skips that many entries from the key on; a negative one goes back over as many before it, as far as there are any |
| ZSet.QueryFromKey | redisdb/src/zset/mod.rs:81-104 | Without offset: the first limit entries that do not come before the key, and none else |
| ZSet.OneIndex | redisdb/src/zset/mod.rs:14-17 | Only one strictly ordered vector has given entries, so the map decides what queries return |
| ZSet.LessTotal | redisdb/src/zset/mod.rs:7-12 | The comparison is a strict total order by score, then by name |
| Unicode.EncodeKeepsOrder | redisdb/src/zset/mod.rs:7-12 | Comparing names byte by byte orders characters as their numbers do |
| ZSet.RemovedIndex | redisdb/src/zset/mod.rs:67-69 | Taking one entry out keeps the vector an index of the remaining names |
| TimeSeries.StepReflects | redisdb/src/tsdb/series.rs:78-85 | Every add or policy change keeps the points equal to the stable timestamp sort of the survivors of the whole history |
| TimeSeries.OutlivesByCutoff | redisdb/src/tsdb/series.rs:81-85 | The cutoff of an add keeps a point exactly when its timestamp plus 1000 times the seconds of the policy in force is not below the timestamp added |
| TimeSeries.PolicyInForce | redisdb/src/tsdb/series.rs:139-146 | The policy in force is the one set last |
| TimeSeries.NoPolicyKeepsAll | redisdb/src/tsdb/series.rs:82 | Without a policy every point stays |
| TimeSeries.SurvivesNext | redisdb/src/tsdb/series.rs:81-85 | A point survives one more event exactly when it is not below that add's cutoff |
| TimeSeries.SortIsStable | redisdb/src/tsdb/series.rs:79 | Points of one timestamp stay in the order they were added |
| TimeSeries.SortWithin | redisdb/src/tsdb/series.rs:107-111 | Selecting a range of the sorted points is sorting the selected points |
| TimeSeries.SortedOrder | redisdb/src/tsdb/series.rs:79 | The sort yields the same points in timestamp order |
| TimeSeries.TimeSeriesDB.AddPoint | redisdb/src/tsdb/series.rs:58-94 | Adds to the history of one series and keeps all series equal to the points of their histories that survive every add, each under the policy then in force |
| TimeSeries.TimeSeriesDB.Retained | redisdb/src/tsdb/series.rs:81-85 | The retain pass drops what lies before the cutoff, and nothing without a policy |
| TimeSeries.TimeSeriesDB.SetRetention | redisdb/src/tsdb/series.rs:139-146 | Changes the policy of a known series; an unknown one is an error |
| TimeSeries.TimeSeriesDB.Query | redisdb/src/tsdb/series.rs:96-137 | The survivors with start and end inclusive in stable timestamp order, and the aggregate of exactly those |
| TimeSeries.LeastIsMinimum | redisdb/src/tsdb/series.rs:124 | Min is the least value of the range |
| TimeSeries.GreatestIsMaximum | redisdb/src/tsdb/series.rs:125 | Max is the greatest |
| TimeSeries.SumOfParts | redisdb/src/tsdb/series.rs:116 | The sum of one point is its value, and sums of parts add up |
| TimeSeries.MeanOfAll | redisdb/src/tsdb/series.rs:117-123 | The average times the number of points is their sum; without points it is 0 |
| TimeSeries.OtherAggregates | redisdb/src/tsdb/series.rs:124-127 | Count, last, least and greatest, also without points |
| TimeSeries.LatestIsLast | redisdb/src/tsdb/series.rs:127 | Last is a point at the latest timestamp, and of those at that time the last added |
| Bits.WithBitAt | redisdb/src/store/mod.rs:417-421 | Or-ing a mask in, or and-ing its complement, changes one bit of a byte |
| Bits.BitHasWeight | redisdb/src/store/mod.rs:453-472 | Bit k of a byte has the weight 2^k |
| Bits.SetBitAt | redisdb/src/store/mod.rs:406-451 | Setting a bit changes that bit and no other, however far the vector grows |
| Bits.CountIsPositions | redisdb/src/store/mod.rs:483 | The byte-wise population count is the number of set positions |
| Bits.WithFieldAt | redisdb/src/store/mod.rs:513-519 | Writing a field sets its own bits from the value and no others, with positions that wrap around at 32 bits |
| Bits.FieldRoundTrip | redisdb/src/store/mod.rs:489-519 | A field of any width reads back as the value modulo 2^min(width, 64) |
| Bits.FieldBits | redisdb/src/store/mod.rs:498-507 | A bit of the result is set exactly when one of the bits that fall on it is |
| Bits.FieldReadsExactly | redisdb/src/store/mod.rs:498-507 | A field of up to 64 bits reads as a value exactly if each of its positions holds that bit of the value |
| Bits.FieldsApart | redisdb/src/store/mod.rs:489-519 | Fields that do not overlap do not disturb each other |
| Lists.LRemExact | redisdb/src/store/mod.rs:363-402 | For every list and count: abs(count) or all occurrences go, whichever is fewer (all for 0), and everything else stays in order, exactly unless the count is -2^63 and there is something to remove |
| Lists.LRemSplits | redisdb/src/store/mod.rs:363-402 | All removals are at the front for a positive count and at the back for a negative one; the rest of the list is untouched |
| Lists.NegativeIsReverse | redisdb/src/store/mod.rs:384-396 | Removing from the back is reverse, remove from the front, reverse |
| Lists.RemoveFirstSplits | redisdb/src/store/mod.rs:373-383 | A positive count removes the earliest occurrences |
| Lists.RemoveLastSplits | redisdb/src/store/mod.rs:384-396 | A negative count removes the latest |
| Lists.RetainOthers | redisdb/src/store/mod.rs:369-372 | The retain pass for count 0 drops every occurrence |
| Lists.RetainCounting | redisdb/src/store/mod.rs:373-383 | The counting retain pass drops the first occurrences up to the count |
| Lists.RemoveBackwards | redisdb/src/store/mod.rs:384-396 | The in-place loop from the back drops the last occurrences up to the count |
| Lists.ListRemove | redisdb/src/store/mod.rs:369-396 | Zero, positive and negative counts leave the list they should and return how many items went; -2^63 removes nothing |
| Store.SweepsInvisible | redisdb/src/store/mod.rs:53-63 | Two runs that differ only in where the sweeper ran reply alike, except for del's flag, if no operation touches an expired entry unchecked |
| Store.SweepsUnseen | redisdb/src/store/mod.rs:53-63 | The same for two maps that differ by expired entries |
| Store.SweepUnseen | redisdb/src/store/mod.rs:75-122 | One operation replies alike on two maps that differ by expired entries and leaves two such maps |
| Store.SweepShowsExactly | redisdb/src/store/mod.rs:114-122 | A sweep just before an operation shows exactly when the operation is one that does not check expiry and finds a lingering entry (for pops and removals: one with something to take) |
| Store.SetThenGet | redisdb/src/store/mod.rs:75-96 | A string that is set is read back at any later time, without expiry, and other keys read as before |
| Store.DeletedIsGone | redisdb/src/store/mod.rs:98-101 | After a del no read, listing, bit operation or pop finds the key at any later time, and operations on other keys reply as before |
| Store.GetStrExactly | redisdb/src/store/mod.rs:75-85 | A read is missing exactly for an absent or expired key, and a wrong type exactly for a live list or sorted set |
| Store.ExpiresExactly | redisdb/src/store/mod.rs:114-136 | A key expires after exactly the given time; with a negative time it stays 2^64 milliseconds less that much, and ttl reads negative at first |
| Store.KeysAreReadable | redisdb/src/store/mod.rs:103-112 | The listed keys are those under which a read finds something |
| Store.SetBitsLive | redisdb/src/store/mod.rs:513-519 | Setting a field bit by bit leaves the bytes with that field, whether the key held bytes, a string or nothing |
| Store.FieldReadsBack | redisdb/src/store/mod.rs:489-519 | It reads back modulo 2^min(width, 64) and get_bit is unchanged outside it |
| FieldRuns.FieldAmongOthers | redisdb/src/store/mod.rs:513-519 | With any store operations of others between the bits of a field, as long as they change the key only by setting bits outside it: the field reads back modulo 2^min(width, 64), every other bit and every other key is as if the field had not been written |
| FieldRuns.ReadsBackExactly | redisdb/src/store/mod.rs:513-519 | If they also set bits of the field, it reads back exactly when each of its bits was last set as in the value |
| FieldRuns.LastSetStays | redisdb/src/store/mod.rs:406-451 | Over any run that changes a key by setting bits only, each bit ends as it was last set |
| Store.BytesReadAsText | redisdb/src/store/mod.rs:80 | Bytes read as a text that stands for just these bytes exactly if they are valid UTF-8, so a string turned into bytes still reads as itself |
| Unicode.LossyExactly | redisdb/src/store/mod.rs:80 | The lossy reading, with one replacement for each piece that is no character, keeps the bytes exactly if they are valid UTF-8 |
| Unicode.LossyEncode | redisdb/src/store/mod.rs:80 | Text is read back from its UTF-8 bytes, which are valid |
| Unicode.LossyPieces | redisdb/src/store/mod.rs:80 | The reading takes a character where one starts, and otherwise one U+FFFD for the longest piece that begins a character, or for one byte |
| Store.Store.SetString | redisdb/src/store/mod.rs:87-96 | set_str stores a string without expiry and touches no other key |
| Store.Store.GetString | redisdb/src/store/mod.rs:75-85 | get_str finds a live string, reads the bytes of a live byte value as text with replacements, or says that the type is wrong; an expired or absent key is missing |
| Store.Store.Delete | redisdb/src/store/mod.rs:98-101 | del leaves the key absent and every other key as it was, and tells whether an entry was there, expired or not |
| Store.Store.SetExpiry | redisdb/src/store/mod.rs:114-122 | expire sets the time of an entry, expired or not, with the cast of a negative time, and leaves its value and all other keys; an absent key is left absent |
| Store.Store.SweepExpired | redisdb/src/store/mod.rs:54-62 | One retain pass leaves exactly the entries whose time is not over |
| Store.Store.PutBit | redisdb/src/store/mod.rs:406-451 | set_bit changes one bit of bytes, of a string turned into bytes, or of an absent key taken as no bytes, and keeps the expiry; other types and other keys are left alone |
| Store.Store.TestBit | redisdb/src/store/mod.rs:453-472 | get_bit tells the bit of a live string or byte value, and false past its end or otherwise |
| Store.Store.CountBits | redisdb/src/store/mod.rs:474-487 | bitcount is the number of set positions |
| Store.Store.GetField | redisdb/src/store/mod.rs:489-511 | bitfield_get ors the bits of the range together, for every offset and width |
| Store.Store.SetField | redisdb/src/store/mod.rs:513-519 | bitfield_set with any offset and width on a live or absent key reads back modulo 2^min(width, 64), leaves every other bit and every other key alone |
| Store.Store.RemoveItems | redisdb/src/store/mod.rs:363-402 | lrem leaves the list that the signed count calls for with its expiry and returns how many items went; other types and absent keys give 0 and no change |
| Store.Store.PushLeft | redisdb/src/store/mod.rs:216-237 | lpush puts an item at the front and keeps the expiry, creates the list for an absent key, and drops the item for another type |
| Store.Store.PopRight | redisdb/src/store/mod.rs:239-255 | rpop takes the last item, leaves the others and the expiry; nothing for an empty list, another type or an absent key |
| Jobs.JobsInOrder | redisdb/src/handler.rs:370-430 | Under every interleaving of clients' store steps: jobs handed out followed by the reversed queue are the jobs submitted, in order, and no payload is malformed |
| Jobs.StartsFine | redisdb/src/handler.rs:370-430 | A store without a queue is a world to start from |
| Jobs.StepKeepsFine | redisdb/src/handler.rs:390-429 | One store step of one client keeps queue and history in that relation |
| Jobs.StepOnQueue | redisdb/src/store/mod.rs:216-255 | A push adds at the front, a pop takes the last item, and no other step of a job command or off the queue touches it |
| Jobs.PayloadParts | redisdb/src/handler.rs:384-425 | A payload always splits into five parts, and they are the submitted fields exactly when none of the first four holds a bar |
| Jobs.SplitUndoesJoin | redisdb/src/handler.rs:408 | splitn undoes joining exactly when no part but the last holds the separator |
| Jobs.SplitJoins | redisdb/src/handler.rs:408 | Joining undoes splitn |
| Jobs.JobKeyIsNotQueue | redisdb/src/handler.rs:390-401 | No job id makes a status, payload or result key collide with the queue |
| JobStatus.StatusSurvivesExactly | redisdb/src/handler.rs:390-418 | When a worker has written "running", the status stays so in every later world without another submission, result or write of it if and only if no client still has its "queued" to write |
| JobStatus.QueuedInTheEnd | redisdb/src/handler.rs:396-401 | In the other case it reads "queued" once that is written |
| JobStatus.StatusRead | redisdb/src/handler.rs:431-443 | A key that holds a status reads as that status at any time |
| JobStatus.RunningStays | redisdb/src/handler.rs:404-418 | Under every interleaving a running status stays as long as no "queued" is still to be written |
| JobStatus.QueuedGetsWritten | redisdb/src/handler.rs:390-401 | A client that still has it to write gets to, with no other write of the status |
| JobStatus.ReachedOrderly | redisdb/src/handler.rs:370-430 | In every world that clients reach, only the last step of a command pops and none writes a key that a later one sets |
| JobStatus.StatusStaysAsIntended | redisdb/src/handler.rs:390-418 | With the status written before the push, the status of a started job stays "running" under every interleaving, as long as nobody else submits that job or writes its status |
| JobStatus.StatusFallsBack | redisdb/src/handler.rs:390-418 | A reachable instance as written: the job is handed out and its status ends as "queued" |
| Jobs.JobSubmit | redisdb/src/handler.rs:370-403 | With four arguments or more: the payload made of them is in front of the queue and under the key of the job, the status is queued, and nothing else has changed; otherwise an error and no change |
| Jobs.SubmittedSplits | redisdb/src/handler.rs:375-388 | The payload is id, name, target, command and the comma-joined rest, joined by bars, and splits into them again exactly when the first four hold no bar |
| Jobs.SubmitThenNext | redisdb/src/handler.rs:370-430 | Submitted to an empty queue and taken: the fields handed out are the arguments, in order, exactly when the first four hold no bar |
| Jobs.JoinConcat | redisdb/src/handler.rs:384 | The separator stands between the parts and nowhere else |
| Jobs.JobNext | redisdb/src/handler.rs:404-430 | On a queue of payloads: the five parts of the job pushed longest ago, which leaves the queue, never the malformed error; its status is set to running and nothing else changes; nothing on an empty queue |
| Jobs.JobSubmitStatusFirst | redisdb/src/handler.rs:370-403 | The submission with its steps in the intended order comes to the same |
| Jobs.JobResult | redisdb/src/handler.rs:444-469 | Status passed exactly for exit code 0, the result text under the result key, the entry in front of the results, and nothing else changed; a wrong argument count or number is an error and changes nothing |
| Jobs.ParsePrinted | redisdb/src/handler.rs:449-456 | A printed integer parses back exactly when it fits in 64 bits |
| Jobs.ParseExactly | redisdb/src/handler.rs:449-456 | A text is read as a number exactly if it is an optional sign, zeros and the digits of that number, and the number has 64 bits |
| Ipc.RoundTripsExactly | sandbox/src/ipc.cpp:221-247 | A message with 64-bit numbers comes back, whatever its payload, exactly when its three names hold no NUL and the payload is shorter than 2^32 bytes |
| Ipc.Arrives | sandbox/src/ipc.cpp:221-247 | The same with anything following it in the buffer |
| Ipc.ReceivedIsSendable | sandbox/src/ipc.cpp:226-247 | Whatever a checking receiver takes has NUL-free names and 64-bit numbers |
| Ipc.CutShortIsRejected | sandbox/src/ipc.cpp:207-252 | As intended, with length and payload checked against what was received: a datagram cut short never passes for a message |
| Ipc.DeliveredExactly | sandbox/src/ipc.cpp:221-252 | As written, any prefix of a sent message: it is delivered as sent exactly when it arrived up to its last terminator, fits the buffer, and the buffer already held the missing bytes; with header and length received, a message that fits is always delivered, its missing payload being old buffer bytes, and the read leaves the buffer exactly when the message is longer |
| Ipc.DeliveredIfRepeated | sandbox/src/ipc.cpp:241-252 | With the header received: the message delivered is the one sent exactly when the bytes after the received ones equal the bytes cut off |
| Ipc.HeaderCut | sandbox/src/ipc.cpp:226-239 | A datagram cut at or after the last terminator of its header has its header read as sent; cut earlier, its sequence number is read as missing or as another one |
| Ipc.DecimalRoundTrip | sandbox/src/ipc.cpp:112-117 | stoull undoes to_string for every 64-bit number and for no other |
| Ipc.StoullExactly | sandbox/src/ipc.cpp:238-239 | A field is read as a number exactly if it is spaces, an optional sign, digits below 2^64 and anything else; behind a minus the number is negated modulo 2^64 |
| Ipc.ValueOfPrinted | sandbox/src/ipc.cpp:238-239 | Digits have the value that they print, whatever zeros stand in front |
| Ipc.TakeFieldExact | sandbox/src/ipc.cpp:226-233 | A field is what precedes the first NUL |
| Ipc.Serialise | sandbox/src/ipc.cpp:101-126 | Appending the parts builds the message, with its length cut to 32 bits; it decodes to itself exactly if its names are NUL-free and the length fits |
| Ipc.ReadField | sandbox/src/ipc.cpp:226-233 | The loop stops at the first NUL or at the end of what was received, and the position passes one beyond |
| Ipc.Receive | sandbox/src/ipc.cpp:207-252 | As written: from the buffer and the number of bytes received to the message delivered, a thrown number error, or a read past the end of the buffer |
| Ipc.ReceiveChecked | sandbox/src/ipc.cpp:207-252 | As intended: the same with nothing taken from beyond the received bytes |
| Ipc.ReadPayload | sandbox/src/ipc.cpp:241-247 | The payload is as long as its length says, out of the bytes before a given end: the end of the buffer as written, of what was received as intended |
| Ipc.Channel.HandleMessage | sandbox/src/ipc.cpp:258-288 | Messages for others leave no trace; others are queued, or refused exactly when the queue is full; topic and wildcard subscribers are called either way |
| Ipc.Channel.GetPending | sandbox/src/ipc.cpp:295-305 | Hands out the oldest messages, up to the maximum, in order |
| Ipc.Channel.Drain | sandbox/src/ipc.cpp:307-313 | Empties the queue; what was in it counts as drained, in order |
| Ipc.Channel.constructor | sandbox/src/ipc.cpp:18 | A channel starts empty with its identity and bound |
| Ipc.Channel.Subscribe | sandbox/src/ipc.cpp:164-169 | A callback is called after those that subscribed to its topic before |
| Ipc.Channel.CountSend | sandbox/src/ipc.cpp:144-156 | A failed send counts as dropped, another one with its bytes as sent |

## Left out

Deliberate limits of single members:

- BTree.BTree.Put: re-parents pages, tags images with its own transaction and works on node records; BTreeShipped, Wal and PageLayout have these lines as written.
- BTree.BTree.Delete: goes right on equality and logs the leaf; DeleteAsWritten does neither.
- BTree.BTree.Get: keys are 32 bytes and values the 64 bytes of a slot; BTreeBytes and PageLayout.SlotRoundTrip say what strings of other lengths become.
- BTreeBytes.PutBytes: for a key of another length whose slot is taken the resulting tree is not modelled; BTreeBytes.SlotTwice shows that its leaf is out of order.
- BTreeRuns.RunLogged: recovery of the pages only, since the root id is not persisted; gets log nothing and are left out of the run.
- BTree.BTree.Init: only a new database; a restart applies images to the pool but neither root id nor next page id is persisted, so there is nothing to relate the tree to.
- BTreeShipped.ShippedBTree.Put: page contents are node records; with page bytes as written the second operation already reads outside the page, by PageLayout.LeafTurnsInner.
- Wal.Wal.ReplayCommitted: selects after reading the whole log, which the source does not do, and knows a transaction by its number only; over a restart it is right exactly under the condition of Log.TwoRuns.
- BufferPool.BufferPool.GetPage: pool calls are atomic and I/O succeeds; the pool is not claimed to stay within its capacity, because the source does not keep it there.
- BufferPool.BufferPool.EvictIfNeeded: the source ignores a failing flush on eviction and then drops the page; failures are not modelled.
- Responses.ReadValue: the up-front reservation of array space by the announced count is not modelled.
- Responses.ReadResponse: a double is its eight bytes; what is done with a length above 64 MiB is one refused read, not the state of the socket afterwards.
- Requests.PrintRequest: what copies past the end of the buffer do is not modelled.
- ZSet.ZSet.Query: the overflow of position plus limit in machine words is not modelled, and scores are real numbers.
- ZSet.BinarySearch: any search that keeps the lower bound stands for the one of the Rust library.
- TimeSeries.TimeSeriesDB.AddPoint: the overflow of age times 1000 and the JSON copy in storage are not modelled; the bound on the number of points is stored and never enforced, as in the source.
- TimeSeries.TimeSeriesDB.Query: values are real numbers, so order and rounding of sums do not matter; minimum and maximum of no values are the infinities.
- Lists.ListRemove: the panic on the count -2^63 in a build with overflow checks is not modelled.
- Store.Store.SetField: one call with nobody in between, FieldRuns has the interleavings; the panic of a build with overflow checks on wide or wrapping fields is not modelled.
- Store.ExpiresExactly: time counts in whole milliseconds.
- Ipc.Receive: what a read beyond the end of the 65536-byte buffer would find is not modelled; it is an outcome of its own.
- Ipc.Channel.CountSend: the number of bytes that the system call reports is a parameter.
- Ipc.Channel.HandleMessage: callbacks are numbers in the order in which they are called; what they do is not modelled.

Parts of the repository that are not modelled:

- Concurrent B-tree calls (the tree takes no latch over a whole put) and races inside the pool.
- The tokio runtime, sockets, files and clocks: time is a parameter, the file a sequence of pages, streams are byte sequences.
- Floating point: scores and sample values are real numbers, without NaN and infinities as inputs.
- The other store commands: sorted-set commands on keys, lpop, lrange, lindex, llen, and `rpush`, which calls `lpush`.
- TS, METRIC, SANDBOX and JOB LOG commands: string formatting over the store.
- Restart and JSON persistence of the time series.
- Streams, statistics, publish and subscribe, plugins, HTTP, the terminal interface, metrics and the log aggregator.
- The sandbox itself, cgroups, seccomp, network namespaces, snapshots, monitors, file watcher, security profiles and the process supervisor: system calls and tables.

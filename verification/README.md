# CambiumDB storage engine: a Dafny model

CambiumDB stores keys and values in B+ trees over 4096-byte slotted pages, caches the pages in a buffer pool and
replays a write-ahead log after a crash. This project models those four layers and proves what they promise each
other, from the bytes of a page up to whole runs of Insert, Get and Delete with a crash and a recovery.

The layers, bottom up:

- **Bytes and order** (`bytes.dfy`, `assoc.dfy`). Little-endian fields, `bytes.Compare` as a strict total order, and
  sorted association lists: the specification of a leaf, of a subtree and of a tree.
- **Slotted pages on bytes** (`layout.dfy`, `slotted.dfy`, `packing.dfy`, `leaf_codec.dfy`, `leaf_update.dfy`,
  `leaf_split.dfy`, `element_list.dfy`, `internal_codec.dfy`, `internal_split.dfy`, `format.dfy`). The codecs as methods
  on a 4096-byte array: slots from byte 32 upwards, elements from byte 4096 downwards, tombstones, garbage, compaction.
  Each method refines the page of `pages.dfy`: the element list, the recorded slot sizes and the two space counters.
- **The tree as a value** (`tree.dfy` and the other `tree_*.dfy`, `split_bound.dfy`). One Insert, Get or Delete with
  every branch of the code, including those that lose data. The theorems say exactly when each operation is right.
- **The tree on pages with its log** (`page_store.dfy`, `node_codec.dfy`, `store_*.dfy`, `btree.dfy`). A class whose
  methods follow the Go methods step by step, log what the code logs and refine the tree as a value. `store_log.dfy`
  gives the records of an Insert as a function of the tree.
- **Recovery** (`wal.dfy`, `recovery.dfy`, `replay.dfy`, `log_scan.dfy`, `engine.dfy`, `alloc_recovery.dfy`,
  `crash.dfy`, `lifetime.dfy`, `reuse.dfy`).
  What a record does to a page with its space counters, for the tree that writes it and for recovery, which skips the
  tree's space checks; which records are replayed; the recovery code itself; and one method that runs operations with
  flushes between them, crashes in the middle of the next one and recovers the pages, the root and the free pages.
- **Buffer pool, replacer, allocator, metadata page** (`pool_*.dfy`, `buffer_pool.dfy`, `lru_replacer.dfy`,
  `allocator.dfy`, `disk_manager.dfy`, `metadata_codec.dfy`). The double-checked fetch, unpin and delete as interleaved
  steps with an invariant, a refinement to a plain page store, freedom from deadlock and the order of evictions; the same
  operations as a class; and the page ids and the file they live in across a restart.

`dafny verify dfyconfig.toml` checks the whole project.

## Where the code does not do what it promises

The model keeps the code as it is. Each of these is a theorem with the exact condition under which the code is right,
and where it helps a concrete input on which it is not.

- The space check before an insertion leaves out the 4-byte slot, and the tree ignores the result of the insertion:
  an Insert can answer success and drop the key (`TreeLimits.DroppedInsertExample`, `TreeUpdates.AddExactly`,
  `TreeTheorems.InsertIff`).
- An update that has to split re-inserts the key beside its old element, and Get keeps finding the old value
  (`TreeLimits.UpdateSplitKeepsOld`, `TreeLimits.UpdateSplitExample`).
- Splitting an internal page does not set the kind byte of the new page, nor does the new root above it. The model
  carries the set of unused pages whose kind byte already says internal. With zero-filled fresh pages a right Insert
  never splits an internal page, so a tree stays within two levels (`TreeLimits.ZeroFilledTwoLevels`).
- The split index can equal the number of elements, which is a panic: exactly when the last recorded slot takes half of
  the bytes (`SplitBound.IndexInRangeIff`). Tight slots of at most 673 bytes rule it out, and so do recorded slot sizes
  of at most 673 bytes that fit the page (`SplitBound.SmallLeafSplit`, `SplitBound.TightIsSmall`). Small elements alone do
  not: an update in place leaves a large slot behind (`SplitBound.LooseSplitPanics`).
- An update in place keeps the size of the old slot, so a later delete counts the difference as garbage twice: the
  only operation that breaks the space accounting, and exactly then (`Pages.DeleteExact`, `TreeAccounts.ApplyExact`). The
  tree stays right, but a later Insert may trust the counter, compact, find no room and drop its key
  (`TreeLimits.LooseDeleteExample`).
- The required space is truncated to 16 bits before it is compared (`Pages.InsertExact`).
- All trees share the LSN of the metadata page, and a Begin is logged before the tree is locked: replaying two trees
  out of LSN order loses a root (`MetaRedo.SerialIff`, `MetaRedo.SharedLsnExample`).
- Recovery inserts and updates without the space check that the tree ran before, and that check may have compacted the
  page. It then refuses an insertion that the tree stored, marks the record as done and loses a committed key, or writes
  an updated element over the slots (`Replay.LostInsertExample`, `Replay.LostAfterFlushExample`,
  `Replay.OverrunExample`). `Replay.ReplayIff` says exactly for which histories a page comes back; histories without
  updates always do (`Replay.NoUpdatesFollow`).
- A page that an unfinished operation took and wrote is handed out again with its old bytes, and no page is cleared when
  it is (`Reuse.LeftOver`). Splits overwrite them (`Reuse.SplitReuse`); a new root or a first leaf is right only on a page
  that lists nothing, or lists just the new entry and refuses it a second time (`Reuse.RootReuseIff`, `Reuse.FirstLeafReuseIff`).
- Recovery has no undo: a page flushed with an uncommitted change keeps it (`Crash.NoUndo`, `Crash.CutShortIff`).
- A Begin is logged before the tree is locked. Two operations on one tree can log both Begins first; recovery then stops
  at the second operation with an error (`LogScan.LateBeginExample`).
- Deletes are not logged, as the repository's README says; a log that described the pages no longer does after the
  first key that was really removed (`BTree.BPlusTree.Delete`, `StoreOps.DeleteUnlogged`).
- A fetch panics when every frame is pinned (`PoolRuns.NoVictimIff`). SetNodeType of an internal page writes without the
  dirty flag; such a write is lost by an eviction unless the frame was already dirty or the disk already has it
  (`PoolRuns.SilentWriteIff`).
- An internal split with an empty half sends some keys to page 0 (`InternalSplitting.SplitRoutesIff`).
- Freeing a page twice hands it out twice (`DiskManager.ReleaseIff`).

Documentation and code disagree in four more places, and the model follows the code: page checksums are written but
never verified on a read; `ReadGuard.Done` says that it makes the guard inactive but does not clear the flag;
`WriteGuard.DeletePage` says that it returns true when the page was deleted but always returns false; and a reopened tree
does not read its first leaf from the metadata page.

## Model

| member | source | states |
|---|---|---|
| Bytes.OrderFacts | bplustree/b_plus_tree.go:357-363 | the byte-wise comparison that routes keys is a strict total order |
| Bytes.LtIff | bplustree/b_plus_tree.go:357-363 | a key is below another if and only if it has the smaller byte at the first difference or is a proper prefix |
| Bytes.U64RoundTrip | pagecodec/internal_node_codec.go:101-116 | a 64-bit page id is read back from its eight bytes |
| Bytes.EncodeDecodeLE | pagecodec/internal_node_codec.go:101-116 | bytes read as a number and written again are the same bytes |
| Bytes.DigitLE | pagecodec/internal_node_codec.go:101-116 | byte i of a written number is its digit of weight 256 to the i |
| Bytes.U16IsLE | pagecodec/slot_codec.go:53-77 | 16-bit fields are the little-endian numbers of two bytes |
| Assoc.PutIsUpdate | bplustree/b_plus_tree.go:110-188 | Put on a sorted list is the update of the finite map it stands for |
| Assoc.DelIsRemoval | bplustree/b_plus_tree.go:553-582 | Del on a sorted list is the removal from the finite map it stands for |
| Pages.CompactExact | pagecodec/leaf_node_codec.go:485-490 | compaction keeps the elements and makes the accounting exact, however wrong the garbage counter was; it returns exactly the counted garbage if that was exact |
| Pages.InsertRoomy | pagecodec/leaf_node_codec.go:338-408 | with any garbage counter, an insertion that succeeds takes bytes that are free and leaves a page whose free bytes are free; exact accounting stays exact |
| Pages.SetValueRoomy | pagecodec/leaf_node_codec.go:215-259 | so does an update, which puts the value |
| Pages.DeleteRoomy | pagecodec/leaf_node_codec.go:463-482 | so does a delete, whatever size the slot records |
| Pages.InsertExact | pagecodec/leaf_node_codec.go:338-408 | on a page with exact accounting an insertion that is not refused keeps the accounting exact, and the free-space pointers cross only when the 16-bit requirement overflows |
| Pages.SetValueExact | pagecodec/leaf_node_codec.go:187-259 | an update after its space check keeps the accounting exact and puts the value |
| Pages.CheckedExact | pagecodec/leaf_node_codec.go:196-213 | a positive space check keeps elements and accounting and leaves at least the room asked for |
| Pages.InsertLandsIff | pagecodec/leaf_node_codec.go:338-408 | with exact accounting and a size below 65536, an insertion succeeds if and only if element and slot fit the free bytes or the counted garbage, and is refused otherwise; the new free bytes and garbage, after a compaction exactly when the free bytes did not do |
| Pages.UpdateLandsIff | pagecodec/leaf_node_codec.go:187-259 | an update passes its check if and only if the value is not longer or the new element fits the free bytes or the garbage; then it puts the value |
| Pages.DeleteExact | pagecodec/leaf_node_codec.go:463-482 | a delete keeps the accounting exact if and only if the slot still records the size of its element |
| Layout.DataFits | pagecodec/leaf_node_codec.go:439-460 | disjoint elements never need more bytes than lie above the free region, so compaction always has room |
| Slotted.InsertSlot | pagecodec/leaf_node_codec.go:586-667 | the slot goes before the first greater live key and the slots after it, tombstones included, move up by one |
| Slotted.LinearSearch | pagecodec/leaf_node_codec.go:542-572 | finds the row of a live key, or shows that no live row has it |
| Slotted.DeleteElement | pagecodec/leaf_node_codec.go:463-482 | exactly the row of the key becomes a tombstone; every other extent stays in place and disjoint |
| Packing.GetAll | pagecodec/leaf_node_codec.go:411-436 | the live elements in slot order, read from their extents |
| Packing.PutAll | pagecodec/leaf_node_codec.go:439-460 | the page holds exactly the given elements, packed and without garbage |
| Packing.Compact | pagecodec/leaf_node_codec.go:485-490 | the element list is unchanged and every byte outside it is free |
| LeafCodec.DecodeElement | pagecodec/leaf_node_codec.go:28-58 | an encoded element is decoded to itself |
| LeafCodec.CompactLeaf | pagecodec/leaf_node_codec.go:485-490 | compaction of the bytes refines compaction of the page |
| LeafCodec.InsertElement | pagecodec/leaf_node_codec.go:338-408 | on bytes: with need the size of element and slot, it is inserted if and only if need, in 16 bits, is at most the free bytes, or need is at most the garbage; a success adds exactly the binding in key order, takes need bytes and compacts only when the free bytes do not do; a refusal changes no byte |
| LeafCodec.DeleteElement | pagecodec/leaf_node_codec.go:463-482 | on bytes: removes exactly its key and counts its garbage, or changes no byte |
| LeafUpdate.ShrinkValue | pagecodec/leaf_node_codec.go:231-236 | a value that is not longer is overwritten inside its own extent and the slot keeps its size |
| LeafUpdate.GrowValue | pagecodec/leaf_node_codec.go:238-259 | a longer value moves the element to the free region and the old extent becomes garbage |
| LeafUpdate.SetValue | pagecodec/leaf_node_codec.go:215-259 | on bytes: refines the page-level update in both branches |
| LeafSplitting.FindSplitIndex | pagecodec/leaf_node_codec.go:492-508 | the index computed on the page is the split index of its recorded sizes |
| LeafSplitting.SplitNode | pagecodec/leaf_node_codec.go:509-540 | on bytes: two packed pages with the two parts of the list, linked between the old neighbours; a panic exactly when the index is out of range |
| ElementList.EncodeAll | pagecodec/leaf_node_codec.go:60-78 | the payload is the count followed by each element with its length |
| ElementList.DecodeAll | pagecodec/leaf_node_codec.go:80-100 | decoding a payload gives back the encoded list and stays inside it |
| ElementList.EncodeElement | pagecodec/leaf_node_codec.go:103-118 | encoding a decoded element gives its bytes back |
| ElementList.EncodeLeaf | pagecodec/leaf_node_codec.go:60-78 | the payload of a leaf page encodes exactly its live elements |
| ElementList.DecodeLeaf | pagecodec/leaf_node_codec.go:80-100 | the list decoded from the log is the element list the page showed, and each decoded slot has the size of its element |
| InternalCodec.DecodeSep | pagecodec/internal_node_codec.go:29-56 | an encoded separator is decoded to itself |
| InternalCodec.SetChild | pagecodec/internal_node_codec.go:122-148 | exactly one of the two ids of one separator changes |
| InternalCodec.PlaceIsRoute | pagecodec/internal_node_codec.go:450-542 | the slot position of a key splits the live separators where the search does, whatever tombstones lie between |
| InternalCodec.InsertSeparator | pagecodec/internal_node_codec.go:450-542 | on bytes: the separators become those of the list insertion, with both live neighbours pointing at the new children |
| InternalCodec.CompactInternal | pagecodec/internal_node_codec.go:350-355 | compaction keeps the separators and frees every other byte |
| InternalCodec.InsertElement | pagecodec/internal_node_codec.go:174-241 | when it inserts, when it refuses without changing a byte and when it leaves the free region, and the exact room left |
| InternalSplitting.FindNextChild | pagecodec/internal_node_codec.go:150-171 | on bytes: the child the separators route the key to |
| InternalSplitting.SplitRoutesIff | pagecodec/internal_node_codec.go:376-404 | choosing a half by the promoted key and searching it agrees with the whole page for every key, if and only if neither half is empty |
| InternalSplitting.FindSplitIndex | pagecodec/internal_node_codec.go:357-374 | the index computed on the page is the split index of the separators' own sizes |
| InternalSplitting.SplitNode | pagecodec/internal_node_codec.go:376-404 | on bytes: the separators before and after the index on two packed pages, the one at the index promoted; a panic exactly when there is none |
| InternalSplitting.EncodeSep | pagecodec/internal_node_codec.go:101-116 | encoding a decoded separator gives its bytes back |
| InternalSplitting.EncodeInternal | pagecodec/internal_node_codec.go:58-76 | the payload of an internal page encodes exactly its live separators |
| InternalSplitting.DecodeInternal | pagecodec/internal_node_codec.go:78-98 | the list decoded from the log is the separator list of the page, and each decoded slot has the size of its separator |
| Format.PageFormat | pagecodec/header_codec.go:49-70 | where the counts, the slots and the elements of a written page stand, byte by byte |
| Format.LeafFormat | pagecodec/leaf_node_codec.go:103-118 | the bytes of a leaf element |
| Format.SepFormat | pagecodec/internal_node_codec.go:101-116 | the bytes of a separator |
| TreeStructure.FlatOk | bplustree/b_plus_tree.go:431-548 | a well-formed subtree holds strictly ascending keys inside its bounds |
| TreeStructure.GetIsLookup | bplustree/b_plus_tree.go:71-108 | the recursive descent finds exactly what a lookup in all the elements finds |
| TreeRoutes.WriteFrame | bplustree/b_plus_tree.go:431-548 | a write never shares a page and touches only its own subtree and fresh pages |
| TreeRoutes.SepInside | bplustree/b_plus_tree.go:306-429 | a promoted separator lies strictly inside the bounds of its subtree, whatever else went wrong |
| TreeInsert.LeafSplitIff | bplustree/b_plus_tree.go:306-365 | a leaf split is right if and only if its guards hold |
| TreeInsert.UpdateSplitWrong | bplustree/b_plus_tree.go:452-461 | an update that has to split is never right |
| TreeInsert.GrowIff | bplustree/b_plus_tree.go:190-304 | a new root is right if and only if the split below it is, its page reads as internal and the separator fits |
| TreeSplit.SplitRouting | bplustree/b_plus_tree.go:419-425 | the half chosen by the promoted key routes every key to the child of the unsplit node, with the same bounds |
| TreeSplit.NodeSplitIff | bplustree/b_plus_tree.go:367-429 | an internal split with a pending separator is right if and only if the child's write was and its guards hold |
| TreeTheorems.WriteIff | bplustree/b_plus_tree.go:431-548 | below the root a write is right if and only if the guards along its path hold |
| TreeTheorems.InsertIff | bplustree/b_plus_tree.go:110-188 | Insert leaves a well-formed tree with exactly the old bindings and the new one, every page owned once, if and only if the guards along its path hold |
| TreeUpdates.UpdateExactly | bplustree/b_plus_tree.go:452-461 | Insert of a present key whose leaf has exact accounting: if the value is not longer, or the element fits the free bytes or the garbage of that leaf, it puts the value and takes no page; otherwise it is wrong |
| TreeUpdates.AddExactly | bplustree/b_plus_tree.go:462-476 | Insert of an absent key that passes the space check of such a leaf: the exact inequality on free bytes and garbage under which the key is stored; otherwise Insert answers success and the bindings stay the old ones |
| TreeSplit.LeafRootPages | bplustree/b_plus_tree.go:190-242 | a leaf root that splits takes the next page for the new root and the one after it for the right half |
| TreeSplit.NodeRootPages | bplustree/b_plus_tree.go:244-304 | so does an internal root |
| TreeTheorems.RemoveCorrect | bplustree/b_plus_tree.go:553-582 | Delete removes exactly its key or reports it missing, keeps every page and a well-formed tree |
| TreeChain.WriteLinked | bplustree/b_plus_tree.go:306-365 | a right write keeps the leaves linked in key order, from the same first leaf to the same end |
| TreeChain.RemoveLinked | bplustree/b_plus_tree.go:553-582 | a delete keeps the leaf chain |
| TreeRuns.ApplyCorrect | bplustree/b_plus_tree.go:45-608 | any Get or Delete, and an Insert whose guards hold, replies as a finite map does and keeps the invariant |
| TreeRuns.RunCorrect | bplustree/b_plus_tree.go:45-608 | every run of such operations, with any mix of updates in place and deletes, replies exactly as a finite map driven by the same operations |
| TreeRuns.FlatIsChain | bplustree/b_plus_tree.go:142-160 | the elements of the leaf chain, leaf by leaf, are the elements of the tree |
| TreeAccounts.WriteExact | bplustree/b_plus_tree.go:431-548 | a right write keeps exact space accounting exact in every leaf, through every split |
| TreeAccounts.RemoveExact | bplustree/b_plus_tree.go:553-582 | a delete keeps it exact in every leaf if and only if the slot of its key records the size of its element |
| TreeAccounts.ApplyExact | bplustree/b_plus_tree.go:45-608 | an operation whose guards hold keeps the accounting of the whole tree exact if and only if it is not the delete of a loose slot |
| TreeAccounts.RunExact | bplustree/b_plus_tree.go:45-608 | over every run without such a delete the counters of every leaf stay exact |
| SplitBound.SplitIndexIs | pagecodec/header_codec.go:259-267 | without wrap-around the index is the first prefix with more than half of the bytes |
| SplitBound.SplitIndexWraps | pagecodec/leaf_node_codec.go:492-508 | for any sizes the index is the first prefix whose sum modulo 65536 exceeds half of the total modulo 65536, or the length of the list |
| SplitBound.IndexInRangeIff | pagecodec/leaf_node_codec.go:492-508 | without wrap-around the split index is in range if and only if the last recorded slot takes less than half of the bytes |
| SplitBound.TightIsSmall | pagecodec/leaf_node_codec.go:492-540 | tight slots of elements of at most 673 bytes meet the condition of the next row |
| SplitBound.SmallLeafSplit | pagecodec/leaf_node_codec.go:492-540 | with recorded slot sizes of at most 673 bytes that fit the page, a full leaf splits in range and either half takes the pending element, so the kind byte of the new page is the only guard left |
| SplitBound.LooseSplitPanics | pagecodec/leaf_node_codec.go:215-236 | six elements of 673 bytes, one of which was shrunk in place from 4000, on which the split panics |
| SplitBound.SmallNodeSplit | pagecodec/internal_node_codec.go:357-404 | with small separators an internal split goes well if and only if the new page already reads as internal |
| TreeLimits.DroppedInsertExample | bplustree/b_plus_tree.go:465-476 | an Insert that answers success and stores nothing |
| TreeLimits.LooseDeleteExample | pagecodec/leaf_node_codec.go:463-482 | shrink, delete, insert: the third operation answers success and stores nothing |
| TreeLimits.UpdateSplitKeepsOld | bplustree/b_plus_tree.go:452-461 | whenever an update splits the root leaf, Get still finds the old value |
| TreeLimits.UpdateSplitExample | bplustree/b_plus_tree.go:452-461 | a concrete such update |
| TreeLimits.ZeroFilledTwoLevels | bplustree/b_plus_tree.go:244-304 | with zero-filled fresh pages a right operation keeps the tree within two levels |
| TreeLimits.ZeroFilledRun | bplustree/b_plus_tree.go:244-304 | and so does every right run |
| NodeCodec.FindValue | pagecodec/leaf_node_codec.go:157-172 | the value of the first element with the key, which on ascending keys is the lookup |
| NodeCodec.FindNextChild | pagecodec/internal_node_codec.go:150-171 | the child routed to, and 0 on a page without separators |
| NodeCodec.TotalDataRegionSize | pagecodec/header_codec.go:259-267 | the total of the sizes in 16-bit arithmetic |
| NodeCodec.FindSplitNodeIndex | pagecodec/leaf_node_codec.go:492-508 | the loop computes the split index |
| PageStore.InsertSepMatches | pagecodec/internal_node_codec.go:174-241 | inserting a fresh separator whose left child is already in its gap inserts the right child after it in the child sequence and keeps neighbours' pointers equal |
| PageStore.JournalLevel | bplustree/b_plus_tree.go:431-548 | as long as the log describes the pages, every leaf page fills its 4064 bytes exactly with free bytes, counted garbage and elements |
| PageStore.FlushedLags | bufferpoolmanager/simple_buffer_pool_manager.go:369-387 | a page flushed at some moment lags behind every longer log at that position |
| StoreSteps.LeafSplitRedo | storageengine/wal_recovery.go:126-185 | redoing a logged leaf split gives the leaves of the live split and insertion with their counters and next pointers, refused insertions included, whatever the pages held |
| StoreSteps.NodeSplitRedo | storageengine/wal_recovery.go:187-236 | redoing a logged internal split gives the separators of the live split and insertion, refused insertions included |
| StoreSteps.LeafSplitJournal | bplustree/b_plus_tree.go:306-365 | logging a leaf split keeps every page equal to what the logged records made of a blank page |
| StoreSteps.NodeSplitJournal | bplustree/b_plus_tree.go:367-429 | logging an internal split keeps every page equal to what the logged records made of a blank page |
| StoreSteps.RootGrown | bplustree/b_plus_tree.go:190-304 | the pages after a root split hold the grown tree |
| StoreNodes.AbsorbTakes | bplustree/b_plus_tree.go:508-528 | a node that takes, or loses, the separator of a split child holds what the tree as a value says |
| StoreNodes.AbsorbSplits | bplustree/b_plus_tree.go:367-429 | a node that splits below its parent holds what the tree as a value says |
| StoreNodes.AbsorbRoot | bplustree/b_plus_tree.go:244-304 | an internal root split holds what the tree as a value says |
| StoreOps.InsertKept | bplustree/b_plus_tree.go:110-188 | the pages hold a sound tree with the put binding if and only if the guards hold |
| StoreOps.GuardedInsertRuns | bplustree/b_plus_tree.go:110-188 | an insertion whose guards hold does not panic |
| StoreOps.RemoveRep | bplustree/b_plus_tree.go:553-608 | deleting the element on the page found by the loop is deleting it from the tree |
| StoreOps.DeleteKept | bplustree/b_plus_tree.go:553-582 | after a deletion the pages hold a sound tree without the key, with exact accounting if and only if the slot was tight |
| StoreOps.DeleteUnlogged | bplustree/b_plus_tree.go:553-582 | after a deletion the log no longer describes the page if and only if something was removed |
| StoreLog.InsertOnce | bplustree/b_plus_tree.go:110-188 | no two records of an Insert touch the same page |
| StoreLog.InsertMarks | bplustree/b_plus_tree.go:110-188 | its records are a Begin, operations and a Commit |
| StoreLog.InsertDraws | bufferpoolmanager/direct_io_disk_manager.go:211-256 | the pages it logs as created are the free pages from the front and then new ids, in order, none skipped and none twice |
| BTree.BPlusTree.constructor | bplustree/b_plus_tree.go:32-43 | a tree without pages is valid, empty, has an empty log and metadata LSN 0 |
| BTree.BPlusTree.NewLoggedPage | bplustree/b_plus_tree.go:121-142 | a fresh page, the next one of the allocator, in no other use, with one record of its creation |
| BTree.BPlusTree.HandleLeafNodeSplit | bplustree/b_plus_tree.go:306-365 | the pages, the separator and the two records of a leaf split; not ok exactly when it panics |
| BTree.BPlusTree.HandleLeafRootNodeSplit | bplustree/b_plus_tree.go:190-242 | the same under a new internal root |
| BTree.BPlusTree.HandleInternalNodeSplit | bplustree/b_plus_tree.go:367-429 | the pages, the promoted separator and the two records of an internal split |
| BTree.BPlusTree.HandleInternalRootNodeSplit | bplustree/b_plus_tree.go:244-304 | the same under a new root whose kind byte is left alone |
| BTree.BPlusTree.WriteTraversal | bplustree/b_plus_tree.go:431-548 | the recursion does to the pages exactly what the write does to the tree and logs exactly its records, terminating on the height; the metadata LSN is that of the last record that moved the root |
| BTree.BPlusTree.EnsureRoot | bplustree/b_plus_tree.go:119-160 | an empty tree gets a logged leaf as root and first leaf |
| BTree.BPlusTree.Insert | bplustree/b_plus_tree.go:110-188 | refines the value-level Insert; valid with the put binding if and only if the guards hold, which are inequalities on the pages of the path; the log grows by exactly the records of the Insert, with consecutive LSNs; then it still describes every page, the root, the first leaf, the free pages and the metadata LSN |
| BTree.BPlusTree.ReadTraversal | bplustree/b_plus_tree.go:71-108 | the descent on pages finds the lookup in the elements |
| BTree.BPlusTree.Get | bplustree/b_plus_tree.go:45-69 | Get is the lookup in the bindings of the tree |
| BTree.BPlusTree.FindLeafNodePageId | bplustree/b_plus_tree.go:585-608 | the loop ends at the leaf the recursive descent ends at |
| BTree.BPlusTree.Delete | bplustree/b_plus_tree.go:553-582 | removes exactly its key or reports it missing, stays valid and logs nothing; the accounting stays exact if and only if the slot was tight, and the log still describes the pages if and only if nothing was removed |
| Wal.EffectAlike | storageengine/wal_recovery.go:92-282 | what a record makes of a page depends only on the elements, counters and next pointer it shows |
| Replay.StepIff | storageengine/wal_recovery.go:238-282 | redoing a record gives the page the tree made of it, counters included, if and only if the tree did not have to compact or the garbage pays for the element and its slot |
| Replay.ReplayIff | storageengine/wal_recovery.go:92-282 | a page that was flushed anywhere in its history is brought to its final contents and counters if and only if every record on it since the flush, or since a later split put its contents back, passes that test |
| Replay.NoUpdatesFollow | storageengine/wal_recovery.go:92-282 | in a history without updates every record passes it |
| Replay.WrittenExact | bplustree/b_plus_tree.go:431-548 | a page whose records all did their job has exact accounting |
| Replay.ReplayExact | storageengine/wal_recovery.go:92-282 | redo keeps the space accounting of a page exact, whatever else goes wrong |
| Replay.LostInsertExample | storageengine/wal_recovery.go:238-259 | three records after which redo of a page that was never flushed has lost a committed key |
| Replay.LostAfterFlushExample | storageengine/wal_recovery.go:238-259 | the same for the page flushed after the second record |
| Replay.OverrunExample | storageengine/wal_recovery.go:261-282 | an exact page on which the tree's update succeeds and its redo writes over the slots |
| Recovery.Restartable | storageengine/wal_recovery.go:15-282 | replaying a prefix and then the whole log is replaying the log once |
| Recovery.RedoLsn | storageengine/wal_recovery.go:92-282 | after any replay the LSN of a page is the largest of its own and those of the records that touch it, also of one that was refused |
| LogScan.ReplaysCommitted | storageengine/wal_recovery.go:296-355 | Recover fails exactly on a record without its Begin; failed or not, it replays exactly the records followed by a Commit of their tree with no Begin or Commit of that tree between and no stray record before that Commit |
| LogScan.LateBeginExample | bplustree/b_plus_tree.go:110-115 | two operations whose Begins were both logged before the lock: recovery stops at a stray record |
| LogScan.ReplayInOrder | storageengine/wal_recovery.go:296-355 | the records of one tree are replayed in log order |
| LogScan.ReplayByCommit | storageengine/wal_recovery.go:296-355 | groups are replayed in the order of their Commits, whatever their trees |
| LogScan.AppliedOnce | storageengine/wal_recovery.go:296-355 | no record is replayed twice |
| LogScan.RecoverRestartable | storageengine/wal_recovery.go:284-358 | a recovery that stops after any number of replayed records, also in the middle of a group, and is run again gives the same pages; each page may have been left at a different record |
| LogScan.PrefixRestartable | storageengine/wal_recovery.go:284-358 | so does one that had read only a prefix of the log |
| LogScan.InterleavingInvisible | storageengine/wal_recovery.go:296-355 | page contents do not depend on how the groups of other trees interleave in the log |
| MetaRedo.SwapRemoveExact | storageengine/wal_recovery.go:29-44 | the swap-remove takes exactly one id off a duplicate-free free list, and the last id takes its place |
| MetaRedo.MetaRestartable | storageengine/wal_recovery.go:79-125 | metadata recovery is restartable for every record order |
| MetaRedo.GuardIff | storageengine/wal_recovery.go:79-125 | the guard of a record passes exactly when nothing replayed before it is as late |
| MetaRedo.ReplayedLsn | storageengine/wal_recovery.go:15-125 | the metadata LSN after any replay is the largest of its own and those of the root and first-leaf records and of the pages taken off the free list; a page that extends the file does not move it |
| MetaRedo.SerialIff | storageengine/wal_recovery.go:79-125 | no metadata record is skipped if and only if the replay is in LSN order |
| MetaRedo.SerialReplay | storageengine/wal_recovery.go:79-125 | a serial replay leaves what the history without guards leaves |
| MetaRedo.SharedLsnExample | storageengine/wal_recovery.go:79-90 | two trees, one of which loses its root |
| Engine.StorageEngine.RemoveFree | storageengine/wal_recovery.go:29-44 | the loop removes the first occurrence by a swap with the last id |
| Engine.StorageEngine.RedoCreatePage | storageengine/wal_recovery.go:15-77 | file growth or swap-remove under the metadata guard, and the kind byte of exactly the created page without a guard |
| Engine.StorageEngine.RedoSplitLeaf | storageengine/wal_recovery.go:126-185 | both pages, each under its own guard, get the half of the logged list and the insertion with its space check; no other page changes |
| Engine.StorageEngine.RedoSplitInternal | storageengine/wal_recovery.go:187-236 | both pages, each under its own guard, get the half of the logged separators and the insertion with its space check; no other page changes |
| Engine.StorageEngine.RedoInsertLeafNodeEntry | storageengine/wal_recovery.go:238-259 | runs InsertElement under the page guard; the page is the one the tree made if and only if the record passes the test of Replay.StepIff |
| Engine.StorageEngine.RedoUpdateLeafNodeEntry | storageengine/wal_recovery.go:261-282 | runs SetValue under the page guard; the page is the one the tree made if and only if the record passes the test of Replay.StepIff |
| Engine.StorageEngine.Recover | storageengine/wal_recovery.go:284-358 | the scan loop with its buffers replays exactly the committed records, in the order of their commits, on all pages and the metadata, and reports whether it met a stray record, at which it stops |
| AllocRecovery.VacancyFollow | storageengine/wal_recovery.go:15-77 | one created page: it leaves the free list, whatever its place there, or the maximum and the file grow to it |
| AllocRecovery.AllocRecovers | storageengine/wal_recovery.go:15-77 | with any number of trees in a log replayed in LSN order, a metadata page written at any moment ends up with the free pages and the maximum the log leaves, no page twice in the free list, and every page inside the file |
| AllocRecovery.MetaLsnIs | bplustree/b_plus_tree.go:135-158 | the metadata LSN a tree keeps is the LSN of the last record that moved its root or its first leaf, or the old one |
| AllocRecovery.ClosedPageStays | storageengine/wal_recovery.go:15-90 | a metadata page that is up to date up to this LSN is left as it is by the replay of the log, its LSN apart |
| Crash.ReplaysOwn | storageengine/wal_recovery.go:296-355 | with any number of trees in the log, recovery replays on a page exactly the committed records of its own tree |
| Crash.PageRecoversIff | storageengine/wal_recovery.go:284-358 | after a crash in the middle of an operation a page flushed at any committed moment gets back its kind, and its contents if and only if recovery follows its records |
| Crash.NoUndo | storageengine/wal_recovery.go:92-282 | a page flushed after some records of an operation that never committed keeps what was flushed |
| Crash.FlushedUntouched | storageengine/wal_recovery.go:92-282 | if none of those records touches the page it is right after recovery |
| Crash.FlushedTooEarlyIff | storageengine/wal_recovery.go:92-282 | if exactly one of them touches the page, the page is right if and only if the record was an update to the value already there or a separator the page refused; an insertion or a split never is |
| Crash.CutShortIff | bplustree/b_plus_tree.go:110-188 | so it is for every Insert cut short after any number of its records, as no two of them touch the same page |
| Crash.CrashRecoversIff | storageengine/wal_recovery.go:284-358 | every page of the tree comes back with its counters if and only if recovery follows every record it needs |
| Crash.CrashRecovers | storageengine/wal_recovery.go:284-358 | then the pages hold a sound tree with exactly the bindings of the committed operations and exact accounting in every leaf |
| Crash.MetaRecovers | storageengine/wal_recovery.go:79-125 | with any number of trees in a log replayed in LSN order, a metadata page written at any moment ends up naming the root and first leaf the log names for each tree |
| Crash.HeadsRecover | storageengine/wal_recovery.go:79-125 | these are the root and first leaf the tree had after its last committed operation |
| Crash.Execute | bplustree/b_plus_tree.go:45-608 | whole runs on pages, deletes included, reply as a finite map and leave a sound tree; without deletions the log describes every page, the root, the first leaf and the free pages they leave |
| Lifetime.RunAndFlush | bplustree/b_plus_tree.go:45-608 | the same with pages flushed between the operations: every page on disk stays at a position of the log |
| Lifetime.AllocRestored | storageengine/wal_recovery.go:15-77 | the free pages and the maximum in the recovered metadata are those the tree had after its last committed operation |
| Lifetime.Restart | storageengine/wal_recovery.go:284-358 | recovery from those pages: all come back if and only if recovery follows their records, and then the pages and the metadata hold the tree, with a free list and a maximum id that are sound for its pages and all of them inside the file |
| Lifetime.CrashAndRecover | storageengine/wal_recovery.go:284-358 | a new tree runs operations with flushes, crashes in the middle of another one and recovers: the replies are those of a finite map, and the tree under the recovered root has exactly its bindings, and the recovered allocator hands out none of its pages, if recovery follows the records, which it does when no operation wrote over a binding |
| Lifetime.CleanCloseStays | storageengine/storage_engine.go:113-119 | the metadata page written with the metadata LSN, the root, the first leaf and the allocator of a tree is left as it is by the replay at the next start, its LSN apart |
| Reuse.LeftOver | storageengine/wal_recovery.go:296-355 | recovery leaves a page that no committed operation wrote as it finds it and gives the allocator the ids of the committed state back, so a page the unfinished operation wrote is handed out with its bytes |
| Reuse.RootReuseIff | bplustree/b_plus_tree.go:190-304 | a new root on a page with left-over bytes lists its two children alone if and only if the page listed no separator, or listed this one and is full |
| Reuse.FirstLeafReuseIff | bplustree/b_plus_tree.go:119-160 | the first leaf on such a page holds its element alone if and only if the page has none and takes this one, or has just this one and refuses it |
| Reuse.SplitReuse | bplustree/b_plus_tree.go:306-429 | the right page of a leaf or internal split holds its half whatever it held before |
| PoolSteps.VictimFree | bufferpoolmanager/simple_buffer_pool_manager.go:245-274 | no pinned frame is ever chosen as victim |
| PoolRuns.StepKeeps | bufferpoolmanager/simple_buffer_pool_manager.go:187-366 | every enabled step of every session keeps the invariant: one frame per page, pin count equal to the guards on it, exclusive locks |
| PoolRuns.StepRefines | bufferpoolmanager/write_guard.go:40-110 | fetch, eviction, pin and unpin are invisible to readers; a flagged write and a delete change one page |
| PoolRuns.RunRefines | bufferpoolmanager/simple_buffer_pool_manager.go:187-366 | over all interleavings the invariant holds and readers see a plain page store |
| PoolRuns.Partition | bufferpoolmanager/simple_buffer_pool_manager.go:187-366 | free frames, frames in the replacer and pinned frames partition the pool |
| PoolRuns.NoVictimIff | bufferpoolmanager/lru_replacer.go:47-58 | the victim search panics if and only if every frame holds a pinned page |
| PoolProgress.NoDeadlock | bufferpoolmanager/simple_buffer_pool_manager.go:187-366 | in every reachable state with a session inside the pool some session can take its next step, or is about to panic in the victim search |
| PoolProgress.CanFinish | bufferpoolmanager/simple_buffer_pool_manager.go:187-366 | from every reachable state there is a run, no longer than the work of the sessions inside, after which nobody is inside the pool or somebody panics |
| PoolRuns.FlushAllPages | bufferpoolmanager/simple_buffer_pool_manager.go:369-387 | afterwards the disk alone is what readers see |
| PoolRuns.SilentWriteIff | bplustree/internal_node_writer.go:37-40 | a write without the dirty flag, over any run in which nobody writes to its frame, survives the eviction of its page if and only if the frame was already dirty or the disk already has it |
| PoolRecency.ReplacerByRecency | bufferpoolmanager/simple_buffer_pool_manager.go:337-366 | over every run from an empty pool the replacer lists the frames in the order of their last unpin, latest first |
| PoolRecency.DirtyIff | bufferpoolmanager/write_guard.go:82-91 | over every run a cached page is dirty if and only if it was written to since it was read from disk |
| PoolRecency.EvictsLeastRecent | bufferpoolmanager/simple_buffer_pool_manager.go:245-274 | at any moment of any run a page that is not in memory takes a free frame, and then no page leaves; otherwise it takes the frame of the page unpinned least recently, which alone leaves and is written back if and only if it was written to since it was read |
| PoolRecency.StaysCached | bufferpoolmanager/simple_buffer_pool_manager.go:187-366 | a page leaves the pool only by such an eviction or by its own delete |
| PoolRecency.FreeInOrder | bufferpoolmanager/simple_buffer_pool_manager.go:245-334 | over every run free frames are used in the order in which they became free |
| LruReplacer.LRUReplacer.Victim | bufferpoolmanager/lru_replacer.go:47-58 | takes the frame at the back, or panics on an empty list |
| LruReplacer.LRUReplacer.Insert | bufferpoolmanager/lru_replacer.go:61-69 | list and map stay in step if and only if the frame was not listed |
| LruReplacer.LRUReplacer.Remove | bufferpoolmanager/lru_replacer.go:72-81 | takes exactly the frame off the list, or panics when it is not listed |
| LruReplacer.OrderIsRecency | bufferpoolmanager/lru_replacer.go:47-81 | the list is ordered by last insertion, so the victim is the frame unpinned least recently |
| BufferPool.SimpleBufferPoolManager.constructor | bufferpoolmanager/simple_buffer_pool_manager.go:121-158 | a valid pool with every frame free |
| BufferPool.SimpleBufferPoolManager.FetchPage | bufferpoolmanager/simple_buffer_pool_manager.go:187-287 | pins the page in one frame with what readers see of it, clean if it was read now, and no other frame changes; a page in memory stays in its frame, another takes a free frame, or in a full pool the frame of the page unpinned least recently, written back exactly if dirty; a panic if and only if the page is not cached and every frame is pinned |
| BufferPool.SimpleBufferPoolManager.UnpinPage | bufferpoolmanager/simple_buffer_pool_manager.go:337-366 | releases exactly one guard and one pin; the page stays in its frame, now the one unpinned last, and no reader sees a difference |
| BufferPool.SimpleBufferPoolManager.DeletePage | bufferpoolmanager/simple_buffer_pool_manager.go:292-334 | succeeds if and only if no other guard pins the page; readers of other pages see no difference |
| BufferPool.SimpleBufferPoolManager.FlushAllPages | bufferpoolmanager/simple_buffer_pool_manager.go:369-387 | afterwards the disk alone holds what readers see |
| Allocator.AllocateSound | bufferpoolmanager/direct_io_disk_manager.go:211-256 | an allocated page is not page 0, not in use and not on the free list afterwards |
| Allocator.SoundVacancy | bufferpoolmanager/direct_io_disk_manager.go:211-256 | an allocator is sound for the pages in use whatever the order of its free list |
| DiskManager.ReleaseIff | bufferpoolmanager/direct_io_disk_manager.go:259-267 | freeing a page keeps the allocator sound if and only if it was allocated and is not already free |
| DiskManager.RecycledInOrder | bufferpoolmanager/direct_io_disk_manager.go:211-267 | over every run of allocations and deallocations the recycled ids are handed out in the order in which they were freed |
| DiskManager.DirectIODiskManager.constructor | bufferpoolmanager/direct_io_disk_manager.go:78-99 | a new file holds one metadata page that decodes to the empty metadata |
| DiskManager.DirectIODiskManager.Open | bufferpoolmanager/direct_io_disk_manager.go:101-117 | reopening gives the saved metadata and a sound allocator |
| DiskManager.DirectIODiskManager.Close | bufferpoolmanager/direct_io_disk_manager.go:270-294 | page 0 encodes the metadata and every other page is unchanged; a panic exactly when it does not fit |
| DiskManager.DirectIODiskManager.AllocatePage | bufferpoolmanager/direct_io_disk_manager.go:211-256 | never page 0, never a page in use, always inside the file; the file grows by 16 zero pages exactly when it is full; no id is lost |
| DiskManager.DirectIODiskManager.DeallocatePage | bufferpoolmanager/direct_io_disk_manager.go:259-267 | the manager stays sound if and only if the page was allocated and is not already free |
| DiskManager.DirectIODiskManager.EnsurePageExists | bufferpoolmanager/direct_io_disk_manager.go:176-207 | the maximum id reaches the page and the file grows to exactly the pages it needs, or not at all; no id is lost if and only if the page is at most one above the old maximum |
| DiskManager.CloseAndOpen | bufferpoolmanager/direct_io_disk_manager.go:49-118 | what was closed is what a restart opens |
| MetadataCodec.EncodeMetaDataPage | pagecodec/metadata_codec.go:24-67 | the words of the page for some iteration order of each map; a panic if and only if 8 * (6 + 2 * roots + free + 2 * first leaves) exceeds 4096 |
| MetadataCodec.BuiltAll | pagecodec/metadata_codec.go:82-93 | reading the pairs back gives the map for every iteration order |
| MetadataCodec.DecodeMetaDataPage | pagecodec/metadata_codec.go:71-129 | decoding an encoded page gives the same metadata and stays in bounds |
| Format.MetaHeadFormat | pagecodec/metadata_codec.go:24-67 | the positions of the words up to the root pages |
| Format.MetaTailFormat | pagecodec/metadata_codec.go:24-67 | the positions of the words after them |

## Left out

- The TCP server, `main.go`, file opening, Direct I/O flags, memory locking, logging output and the wiring in `storageengine/storage_engine.go`.
- The iterator and its cursors: ordering is stated on the leaf chain instead.
- Node readers, writers and cursors as objects of their own: they forward to the codecs and are part of the tree's steps.
- Page checksums: the four bytes are unconstrained and no operation reads them.
- The log file format and the assignment of LSNs, which belong to an external library: the log is a sequence of records with increasing LSNs.
- I/O errors: reads and writes of the file succeed, and the paths that clean up after a failed allocation or eviction are not modelled.
- Page latches (`frame.mutex`) and the tree's own mutex: a tree runs one operation at a time; the interleavings are those of the buffer pool's own locks and counters. A thread with several guards is several sessions.
- `DeleteElement` of internal pages, which no caller uses.
- BTree.BPlusTree.Get: on an empty tree the code searches page 0, whose bytes are the metadata page and not a slotted page; the model answers that the key is missing.
- BTree.BPlusTree.constructor: a tree without pages only, whose first page does not read as internal; reopening an existing tree is not modelled here. The code does not restore the first leaf then.
- Crash.CrashRecovers: a page that was never written to the file is blank there, with LSN 0; that is so for pages the file grew by, and pages reused from the free list would have to be cleared. The allocator is that of the committed state; `Lifetime.Restart` takes it from the recovered metadata.
- BTree.BPlusTree.NewLoggedPage: the page handed out is blank apart from its kind byte, as it is in a zero-filled file; `reuse.dfy` says which new pages survive left-over bytes, one page at a time and not over whole runs.
- Engine.StorageEngine.RedoUpdateLeafNodeEntry: an update of a key that the page does not hold, or one that overruns, leaves a page whose bytes are not described further.
- Engine.StorageEngine.RedoCreatePage: the kind byte of an internal page is written without the dirty flag; the model shows it to every later reader, as the insertion that follows in the log sets the flag.
- Engine.StorageEngine.Recover: the final FlushAllPages is not part of it; `BufferPool.SimpleBufferPoolManager.FlushAllPages` has it.
- Lifetime.CrashAndRecover: the metadata page is that of a new file, which the code writes again only when it closes the file.
- BTree.BPlusTree.HandleInternalNodeSplit: the next pointer of internal pages, which nothing reads, is not part of the page; `InternalSplitting.SplitNode` has it.
- LeafCodec.InsertElement: on a page that has not been filled yet the garbage and next fields are read as they are in the header; a recycled page is expected to have them cleared, and elements are read from their pointer on as the frame buffers are larger than a page.
- LeafUpdate.SetValue: the key is on the page; for another key the code overwrites a neighbouring element or panics.
- PoolRuns.StepRefines: read and write guards are not told apart and page latches are not modelled, so any guard may write.
- BufferPool.SimpleBufferPoolManager.DeletePage: handing the id to deallocatePage is in `DiskManager.DirectIODiskManager.DeallocatePage`, and the result that `WriteGuard.DeletePage` drops is the one of deletePage.
- MetadataCodec.DecodeMetaDataPage: only pages that an encoder wrote; on other bytes the code may read past the page.

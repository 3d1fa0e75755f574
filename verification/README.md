# KDS engine: a Dafny model and proofs

KDS is a small database engine that lives in a kernel. This project models its storage core and
proves what that core is meant to guarantee, over every input, every run and every interleaving the
model allows. `dafny verify dfyconfig.toml` checks all of it.

How the files follow the engine:

| part | files | engine source |
|---|---|---|
| B-tree search, delete and underflow repair | `BTreeModel`, `BTreeRepair`, `BTreePages`, `BTreeNode`, `BTreeMoves`, `BTreeUnderflow`, `BTreeCursor`, `BTreeSearch`, `BTreeDelete` | `kernel/kds/btree.c` |
| write-ahead log | `WalRing`, `WalChain`, `WalRecord`, `WalSim`, `WalDisk`, `Wal`, `WalBeforeData` | `kernel/kds/wal.c`, `page_mgr.c`, `exec_heap_insert.c` |
| slotted heap page | `HeapLayout`, `HeapEffects`, `HeapPage` | `kernel/kds/heap.c` |
| undo history | `UndoHistory`, `UndoUpdate`, `UndoStore` | `kernel/kds/undo.c` |
| heap-insert executor | `HeapInsertSpec`, `HeapInsert` | `kernel/kds/exec_heap_insert.c` |
| buffer pool protocol | `BufferPool`, `BufferFate` | `kernel/kds/page_mgr.c` |
| page-id allocator | `PageAlloc` | `kernel/kds/page_alloc.c`, `include/linux/kds_meta.h` |
| scheduler | `Scheduler` | `kernel/kds/proc.c` |
| SQL parser | `SqlLexer`, `SqlGrammar`, `SqlSound`, `SqlParser` | `kernel/kds/parser.c` |
| type and row codecs | `Numbers`, `Decimal`, `RowCodec` | `kernel/kds/types.c`, `kernel/kds/dshell.c` |

`Basics` holds error codes and word widths, `Bytes` little-endian numbers and copying into buffers.

Each part has a specification that does not mention how the code works (a tree read left to right as
one sequence of items, the stream of accepted log bytes, a list of tuples, the log of all writes of a
row, a flat page store, a queue, a grammar with its renderings), an imperative model of the code
(classes, arrays, loops), and the connection between the two.

## What the code turned out to do

- A drain of the log ends early when no page is to be had, and still moves `flush_off` to its snapshot.
  `Wal.WalBuffer.Run` says of every interleaving, by the counters before it and its steps, whether it loses
  bytes: exactly when a drain ends early, and so never when the pages staged beforehand take the backlog and
  all that is written (`WalSim.EnoughPages`). `Wal.WalBuffer.Flush` says exactly how many bytes a flush
  loses, `Wal.LossWithoutPages` is a concrete loss.
- The comment on LSN assignment says that the lock is held while `tail_page_id` moves on; it is not, and
  LSNs need not increase. `Wal.WalBuffer.AppendsInOrder` says exactly when two LSNs given one after the
  other do, `Wal.WalBuffer.AppendInsideDrain` does so for an append inside a drain by what can be read off
  before it, `Wal.WalBuffer.Run` for whole runs by the state before them, and `Wal.LsnNotIncreasing` is a
  concrete failure. With whole appends and flushes they always do (`Wal.WalBuffer.RunAtomic`).
- A page linked because the tail was found full at the start of a drain has its link in the pool only,
  until some later flush of dirty frames; all other links are on disk at once. `Wal.WalBuffer.Flush` says
  exactly when a link is missing afterwards, `Wal.MissingLink` is such a log.
- A WAL record header has 36 bytes; the header file's comment says 28.
- `kds_wal_need_flush` compares with the wrong operand and is always true; the model always drains.
- An executor whose append fails goes on. WAL-before-data survives an insert exactly when its append is
  accepted (`WalBeforeData.Engine.InsertSlice` says when that is), a slice of the checkpointer exactly when
  its drains lose no bytes (`WalBeforeData.Engine.CheckpointerSlice`), and a run exactly as far as
  `WalBeforeData.Engine.Run` says; `WalBeforeData.RowWithoutRecord` is a run of inserts and one slice of the
  checkpointer that leaves a row on disk with no record of it anywhere.
- The cursor search stops at an inner node when a separator has the key, and a delete then removes that
  separator and the whole subtree to its right. In a leaf, where the comment on `btree_node_remove_at` and
  the repairs take slot `i` to belong to key `i`, a delete leaves the next key with the slot of the deleted
  one. `BTreeDelete.RemoveKey` says exactly when a delete removes just the entry of its key;
  `BTreeDelete.LostSubtree` and `BTreeDelete.WrongSlot` are concrete failures.
- An update that has to move its row and finds no room has already retired the old slot: the row is gone
  (`UndoHistory.UpdateLosesRow` says exactly when, `UndoHistory.LostRow` reaches such an update).
- `_heap_read_tuple` copies as many bytes as the caller's buffer has, not as many as the payload has. A copy
  stays in the page whenever it is at most eight bytes longer than the payload, and for the first row of a
  page only then, however many follow (`HeapPages.ReadFirstRow`): the duplicate scan, which copies 256 bytes, leaves every page
  whose first row has fewer than 248. What it decides does not depend on the bytes behind the page
  (`HeapInsert.ScanBytes`).
- The insert executor accepts rows of more than 256 bytes, which its duplicate scan cannot read: from then
  on every insert into the table fails (`HeapInsertSpec.LongRowPoisons`).
- `assign_page_id` and `alloc_page_id_batch` disagree by one. The pool refuses the shared id, so a refill
  right after a direct assignment stages nothing and its ids are skipped
  (`PageAlloc.PageAllocator.AssignThenRefill`).
- The scheduler's fast path cannot be taken: `curr_proc` is always cleared.
- The least 64-bit decimal has a text that is not a decimal (`Decimals.DecimalRoundTrip`).
- The grammar in the parser's header shows type names in upper case; the parser accepts lower case only
  (`SqlGrammar.TypeIffNamed`, `SqlGrammar.UpperCaseRefused`, `SqlGrammar.Int8Refused`).
- Signed overflow is modelled as wrap-around, as the kernel is built without strict overflow. Character
  classes are those of the kernel's ctype table.

## Model

| member | source | states |
|---|---|---|
| BTreeRepair.BorrowLeftKeeps | kernel/kds/btree.c:552-598 | taking an entry from a fuller left sibling keeps the parent's page, all pages, entries, order and leaf order, and leaves parent and kids within their bounds |
| BTreeRepair.BorrowRightKeeps | kernel/kds/btree.c:602-642 | the same for the right sibling |
| BTreeRepair.MergeKeeps | kernel/kds/btree.c:656-715 | folding two siblings keeps entries and order, drops exactly the right page, costs the parent one key; among leaves exactly the right one leaves the leaf order |
| BTreeRepair.RepairInTree | kernel/kds/btree.c:733-830 | a repair somewhere below leaves the whole tree's entries as they were and its separators ordered |
| BTreeRepair.FoldedInTree | kernel/kds/btree.c:664-690 | folding two leaves anywhere removes exactly one leaf from the order of all leaves |
| BTreePages.StoredReplace | kernel/kds/btree.c:71-85 | pages that hold a tree hold the tree with a subtree replaced, if only the subtree's pages change |
| BTreePages.ChainFold | kernel/kds/btree.c:672-690 | relinking around a folded leaf keeps next and prev inverse to each other along the remaining leaves |
| BTreeMoves.RemoveAt | kernel/kds/btree.c:520-531 | removes key `pos` and nothing else but the slot behind its own: of an inner node the child to its right, of a leaf the slot of the next key |
| BTreeMoves.RedistributeFromLeft | kernel/kds/btree.c:552-598 | the three stored pages are exactly the rotation to the right, and the parent's copy is its page |
| BTreeMoves.RedistributeFromRight | kernel/kds/btree.c:602-642 | the three stored pages are exactly the rotation to the left, and the parent's copy is its page |
| BTreeMoves.LeftGivesShows | kernel/kds/btree.c:552-598 | the rotated pages show the tree after borrowing from the left |
| BTreeMoves.RightGivesShows | kernel/kds/btree.c:602-642 | the rotated pages show the tree after borrowing from the right |
| BTreeMoves.FoldInShows | kernel/kds/btree.c:656-715 | the folded pages show the tree after merging |
| BTreeMoves.MergeNodes | kernel/kds/btree.c:656-715 | left holds both contents (with the separator between inner nodes), the parent lost separator and child, the next leaf points back to left |
| BTreeUnderflow.RepairFromLeft | kernel/kds/btree.c:751-762 | borrowing from the left on pages is borrowing from the left in the stored tree, leaf chain included |
| BTreeUnderflow.RepairFromRight | kernel/kds/btree.c:770-783 | the same from the right |
| BTreeUnderflow.RepairByFold | kernel/kds/btree.c:796-815 | folding on pages is folding in the stored tree, leaf chain included |
| BTreeCursor.RepairLevel | kernel/kds/btree.c:746-824 | one level: the stored tree is repaired there, and either the repair is over or only the parent may be short |
| BTreeCursor.HandleUnderflow | kernel/kds/btree.c:733-830 | from a tree whose only short node is at the bottom of the cursor: same entries, ordered separators, same depth, doubly linked leaf chain of exactly the remaining leaves, every node but the root has 2 to 4 keys, exactly the pages that left the tree are freed, pages outside it untouched |
| BTreeCursor.CollapseRoot | kernel/kds/btree.c:876-905 | an empty inner root is replaced by its one child: same items, leaf chain kept, exactly the old root freed, and the root is full enough for a root |
| BTreeCursor.SearchPosition | kernel/kds/btree.c:104-120 | the number of keys below the searched one |
| BTreeCursor.SearchPositionBinary | kernel/kds/btree.c:122-142 | on ascending keys, the same position as the linear search |
| BTreeSearch.Descend | kernel/kds/btree.c:162-174 | in an ordered inner node, a key that is none of its separators occurs below it exactly when it occurs below the child at the search position |
| BTreeSearch.Search | kernel/kds/btree.c:144-179 | in an ordered tree -EEXIST exactly when a leaf entry or a separator has the key, at an inner node exactly when a separator has it; 0 only at a leaf and when the key does not occur; -E2BIG only for more than 16 levels; the cursor holds the nodes of the path |
| BTreeDelete.RemovalRight | kernel/kds/btree.c:520-531 | a removal takes just the entry of its key out of an ordered tree if and only if it is made in a leaf, at the last entry or at one that has the slot of the next; at an inner node at least two entries are lost |
| BTreeDelete.RemoveKey | kernel/kds/btree.c:840-857 | -ENOENT exactly when the key does not occur; otherwise only the page where the search stopped changes, the pages hold the tree with that node cut, and just the key's entry is gone if and only if no separator has the key and it is the last in its leaf or has the slot of the next |
| BTreeDelete.Delete | kernel/kds/btree.c:832-915 | for a key that no separator has: the pages hold a tree with all bounds, ordered, with doubly linked leaves, with the entries that the removal left, and exactly the pages that left the tree are freed |
| BTreeDelete.LostSubtree | kernel/kds/btree.c:853-858 | a tree of two leaves that loses two entries when one is deleted |
| BTreeDelete.WrongSlot | kernel/kds/btree.c:520-531 | a leaf of two keys in which deleting the first leaves the second with its slot |
| WalRing.PutAppends | kernel/kds/wal.c:277-302 | writing behind the unread bytes of the ring, across the wrap, appends to them |
| WalRing.RingWrite | kernel/kds/wal.c:278-287 | the ring after a copy in one or two parts |
| WalRing.RingRead | kernel/kds/wal.c:478-490 | the bytes of a stretch of the ring, across the wrap |
| WalChain.FillAppends | kernel/kds/wal.c:477-493 | filling the tail page appends to the bytes of the chain and keeps its shape |
| WalChain.LinkKeeps | kernel/kds/wal.c:510-539 | a linked fresh page keeps the chain's bytes and shape: full pages but the tail, rising page ids and segment numbers, end mark |
| WalChain.LsnRoundTrip | include/linux/kds_wal.h:59-72 | offset and page id are read back from a 64-bit LSN, the page id exactly when it is below 2^32 |
| WalChain.LsnLess | include/linux/kds_wal.h:59-72 | LSNs are ordered by page, then by offset, for page ids below 2^32 also as 64-bit values |
| WalRecord.HeaderStart | include/linux/kds_wal.h:119-127 | whatever checksum follows it, LSN, previous LSN, transaction, type and body length are read at their places of the header, each to its width |
| WalRecord.RecordCarries | kernel/kds/wal.c:273-302 | the record that an append writes reads as its LSN, its predecessor's, the caller's transaction and type, its length, a checksum over it with a zero checksum, and then the body |
| WalRecord.CheckpointBody | include/linux/kds_wal.h:162-165 | the body of a checkpoint reads as the LSN and the time given |
| Wal.WalBuffer.Append | kernel/kds/wal.c:237-313 | a record is accepted iff its body has at most 8192 bytes and the ring has room for it and 36 more; then the log is the old log and the record, whose bytes read as the next LSN, the LSN of its predecessor, and what the caller handed over; otherwise nothing changes |
| Wal.WalBuffer.FlushStep | kernel/kds/wal.c:413-540 | one turn of the drain, at any point between appends: keeps the log, moves the counters as specified, and leaves a link off the disk exactly when it finds the tail full and a page staged |
| Wal.WalBuffer.FlushEnd | kernel/kds/wal.c:542-548 | moving `flush_off` drops exactly the bytes the loop did not drain |
| Wal.WalBuffer.Flush | kernel/kds/wal.c:390-553 | fails untouched iff the tail is full and no page is staged; otherwise loses exactly the bytes beyond tail and staged pages; numbers stay right when none are lost; every link is on disk if and only if it was before and the drain did not find the tail full and a page staged |
| Wal.WalBuffer.Checkpoint | kernel/kds/wal.c:559-595 | its record is added iff the ring has room; it succeeds iff then the drain does, and loses exactly the bytes beyond tail and staged pages; when it succeeds without loss, `lsn < checkpointed_lsn` holds exactly for the records up to it |
| Wal.WalBuffer.Run | kernel/kds/wal.c:237-553 | over every interleaving of appends with drain steps, by the counters before it: one record more for each append that finds room, in order, which reads as what was appended and names the one before it; page payloads followed by the ring's unread bytes are exactly the accepted records, if and only if no drain ends early, and always when the pages staged before suffice; LSNs strictly increase if and only if no append slips behind the one before it |
| Wal.WalBuffer.Perform | kernel/kds/wal.c:237-553 | one step of some thread moves the counters as specified and adds the record of an accepted append; bytes are lost exactly when a stopped drain ends, and an append slips exactly when the tail page is the same and `flush_off` moved past at least as many bytes, beyond those the tail page took, as the last record has |
| WalSim.EnoughPages | kernel/kds/wal.c:413-548 | a run without staging, whose backlog and appends fit into the tail page and the staged pages, loses no byte |
| WalSim.DrainFacts | kernel/kds/wal.c:413-548 | a drain fails at once and changes nothing, or drains all that fits into tail and staged pages |
| WalSim.FlushAsSteps | kernel/kds/wal.c:390-553 | the steps of a drain with nothing between them do what a flush does |
| WalSim.AllFit | kernel/kds/wal.c:237-595 | a run of whole operations is carried out to the last when all it adds, with what is in the ring, fits into ring and pages |
| WalSim.StagedPages | kernel/kds/wal.c:126-135 | pages staged between steps are there for the next drain |
| Wal.WalBuffer.AppendsInOrder | kernel/kds/wal.c:263-305 | two appends with any drain steps between them: when both are accepted, by the state before; and they have increasing LSNs if and only if the tail page moved on or `flush_off` moved past fewer bytes, beyond those the tail page took, than the first record has |
| Wal.WalBuffer.AppendInsideDrain | kernel/kds/wal.c:263-305 | an append between the last turn of a drain and its end comes before the next one if and only if it is longer than what was drained |
| Wal.WalBuffer.FlushedBytes | kernel/kds/wal.c:543-545 | between drains that lose nothing, used bytes sum to `flush_off` |
| Wal.WalBuffer.RunAtomic | kernel/kds/wal.c:237-595 | over every run of whole appends, flushes and checkpoints: which of them are carried out, by the state before the run, and which records they add, as their bytes read; LSNs strictly increase, each record names the one before it, flushed records lie below `flush_lsn` and the others not, likewise for the last checkpoint, and no byte is lost |
| Wal.WalBuffer.Act | kernel/kds/wal.c:237-595 | one whole operation is carried out exactly when ring and pages have room for it, and then adds its record |
| Wal.LossWithoutPages | kernel/kds/wal.c:519-545 | a log that loses bytes for want of a page |
| Wal.LsnNotIncreasing | kernel/kds/wal.c:263-271 | a drain with an append inside it whose LSN the next append does not exceed |
| Wal.MissingLink | kernel/kds/wal.c:436-473 | a log that has lost no byte and has a page on disk without its link |
| WalBeforeData.Engine.InsertSlice | kernel/kds/exec_heap_insert.c:325-373 | the row is in the pool and its records, which read as page, length and row, are appended; it is recorded iff its record is not too long and fits the ring behind the record for a new page; the rule survives the slice if and only if it is recorded |
| WalBeforeData.InsertBody | kernel/kds/exec_heap_insert.c:268-291 | the body of an INSERT record reads as page id, offset 0, length and the row |
| WalBeforeData.InitBody | include/linux/kds_wal.h:150-154 | the body of an INIT_PAGE record reads as page id and page type |
| WalBeforeData.OneRow | kernel/kds/exec_heap_insert.c:268-291 | a record is the record of one row of one page |
| WalBeforeData.Engine.CheckpointerSlice | kernel/kds/wal.c:597-626 | by ring bytes and room before it: when it panics, what it leaves in ring and pages, and that all rows of the pool are then on disk unless the ring was empty or no page was to be had; the rule survives, at every page write, if and only if neither drain loses bytes; its CHECKPOINT record names an LSN above those of all records before it |
| WalBeforeData.Engine.FlushDirty | kernel/kds/page_mgr.c:578-598 | afterwards no page is dirty and every page on disk is as in the pool; the rule holds at each write when all records are on disk |
| WalBeforeData.Engine.WritePage | kernel/kds/page_mgr.c:536-570 | one page goes to disk; whether its records were there first is remembered |
| WalBeforeData.DurableBytes | kernel/kds/wal.c:498-500 | the images on disk of the log pages that have contents hold the bytes of the log |
| WalBeforeData.Engine.Run | kernel/kds/wal.c:597-626 | every run of slices goes on until the first that does not find room, as can be computed before it; the rows in the pool and on disk are then those of the slices, after a last slice of the checkpointer the same; until there every row on disk has an INSERT record of its own in log pages on disk, now and at every page write; whether the last slice breaks that |
| WalBeforeData.RowsAfterRun | kernel/kds/exec_heap_insert.c:325-373 | after a run each page has the rows from before and those of the run's inserts, in order |
| WalBeforeData.LastCheckpoint | kernel/kds/wal.c:597-626 | after a run that ends in a slice of the checkpointer the rows on disk are those of the pool |
| WalBeforeData.RowWithoutRecord | kernel/kds/exec_heap_insert.c:292-300 | inserts that fill the ring, one more, and a slice of the checkpointer, which leaves that row on disk and no record of it |
| HeapLayout.SlotBound | kernel/kds/heap.c:35-38 | a page never has more than 246 slots |
| HeapLayout.TupleRoundTrip | kernel/kds/heap.c:158-167 | a tuple written to a reservation is read back from it |
| HeapEffects.InsertEffect | kernel/kds/heap.c:155-177 | the bytes after an insert stand for the old tuples in their slots and the new one behind them; header and next link untouched, reservations disjoint and in bounds |
| HeapEffects.OverwriteEffect | kernel/kds/heap.c:236-246 | overwriting a tuple within its reservation changes that tuple only |
| HeapEffects.RetireEffect | kernel/kds/heap.c:276-280 | retiring a slot kills that slot only |
| HeapEffects.DeleteEffect | kernel/kds/heap.c:459-461 | stamping xmax changes that field of that tuple only |
| HeapEffects.LinkEffect | kernel/kds/heap.c:350-353 | writing the next link changes the link only |
| HeapEffects.InitEffect | kernel/kds/heap.c:52-65 | whatever the frame held, it becomes an empty page without a link |
| HeapPages.HeapPage.Init | kernel/kds/heap.c:40-69 | the page is empty, unlinked, and has the given header |
| HeapPages.HeapPage.InsertTuple | kernel/kds/heap.c:116-188 | -EINVAL for more than a page, -ENOSPC exactly when 33 bytes and the data do not fit between the page's lower and upper offsets, both without change; otherwise the tuple is in the next slot and nothing else changed |
| HeapPages.HeapPage.OverwriteTuple | kernel/kds/heap.c:196-254 | -ENOENT for no live tuple, -ENOSPC beyond the reservation, otherwise exactly that tuple is replaced |
| HeapPages.HeapPage.RetireSlot | kernel/kds/heap.c:256-288 | -ENOENT out of range, otherwise exactly that slot is dead |
| HeapPages.HeapPage.SlotCapacity | kernel/kds/heap.c:290-320 | the data bytes reserved for a live tuple, else -ENOENT |
| HeapPages.HeapPage.ReadTuple | kernel/kds/heap.c:361-409 | header and payload of a live tuple, -ENOENT for none, -ENOSPC for a short buffer; the buffer is what lies in the page and the memory behind it |
| HeapPages.HeapPage.ReachesAlways | kernel/kds/heap.c:401 | a copy at most eight bytes longer than the payload stays in the page |
| HeapPages.InsideIffDecided | kernel/kds/heap.c:401 | what a copy yields is decided by the page if and only if it stays inside |
| HeapPages.ReadFirstRow | kernel/kds/heap.c:401 | for the first row of a page, whatever rows follow, a copy stays in the page if and only if it is at most eight bytes longer than the row |
| HeapPages.InsertAndReach | kernel/kds/heap.c:401 | on any page, a copy of the row inserted last stays in the page if and only if it is not longer than the row and all bytes above it; the copies of the other rows are not affected |
| HeapPages.HeapPage.ReadTuplePk | kernel/kds/heap.c:412-421 | the first eight payload bytes of a live tuple that has them |
| HeapPages.HeapPage.DeleteTuple | kernel/kds/heap.c:430-469 | -ENOENT for no live tuple, otherwise exactly its xmax changes |
| HeapPages.HeapPage.GetNext | kernel/kds/heap.c:322-339 | the link of the page |
| HeapPages.HeapPage.SetNext | kernel/kds/heap.c:341-358 | exactly the link changes |
| HeapPages.HeapPage.HasSpace | kernel/kds/heap.c:471-487 | true exactly when an insert of that length would succeed |
| UndoHistory.PackRoundTrip | include/linux/kds_heap.h:123-135 | addresses of undo entries survive packing and are never the empty link |
| UndoHistory.EntryRoundTrip | kernel/kds/undo.c:26-36 | an undo entry is read back field by field |
| UndoHistory.HistoryUnique | include/linux/kds_undo.h:29-33 | a link leads to one history, so following it ends |
| UndoHistory.HistoryKept | kernel/kds/undo.c:43-44 | histories survive anything that is appended to undo pages |
| UndoHistory.EntryPushed | kernel/kds/undo.c:97-116 | the entry an update writes puts the replaced version at the head of the history, ended by the new xid |
| UndoHistory.RunKeepsHistory | kernel/kds/undo.c:58-139 | over every run of inserts, deletes, updates and new pages: live tuples are exactly the rows of the write log, and each undo chain is exactly that row's earlier writes |
| UndoHistory.CompleteHistory | kernel/kds/undo.c:58-139 | from nothing, with rising xids: the chain of a live tuple is all its earlier payloads, newest first, each ended by the next newer xmin, and exactly one version covers each xid from the first write on |
| UndoHistory.OneVersionCovers | include/linux/kds_undo.h:29-33 | contiguous versions cover each xid once |
| UndoHistory.UpdateLosesRow | kernel/kds/undo.c:133-138 | an update makes its row vanish iff the payload outgrew its slot and the page has no room; every other failure changes nothing |
| UndoHistory.UpdateAnswers | kernel/kds/undo.c:70-139 | every answer of an update, by the bytes that are free, and the slot of the new version |
| UndoHistory.UpdateLeaves | kernel/kds/undo.c:100-139 | after a successful update the new version is at that slot, with the room it had or takes, nothing is at an address it left, and behind its link is an entry with the old version, its address, its link and the owner |
| UndoHistory.InsertLeaves | kernel/kds/heap.c:116-188 | an insert adds exactly its row, in the next slot, if and only if the page has 33 bytes more than the row free |
| UndoHistory.DeleteLeaves | kernel/kds/heap.c:430-466 | a delete stamps exactly its row |
| UndoHistory.LostRow | kernel/kds/undo.c:133-138 | such an update, reached from an empty store |
| UndoUpdate.WriteEntry | kernel/kds/undo.c:9-45 | -EMSGSIZE over 256 bytes, -ENOSPC without room, otherwise the entry is a new tuple of the undo page |
| UndoUpdate.ReadEntry | kernel/kds/undo.c:47-56 | a written entry is read back |
| UndoUpdate.UpdateTuple | kernel/kds/undo.c:58-139 | the byte pages follow the specified update; it succeeds exactly when the old payload has at most 256 bytes, the undo page 340 bytes free, and the new payload fits its slot or the page has 33 bytes more than it free; the slot is the old one in the first case and the next in the second |
| UndoStore.RowStore.Perform | kernel/kds/undo.c:58-139 | an operation on the bytes of the pages is that operation on the pages they stand for |
| UndoStore.RowStore.Run | kernel/kds/undo.c:58-139 | over every run of operations the bytes hold exactly the rows of the write log, each with its whole history |
| UndoStore.NoRowsAgree | kernel/kds/undo.c:58-139 | pages without live rows agree with the empty write log, so that a run can start from them |
| HeapInsertSpec.ScanChainClear | kernel/kds/exec_heap_insert.c:58-94 | the duplicate scan is clear exactly when every row is readable and has another key |
| HeapInsertSpec.PlaceKeepsChain | kernel/kds/exec_heap_insert.c:132-215 | the page chain stays acyclic and ends in 0; it is the same or has one new last page |
| HeapInsertSpec.PlaceAddsOneRow | kernel/kds/exec_heap_insert.c:132-215 | a placed row is new, is there, and is the only difference between the tables |
| HeapInsertSpec.InsertKeepsKeys | kernel/kds/exec_heap_insert.c:97-120 | keys stay pairwise distinct whatever the insert answers |
| HeapInsertSpec.DuplicateIffKeyPresent | kernel/kds/exec_heap_insert.c:97-120 | over rows of 8 to 256 bytes: -EEXIST exactly when a row has the key, and then nothing changes |
| HeapInsertSpec.InsertTaken | kernel/kds/exec_heap_insert.c:100-215 | over readable rows without its key, a row of 8 to 8192 bytes is taken if and only if some page has 33 bytes more than it free, or a page is supplied and it has at most 8102; it is then in the first such page of the chain, in its next slot, or in the new page |
| HeapInsertSpec.FirstDecides | kernel/kds/exec_heap_insert.c:58-128 | the first row in the chain that is too long to be read or has the key decides the answer, and nothing changes |
| HeapInsertSpec.LongRowBlocks | kernel/kds/exec_heap_insert.c:72-80 | a row of more than 256 bytes makes every later insert fail |
| HeapInsertSpec.LongRowAccepted | kernel/kds/exec_heap_insert.c:132-215 | a row of more than 256 bytes is taken by every table whose scan is clear if and only if some page has 33 bytes more than it free, or a page is supplied and it has at most 8102 |
| HeapInsertSpec.LongRowPoisons | kernel/kds/exec_heap_insert.c:72-80 | an empty table takes a long row, and then no other |
| HeapInsert.HeapInsertExec.ScanPage | kernel/kds/exec_heap_insert.c:58-94 | one page's part of the scan |
| HeapInsert.ScanBytes | kernel/kds/exec_heap_insert.c:58-94 | the scan of a page's bytes is the scan of its rows, whatever lies in memory behind the page |
| HeapInsert.HeapInsertExec.RunDupScan | kernel/kds/exec_heap_insert.c:99-120 | ends, fails or is interrupted further on, with the rest of the scan still ahead |
| HeapInsert.HeapInsertExec.RunFindTail | kernel/kds/exec_heap_insert.c:131-215 | places the row as specified, or is interrupted further on |
| HeapInsert.HeapInsertExec.Run | kernel/kds/exec_heap_insert.c:310-374 | however it is interrupted, a call that ends the insert leaves the table, answer, address, work count and log records of the specified insert; an interrupted call leaves the table alone and is nearer the end unless it started expired |
| HeapInsert.HeapInsertExec.GoalTaken | kernel/kds/exec_heap_insert.c:132-215 | when the executor's insert succeeds and which page its row goes to, by the pages before it |
| HeapInsert.HeapInsertExec.RunCalls | kernel/kds/exec_heap_insert.c:310-374 | slice independence over whole runs; fewer than twice the chain length of calls can be interrupted, not counting those whose slice had expired on entering the second walk |
| BufferPool.StepKeepsInv | kernel/kds/page_mgr.c:217-343 | every step of every thread keeps the pool's invariant |
| BufferPool.Coherent | kernel/kds/page_mgr.c:217-479 | in every state of every interleaving: a page has at most one valid frame, all holders have that one, it shows the last write, clean and uncached pages are on disk as last written, and -ENOENT is unreachable |
| BufferPool.NoFrameLost | kernel/kds/page_mgr.c:136-163 | a frame is on the free list, in the hands of a thread, or the frame of a page |
| BufferPool.InstallFrames | kernel/kds/page_mgr.c:230-250 | what a slow loader installs is what the page should contain |
| BufferFate.CallFate | kernel/kds/page_mgr.c:258-483 | in every run, from a lookup or a creation until its release, a thread is on its way to its page, holds the frame that the table has for it, or has failed because its own step found no free frame or its own disk or memory failed |
| BufferFate.CallStart | kernel/kds/page_mgr.c:258-288 | a lookup of a cached page has the cached frame at once; otherwise it misses, and so does the creation of a page that does not exist |
| BufferFate.LoadAlone | kernel/kds/page_mgr.c:277-343 | a loader that nobody disturbs gets the cached frame, or the first free one with the page as last written, or fails when none is free |
| BufferFate.CreateAlone | kernel/kds/page_mgr.c:378-483 | a creation that nobody disturbs leaves the new page in the first free frame and on disk |
| BufferFate.LoserGets | kernel/kds/page_mgr.c:307-332 | a loader that lost the race gives its frame back and gets the winner's |
| BufferFate.PageHolds | kernel/kds/page_mgr.c:258-570 | in every state of every run a page's frame, and the disk unless that frame is dirty, hold what was last written to the page, or its creation put there |
| BufferFate.HolderWrites | kernel/kds/page_mgr.c:485-507 | a holder's write changes its frame, marks it dirty and nothing else |
| BufferFate.FlushStores | kernel/kds/page_mgr.c:536-570 | writing a frame back makes its page on disk what was last written |
| PageAlloc.PageAllocator.Push | kernel/kds/page_alloc.c:78-82 | the ring appends to its queue |
| PageAlloc.PageAllocator.Alloc | kernel/kds/page_alloc.c:88-112 | the oldest id leaves the queue; it is above all ids given out before and was not assigned directly |
| PageAlloc.PageAllocator.BatchAlloc | kernel/kds/page_alloc.c:137-194 | stages consecutive ids from the counter on, no more than asked for or than there are frames, and stops exactly at the first id the pool refuses; the counter moves on by all that was asked for |
| PageAlloc.MadeIs | kernel/kds/page_alloc.c:160-190 | the number of pages made is the first at which the batch is complete, the frames are used up or the id is in the pool |
| PageAlloc.PageAllocator.Assign | include/linux/kds_meta.h:79-86 | a direct id is new |
| PageAlloc.PageAllocator.Reclaim | kernel/kds/page_alloc.c:213-276 | at boot exactly the pages of the last batch that load, were issued and not initialised are queued, in order, until the ring is full; those that load are cached |
| PageAlloc.PageAllocator.Prealloc | kernel/kds/page_alloc.c:285-299 | a refill below the threshold, to the ring's capacity; nothing above it |
| PageAlloc.PageAllocator.Run | kernel/kds/page_alloc.c:60-299 | over every run of requests, refills and direct assignments, each is answered as ring, counter and pool at that point say, a request refused only by an empty ring; the ids issued and those still in the ring are those there at first and those staged, in order; ids leave the ring in rising order and no id is issued twice |
| PageAlloc.ServedRight | kernel/kds/page_alloc.c:60-299 | every operation's answer and what it leaves, as a relation over the ring, the counter and the pool before and after it |
| PageAlloc.PageAllocator.AssignThenRefill | kernel/kds/page_alloc.c:151-170 | a refill after a direct assignment stages nothing, the next one goes on behind the skipped ids |
| Scheduler.FirstRun | kernel/kds/proc.c:225-300 | the exact tick at which a process first runs |
| Scheduler.NoStarvation | kernel/kds/proc.c:225-300 | a process runs within one tick more than the sum of the others' leads over it |
| Scheduler.SpreadKept | kernel/kds/proc.c:235-238 | the priority spread never exceeds its first value or one |
| Scheduler.RunsForever | kernel/kds/proc.c:261-340 | at any time every process runs again within a bound fixed by the first spread |
| Scheduler.RunQueue.Select | kernel/kds/proc.c:288-299 | the first process of highest priority |
| Scheduler.RunQueue.UpdateWaitTime | kernel/kds/proc.c:225-240 | the process that ran is charged, the others age |
| Scheduler.RunQueue.Schedule | kernel/kds/proc.c:261-340 | a tick never takes the fast path, runs the best process and ages the others |
| Scheduler.RunQueue.ScheduleMany | kernel/kds/proc.c:261-340 | who runs at each tick of a run; each process is charged the ticks it ran, has waited those since, and all ticks sum to the total |
| SqlLexer.TokensOfRendering | kernel/kds/parser.c:47-171 | every text that renders tokens, with any white space, comments and keyword case, is cut into those tokens |
| SqlGrammar.StmtRead | kernel/kds/parser.c:361-617 | the tokens of a statement are read as that statement |
| SqlGrammar.ParseRoundTrip | kernel/kds/parser.c:623-691 | every rendering of every statement within the limits is a C string and parses to that statement |
| SqlGrammar.PrintParse | include/linux/kds_parser.h:13-24 | every statement within the limits has a rendering, and it parses to the statement |
| SqlSound.TokensCut | kernel/kds/parser.c:47-172 | every text is white space, comments and, in order, the longest words for its tokens |
| SqlSound.ReadSound | kernel/kds/parser.c:361-617 | a statement is read only from its own tokens, within the limits, names and strings cut to theirs |
| SqlSound.ParseSound | kernel/kds/parser.c:623-691 | a text that is accepted is the words of the statement's tokens and nothing else |
| SqlSound.KeywordLetters | kernel/kds/parser.c:241-254 | a keyword is read from its letters, each large or small |
| SqlGrammar.TypeIffNamed | kernel/kds/types.c:341-354 | exactly the nine lower-case names are types |
| SqlGrammar.UnknownTypeRefused | kernel/kds/parser.c:398-402 | every rendering of a CREATE TABLE with a column type that is none of the nine names is refused, whatever follows the columns |
| SqlGrammar.UpperCaseRefused | include/linux/kds_parser.h:13-24 | every rendering of a CREATE TABLE with a column type that starts in upper case is refused |
| SqlGrammar.Int8Refused | include/linux/kds_parser.h:19-20 | `CREATE TABLE t (a INT8)` is refused |
| SqlParser.Lexer.SkipWs | kernel/kds/parser.c:47-61 | passes over exactly the white space and comments |
| SqlParser.Lexer.Read | kernel/kds/parser.c:67-171 | the next token of the text and the rest |
| SqlParser.Lexer.Peek | kernel/kds/parser.c:174-181 | looking ahead leaves the token stream as it is |
| SqlParser.Lexer.Next | kernel/kds/parser.c:184-195 | the stream loses its first token, looked at or not |
| SqlParser.ParseCreate | kernel/kds/parser.c:361-446 | reads what the grammar reads |
| SqlParser.ParseInsert | kernel/kds/parser.c:453-502 | reads what the grammar reads |
| SqlParser.ParseSelect | kernel/kds/parser.c:528-588 | reads what the grammar reads |
| SqlParser.ParseStatement | kernel/kds/parser.c:623-691 | on every buffer, the statement the grammar reads from its text, or -EINVAL |
| Numbers.ParseOfFormat | kernel/kds/types.c:65-109 | every 64-bit integer is read back from its text |
| Numbers.FormatCanonical | kernel/kds/types.c:93-109 | the text of an integer has a sign exactly when it is negative, and no zero in front |
| Numbers.SignedRoundTrip | kernel/kds/types.c:81-106 | a signed integer is read back from its bytes |
| Numbers.ParseHex | kernel/kds/types.c:25-43 | accepts exactly hexadecimal text of the right length, and gives its bytes |
| Numbers.Nibbles | kernel/kds/types.c:14-23 | the sixteen digits, in either case |
| Numbers.HexRoundTrip | kernel/kds/types.c:45-55 | bytes are read back from their hexadecimal text |
| Decimals.EncodeDecimal | kernel/kds/types.c:245-298 | accepts exactly the decimal texts and stores their scaled value, wrapped to 64 bits; without overflow that is the exact value times 10^4, rounded towards zero |
| Decimals.SplitOfRendering | kernel/kds/types.c:257-284 | every way of writing a decimal is accepted and taken apart as it was put together |
| Decimals.RenderingOfSplit | kernel/kds/types.c:257-284 | nothing else is accepted |
| Decimals.MagnitudeTruncates | kernel/kds/types.c:268-291 | the stored magnitude is the exact value times 10^4, rounded towards zero |
| Decimals.DecimalRoundTrip | kernel/kds/types.c:300-321 | a stored decimal is read back from its text if and only if it is not the least 64-bit integer; the text then has four places and no zero in front |
| RowCodec.ValueRoundTrip | kernel/kds/types.c:186-206 | an accepted value has its type's width; integers and strings come back, booleans as true exactly for `1` and `true`, floats as the same four bytes |
| RowCodec.ValueTaken | kernel/kds/types.c:65-245 | which texts each type takes, and the error of those it refuses |
| RowCodec.IntColumn | kernel/kds/types.c:65-109 | every integer in a type's range goes in and comes out |
| RowCodec.DecimalColumn | kernel/kds/types.c:245-321 | the text of a stored decimal other than the least encodes to the same eight bytes |
| RowCodec.RowRoundTrip | kernel/kds/dshell.c:151-194 | an encoded row decodes over exactly its own bytes to the integer and string values at their own columns |
| RowCodec.RowTaken | kernel/kds/dshell.c:266-333 | a row is taken if and only if each of its values is and all of them together fit; its bytes are then theirs |
| RowCodec.KeyFirst | kernel/kds/exec_heap_insert.c:404-405 | the first eight bytes of every row that encodes are the integer its first value stands for, written as an integer or as a string |
| RowCodec.EncodeRow | kernel/kds/dshell.c:266-333 | the buffer starts with the encoded row, or the first error is returned |
| RowCodec.DecodeRow | kernel/kds/dshell.c:151-194 | the texts of the columns and the bytes consumed, or the first error |

## Left out

- B-tree insertion into full nodes, splitting and root growth: the code indexes past a full node and ends in panic.
- End-to-end index insert and lookup: `btree_node_insert_at` takes slot `i + 1` of a leaf to belong to key `i`, the other leaf operations slot `i`, so no value claim is decided by the code; exec_btree_insert.c depends on it.
- BTreeSearch.Search: pages are assumed to load.
- BTreeDelete.Delete: for a key that a separator has, only the removal is modelled (BTreeDelete.RemoveKey), as the pages then no longer hold a tree; page types and the catalog's note of the root are left out.
- BTreeCursor.RepairLevel: siblings are assumed to load, and a parent has a second child.
- BTreeCursor.HandleUnderflow: siblings are assumed to load, and the root has a key at the start, which makes the branch for a node without siblings unreachable.
- Replaying the log after a crash, and everything across a reboot: replay is not implemented in the engine.
- Wal.WalBuffer.Append: offsets are unbounded (no 64-bit wrap-around) and bodies are shorter than 2^32 - 36 bytes.
- Wal.WalBuffer.Flush: loads of log pages are assumed to succeed; allocation failures are modelled.
- WalBeforeData.Engine.Run: stops at the first slice that panics or breaks the rule.
- Disk I/O, checksums, superblock writes, pin counts, memory allocation failures other than those named, and the hash table and locks inside: parameters, uninterpreted functions or atomic steps.
- HeapPages.HeapPage.ReadTuple: the memory behind the page, into which long copies run, is a parameter.
- HeapPages.HeapPage.OverwriteTuple: `28 + new_data_len` must fit into 16 bits, which the update path guarantees.
- UndoHistory.RunKeepsHistory: undo pages and heap pages are kept apart by the caller, as the engine's page types intend; histories are followed in the specification, as the engine has no reader for it yet.
- HeapInsert.HeapInsertExec.Run: no other insert touches the table between slices, pages load, and pages are those of the heap page specification rather than bytes, because the scan's copies leave the pages; the page operations and HeapInsert.ScanBytes tie them to bytes.
- BufferPool.Coherent: a page is loaded only after its creation is complete, and creations name unused ids; the protocol is a state machine over atomic steps, not a class.
- PageAlloc.PageAllocator.Run: within one boot, with calls that do not overlap.
- Scheduler.RunQueue.Schedule: one worker and a fixed set of system processes, with priorities above the least integer and below overflow; 64-bit time counters do not wrap.
- Session processes, CPU selection, affinity and load balancing: easy or, without an eligible process, undefined.
- SqlGrammar.ParseRoundTrip: error messages are not modelled, only the error code.
- Numbers.ParseOfFormat: the kernel helper kstrtoll is not part of this model; it is taken to accept an optional sign, decimal digits and at most one final newline, and to check the 64-bit range.
- RowCodec.DecodeRow: the output buffer is large enough; the texts are a list instead of `name=value` pairs.
- Character device, catalog, relations, commands and module start-up: plumbing around the parts above.

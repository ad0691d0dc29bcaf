# kdb: the storage engine and the event graph, in Dafny

A model of the `kdb` storage engine and of the typed-event graph above it, with
proofs. `dafny verify dfyconfig.toml` checks the project with Dafny 4.11.

- **Bytes, keys, numbers.** `Bytes` embeds byte order in the reals, so that order
  becomes arithmetic. `PageBytes` is reading and writing inside a page buffer,
  `PageHeader` the header of a page.
- **B+tree.** `TreeModel` gives insertion and deletion as functions on trees that
  carry their page IDs and the list of free pages; `TreeView`, `TreeSurgery`,
  `TreeInsert`, `TreeDelete` and `TreeOps` prove what they keep, `TreeRoom` when they
  overflow a page, `TreeUniform` that cells of one width never do, `TreeOrder` in which
  order they take and give pages, `TreePacked` the bounds for fixed-width cells.
  `Pages`, `BTreeFacts` and `BTree` run the same operations on a heap of pages, page by
  page and loop by loop, and prove that they do what the functions do. `TreeLimits` gives the
  sizes at which they change course in numbers. `CellBytes` goes down to the bytes of a
  leaf page, `OverflowBytes` to those of an overflow page.
  `LeafList`, `ReadFacts` and `Cursor` are the readers, `Scans` the prefix scan on a
  cursor, `Runs` whole runs, `PutRuns` those that never delete.
- **Allocator.** `FreelistFacts` and `Freelist` are the free-page allocator whose
  IDs are keys of a tree that lives on pages of its own reserve; `Growth` is the
  growth of the file.
- **Buffer pool.** `BufPool` is the clock-sweep cache over a disk that can fail.
- **Meta pages.** `Meta` is the double meta page under crashes, torn writes and
  failed writes; `MetaBytes` its layout.
- **Events and graph.** `Keys` is escaping and the key formats, `Record` and `Codec`
  the record codec, `RecordBytes` its bytes and its errors, `StoreFacts`, `Groups` and `Store` the version chains and the
  reverse index, `Walks` the neighbours, `Duality` forward against reverse walks, `Bfs`
  the bounded search.

The state of the whole event store is described by its `chains`: for each kind and
id the list of its versions. `Holding` says that the ordered map underneath holds
exactly the records of these chains and one reverse entry for each complete link.

Keys are byte strings of any length; a page overflow, which the Go code meets as a
slice out of range, is the status `Panic`; an allocation that fails is `NoPages`.
Integer widths that matter are written out: the 32-bit length of an overflow cell,
64-bit page IDs, generations and timestamps, 16-bit counts and cell lengths. I/O is
a parameter: which disk reads and writes fail, how an interrupted write leaves its
slot, the clock of an append. Sources of Go packages outside `internal/kdb` are not
part of this model.

## Where the code and its comments part

- A leaf that loses its only cell is not rebalanced (`internal/kdb/btree/merge.go:16-18`) and a
  cursor stops at it (`internal/kdb/btree/cursor.go:196-200`), so keys of very different sizes can
  hide others from cursors: `Runs.DeletingHidesKeys`. `Cursors.FirstSeesAll` gives
  the exact condition; fixed-width cells meet it, and so do runs that never delete
  (`PutRuns.PutRunsAreExact`).
- Splits and redistributions cut by count, pages are bounded in bytes:
  `Runs.SplitByCountOverflows` and `Runs.DealingByCountOverflows` are runs that overflow.
  `TreeRoom.PutPanics` and `TreeRoom.RemovePanics` give the exact condition on the nodes
  of a key's route, and `Runs.UniformRunsNeverOverflow` shows that keys and stored values
  of one width each never meet it.
- A value of 2^32 bytes or more is stored with its length truncated:
  `ReadFacts.AsReadIsExact`.
- `Free` does not check that a page is not free already
  (`internal/kdb/freelist/btree_freelist.go:111-123`): `Freelist.BTreeFreelist.Free` says when that
  does no harm.
- `SetMaxPages` says that excess pages are evicted lazily
  (`internal/kdb/bufpool/bufpool.go:252-254`); a miss evicts one frame and adds one, so a pool
  above its new capacity stays as large as it is: `BufPool.Pool.Pin`.
- Opening an existing database starts with an empty reserve
  (`internal/kdb/db.go:471-475`): the pages that were in reserve are managed no longer,
  neither free nor in use: `Freelist.BTreeFreelist.Reopen`.
- `AsOf` ends at the first version created after the point in time, which is not the
  newest one created by then unless times never decrease: `Store.AsOfIsGreatest`.
- A link without a type, source or target is refused after its forward record has
  been put, and nothing takes that back: `Duality.UntypedLinkIsOneWay`. That is the
  one way in which forward and reverse walks can part: `Duality.AgreeExactly`,
  `Duality.AppendAgrees`.
- A creation time at the epoch reads back as the zero time: `Codec.TimesSurvive`.
- `UnescapeID` accepts a bare colon: `Keys.EscapeUnescape`.
- A meta write whose sync fails after the bytes have reached the disk leaves the
  database one generation behind the disk, and the next commit can lose to it:
  `MetaPages.AfterLateFailure`, `MetaPages.LateFailureLosesACommit`. A slot that
  cannot be read counts as invalid and may be overwritten although it is the one in
  force: `MetaPages.TargetIsActive`; `MetaPages.RunKeepsASlot` and
  `MetaPages.RunIsRegister` give what that costs a run.

## Model

| member | source | states |
|---|---|---|
| TreeOps.PutCorrect | internal/kdb/btree/btree.go:213-264 | `Put` keeps the tree well formed (sorted cells, separators bounding subtrees, all leaves at one depth, leaf list threaded, every node within its page), updates exactly one key of the map, conserves pages one by one, takes at most the value's pages and one page a level; its errors are exactly empty key and too long key, it runs out of pages if and only if `PutStarves` (too few for the value, or a node on the route splits after the last one), and then with fewer than that; and it overflows a page if and only if `PutOverflows`: some node on the key's route has to be split, there are pages for the splits up to it, and a half (or the new root's separator) exceeds its bytes; the first insertion of all, of a key of 1 to 2,021 bytes, succeeds if and only if there is one page, and one more for every 4,064 bytes, the last ones rounded up, of a value of more than 6 |
| TreeOps.FirstPut | internal/kdb/btree/btree.go:213-264 | that first insertion, in numbers: what it needs, what it leaves in the allocator, and the one entry of the map |
| TreeLimits.LeafLimit | internal/kdb/btree/btree.go:309-358 | a new key goes into its leaf while cells of 4 bytes, the key and the value (12 bytes for one of more than 6) come to at most 4,062; else the leaf is cut in two by count, and overflows exactly if a half exceeds 4,062 |
| TreeLimits.InnerLimit | internal/kdb/btree/btree.go:361-398 | the separator of a split child goes in while separators of 10 bytes and the key come to at most 4,062; else the middle one moves up, and a page overflows exactly if a part exceeds 4,062 |
| TreeLimits.ShortLeaf | internal/kdb/btree/btree.go:423-453 | a leaf below the root that loses a cell reports underflow if and only if 1 to 1,014 bytes are left |
| TreeLimits.ShortChild | internal/kdb/btree/merge.go:31-446 | what becomes of a node one of whose children reports underflow, node by node and in numbers: which sibling is taken, when the two become one, what else each gets, the separator between them, underflow passed on from 1 to 1,014 bytes, and the exact overflow |
| TreeOps.RemoveCorrect | internal/kdb/btree/btree.go:268-285 | `Delete` keeps the tree well formed, removes exactly one key, gives every page that leaves the tree back; `ErrKeyNotFound` exactly for an absent key; it never needs a page; it overflows one if and only if `RemoveOverflows`, a condition on the cells and separators along the key's route and beside it |
| TreeRoom.PutPanics | internal/kdb/btree/split.go:22-192 | `Put` overflows a page exactly when a node on the route from the root to the key's leaf bursts: its cells or separators, the new one included, exceed the page and, cut by count, a part still does |
| TreeRoom.PutRunsOut | internal/kdb/btree/btree.go:289-358 | `Put` runs out of pages exactly when there is none for a first root, too few for the value, or a node on the route has to be split, or the root to be replaced, after the last page and before any overflow |
| TreeRoom.RemovePanics | internal/kdb/btree/merge.go:31-446 | `Delete` overflows a page exactly when the key is there and, at a node on its route, the child gets too empty and its pair jams: too much for one page, and dealt out by count too much for two or for the parent; what each level is left with is worked out from the cells and separators alone (`ShortAfter`, `KeysFixed`), without running the deletion |
| TreeRoom.DeleteEnds | internal/kdb/btree/btree.go:402-492 | a deletion ends as these say: not found, overflow, or done with exactly those cells or separators left at each level and underflow reported exactly when too little is left |
| TreeUniform.PutUniform | internal/kdb/btree/btree.go:213-264 | in a tree whose keys have one width, any at all, and whose stored values have one width, `Put` of such a cell overflows no page |
| TreeUniform.RemoveUniform | internal/kdb/btree/btree.go:268-285 | the same of `Delete` |
| Runs.UniformRunsNeverOverflow | internal/kdb/btree/split.go:22-192 | in no run of puts and deletes with keys of one width and stored values of one width, whatever the two widths, does a page overflow |
| TreeOrder.PutTakesFirst | internal/kdb/btree/btree.go:289-358 | `Put` takes pages before it gives any back: what the allocator holds afterwards is a first part of what it held, then the old value's pages |
| TreeOrder.PutKeepsChains | internal/kdb/btree/btree.go:213-264 | every stored value keeps exactly the overflow pages it needs, which `PutTakesFirst` relies on |
| TreeOrder.RemoveKeepsChains | internal/kdb/btree/btree.go:268-285 | the same after a deletion |
| TreeOrder.RemoveOnlyGives | internal/kdb/btree/btree.go:402-419 | `Delete` takes no page |
| Runs.RunIsMapRun | internal/kdb/btree/btree.go:171-492 | any run of puts and deletes that does not run out of pages or room acts on the contents as the same run acts on a map, keeps the tree well formed, and loses or doubles no page; between any two operations the allocator may put its pages in any order |
| Runs.FixedRunsStayPacked | internal/kdb/btree/merge.go:16-92 | in every run of fixed-width operations (8-byte keys, empty values), in any order, no page overflows and every tree reached is packed: 85 to 338 cells in each leaf below the root, 57 to 225 separators in each internal node below the root, which has at least one |
| Runs.DeletingHidesKeys | internal/kdb/btree/merge.go:16-18 | a concrete run of four puts and one delete with 2,021-byte keys after which a cursor yields one of the three keys still in the tree: the emptied leaf is not rebalanced |
| Runs.SplitByCountOverflows | internal/kdb/btree/split.go:22-111 | a concrete run of six puts, for any page numbers, whose last split, by count, writes past a page |
| Runs.DealingByCountOverflows | internal/kdb/btree/merge.go:151-223 | a concrete run of six puts and a delete, for any page numbers, whose last redistribution, by count, writes past a page |
| PutRuns.RunIsListRun | internal/kdb/btree/btree.go:213-492 | a run of the tree does to its cells, in key order, what the same run does to a sorted list of cells |
| PutRuns.PutRunsAreExact | internal/kdb/btree/cursor.go:173-201 | after any run of puts on a new tree, keys and values of any sizes, a cursor sees every key, and from `Seek(p)` on yields exactly the scan for p of the list that the same puts make: no leaf below the root is ever empty |
| TreeInsert.InsertOrdered | internal/kdb/btree/btree.go:309-398 | insertion keeps every cell and separator in order and within the bounds of its subtree, and the promoted separator between the two halves |
| TreeInsert.InsertEntries | internal/kdb/btree/btree.go:309-398 | insertion at any depth puts exactly one cell among the entries in leaf order, at its place |
| TreeInsert.InsertChained | internal/kdb/btree/split.go:22-111 | the next-leaf list runs through all leaves in order, those a split adds included, and ends where it ended before |
| TreeInsert.InsertUses | internal/kdb/btree/btree.go:309-358 | page by page, what insertion takes from the allocator enters the tree and what it releases (the old value's overflow pages) is free |
| TreeInsert.InsertTakes | internal/kdb/btree/btree.go:289-306 | an insertion at height h takes at most one page a level and the value's pages, and runs out only with fewer than that |
| TreeDelete.DeleteDrops | internal/kdb/btree/btree.go:402-492 | deletion at any depth removes exactly one cell, keeps order, bounds and leaf list, conserves pages, and fails to find the key exactly when it is absent |
| TreeDelete.RebalanceKeeps | internal/kdb/btree/merge.go:31-317 | rebalancing, whichever sibling it uses, changes neither the entries nor their order, nor the leaf list, and frees exactly the pages it drops |
| TreeDelete.FixLeavesKeeps | internal/kdb/btree/merge.go:62-230 | merging or redistributing two leaves keeps entries, separator bounds, leaf list and pages |
| TreeDelete.FixInnersKeeps | internal/kdb/btree/merge.go:282-446 | merging or redistributing two internal nodes, the separator between them included, keeps entries, bounds, leaf list and pages |
| TreePacked.PutPacked | internal/kdb/btree/btree.go:213-264 | with fixed-width cells `Put` can only fail for want of pages, and keeps the tree packed |
| TreePacked.RemovePacked | internal/kdb/btree/btree.go:268-285 | with fixed-width cells `Delete` can only fail to find the key, and keeps the tree packed |
| TreePacked.RebalancePacked | internal/kdb/btree/merge.go:31-56 | a node one child of which is one short is packed again after rebalancing, and reports underflow exactly when it is one short itself |
| TreePacked.DepthBound | internal/kdb/btree/btree.go:140-167 | a packed tree of fewer than 571,880 cells has depth at most 3 |
| TreePacked.DeepTreeIsBig | internal/kdb/btree/btree.go:140-167 | a packed tree of depth 4 or more holds at least 571,880 cells |
| GrowthFacts.DepthLimit | internal/kdb/btree/btree.go:140-167 | no packed tree of distinct 8-byte keys is more than 11 levels deep |
| BTree.SearchKeys | internal/kdb/btree/btree.go:626-643 | the binary search gives the first slot not below the key, and whether the key is there |
| BTree.SearchChild | internal/kdb/btree/btree.go:769-783 | the binary search gives the child that may hold the key |
| BTree.ScanKeys | internal/kdb/btree/split.go:22-60 | the linear scan of the splits gives the first slot not below the key |
| BTree.Tree.Put | internal/kdb/btree/btree.go:213-264 | run on pages: the status and new tree are those of the tree model, the map gets the one update, no page outside the tree and the free pages changes, and a refused key changes nothing; it panics if and only if `PutOverflows` and runs out of pages if and only if `PutStarves`; with no root a key of 1 to 2,021 bytes is stored if and only if there are 1 + ceil(len/4064) pages for a value of 7 bytes or more, or one page for a shorter one |
| BTree.Tree.Remove | internal/kdb/btree/btree.go:268-285 | run on pages: the map loses exactly the key, which must be there; an absent or empty key changes nothing; it panics if and only if `RemoveOverflows` |
| BTree.Tree.Reorder | internal/kdb/freelist/btree_freelist.go:71-100 | whatever order its allocator has the free pages in, the tree is the same |
| BTree.Tree.Get | internal/kdb/btree/btree.go:171-210 | finds a key exactly when the map has it, and gives the value, up to the 32 bits that an overflow cell has for its length |
| ReadFacts.AsReadIsExact | internal/kdb/btree/btree.go:854-869 | what is read is what was written exactly when the length is below 2^32; else it is the first len % 2^32 bytes |
| BTree.Tree.FindLeaf | internal/kdb/btree/btree.go:495-515 | ends in the leaf whose range holds the key |
| BTree.Tree.InsertLeaf | internal/kdb/btree/btree.go:309-358 | on pages does what the model does, on its own page, its value's pages and free pages only |
| BTree.Tree.InsertInternal | internal/kdb/btree/btree.go:361-398 | recursion on pages refines the model: child first, then the new separator, then a split |
| BTree.Tree.SplitLeaf | internal/kdb/btree/split.go:22-111 | both halves, the separator, the list links and the page taken; fails exactly without a page, or when a half does not fit |
| BTree.Tree.SplitInternal | internal/kdb/btree/split.go:117-192 | both parts, the separator that moves up and the page taken; fails exactly without a page, or when a part does not fit |
| BTree.Tree.DeleteLeaf | internal/kdb/btree/btree.go:423-453 | on pages does what the model does: the cell goes, its overflow pages are free, underflow is reported unless it is the root |
| BTree.Tree.DeleteInternal | internal/kdb/btree/btree.go:457-492 | recursion on pages refines the model: child first, then rebalancing |
| BTree.Tree.MergeLeaves | internal/kdb/btree/merge.go:96-147 | left page gets all cells and the right page's successor, the parent loses one separator, the right page is free |
| BTree.Tree.RedistributeLeaves | internal/kdb/btree/merge.go:151-223 | the cells are dealt out half and half and the parent's separator replaced; fails exactly when a page would overflow |
| BTree.Tree.MergeInners | internal/kdb/btree/merge.go:321-380 | left page gets both lists with the separator between them, the parent loses it, the right page is free |
| BTree.Tree.RedistributeInners | internal/kdb/btree/merge.go:383-446 | the middle separator moves up and the others are dealt out; fails exactly when a page would overflow |
| BTree.Tree.UpdateSeparator | internal/kdb/btree/merge.go:233-249 | one separator replaced, its child kept; fails exactly when the page would overflow |
| BTree.Tree.FixLeaves | internal/kdb/btree/merge.go:62-92 | on pages does what the model does: merge if both fit one page, redistribute otherwise |
| BTree.Tree.FixInners | internal/kdb/btree/merge.go:282-317 | on pages does what the model does: merge if both and the separator fit one page, redistribute otherwise |
| BTree.Tree.Rebalance | internal/kdb/btree/merge.go:254-278 | right sibling first, then the left one, as in the model |
| BTree.Tree.CollapseRoot | internal/kdb/btree/merge.go:450-483 | a root without separators gives way to its only child and is freed; any other root stays |
| BTree.Tree.WriteOverflow | internal/kdb/btree/btree.go:873-925 | takes exactly (len + 4063) / 4064 pages, newest free page first, and links a chain that holds the value; fails exactly when there are fewer |
| OverflowBytes.WriteChunk | internal/kdb/btree/btree.go:886-904 | the buffer of a fresh page after one round: 50 42 44 4B, type 4, flags 0, link 0 at byte 24, the chunk from byte 32, zeros to byte 4,096: exactly the page the tree model writes |
| OverflowBytes.LinkTo | internal/kdb/btree/btree.go:911-914 | writing the link at byte 24 changes the link of the page and nothing else |
| OverflowBytes.ReadChunk | internal/kdb/btree/btree.go:938-950 | reads the link and as much of the payload as is still needed out of the buffer |
| OverflowBytes.ValueBytes | internal/kdb/btree/btree.go:873-954 | where a value is, byte by byte: byte k is byte 32 + k % 4064 of page k / 4064 of its chain, which has (len + 4063) / 4064 pages, each with the next one at byte 24, the last with 0 |
| BTree.Tree.ReadOverflow | internal/kdb/btree/btree.go:929-954 | gives back the bytes that the chain holds, up to the length asked for |
| BTree.Tree.FreeOverflow | internal/kdb/btree/btree.go:957-977 | gives back exactly the pages of the chain, in order |
| BTree.Reserve.Alloc | internal/kdb/freelist/btree_freelist.go:198-218 | the newest reserve page, zeroed; fails exactly when there is none |
| BTree.Reserve.Free | internal/kdb/freelist/btree_freelist.go:221-224 | one more reserve page |
| CellBytes.LeafCellOffset | internal/kdb/btree/btree.go:561-570 | the loop over length fields ends where cell i starts |
| CellBytes.LeafCellKey | internal/kdb/btree/btree.go:573-577 | the key of cell i, from the bytes |
| CellBytes.LeafCellValue | internal/kdb/btree/btree.go:582-594 | the value of cell i, its overflow flag and the first page of its chain, from the bytes |
| CellBytes.LeafHasSpace | internal/kdb/btree/btree.go:618-622 | true exactly when one more cell fits the 4,062 bytes |
| CellBytes.LeafInsertCell | internal/kdb/btree/btree.go:646-668 | shifting and writing bytes in place is insertion at i of the cell sequence, for cells of any size that fit; header, next pointer and the zeros behind stay |
| CellBytes.LeafDeleteCell | internal/kdb/btree/btree.go:671-686 | shifting bytes left, with zeros behind, is removal at i of the cell sequence |
| CellBytes.OneReading | internal/kdb/btree/btree.go:561-594 | a buffer is that of one cell sequence only: reading is unambiguous |
| CellBytes.OnePage | internal/kdb/btree/btree.go:582-594 | two leaf pages with the same bytes are the same page, overflow pointers and lengths included |
| CellBytes.LeafBytes | internal/kdb/btree/btree.go:561-594 | where everything on a leaf page is, in numbers: the next leaf at 24, the count at 32, cells from 34, the two lengths, key and value of each, and for a long value 0x800C, the first page and the length |
| CellBytes.PageInsert | internal/kdb/btree/btree.go:309-358 | what the byte-level insertion does to a buffer is what the page model does to the page |
| CellBytes.PageRemove | internal/kdb/btree/btree.go:423-453 | what the byte-level deletion does to a buffer is what the page model does to the page |
| CellBytes.RawSize | internal/kdb/btree/btree.go:602-615 | the bytes that cells take are the bytes the page model counts |
| PageBytes.PutUint | internal/kdb/encoding/endian.go:11-33 | writes the little-endian digits and changes nothing else in the buffer |
| PageHeader.Init | internal/kdb/page/page.go:105-127 | the header in bytes: 50 42 44 4B, the type, flags 0, the checksum at 6, and zeros from 10 on |
| PageHeader.SetChecksum | internal/kdb/page/page.go:131-139 | the checksum, taken with its own field as zeros, in its field; nothing else changes |
| Cursors.Cursor.First | internal/kdb/btree/cursor.go:28-54 | afterwards the cursor has all visible cells before it |
| Cursors.Cursor.Seek | internal/kdb/btree/cursor.go:58-89 | afterwards the cursor has before it the cells from the slot of the key on, going over to the next leaf if need be |
| Cursors.Cursor.Next | internal/kdb/btree/cursor.go:92-113 | drops exactly the first of the cells before the cursor, and reports whether any is left |
| Cursors.Cursor.Key | internal/kdb/btree/cursor.go:117-132 | the key of the first cell before the cursor; nil exactly when there is none |
| Cursors.Cursor.Value | internal/kdb/btree/cursor.go:137-165 | the value of that cell |
| Cursors.Cursor.AdvanceLeaf | internal/kdb/btree/cursor.go:173-201 | follows the next-leaf pointer, and stops at an empty leaf |
| Cursors.Cursor.FindLeftmost | internal/kdb/btree/cursor.go:204-222 | the first leaf of the list |
| Cursors.Drain | internal/kdb/btree/cursor.go:28-113 | the loop around a cursor yields each key before it once, in order, then stops |
| Cursors.FirstSeesAll | internal/kdb/btree/cursor.go:28-54 | a walk from `First` yields every entry, in strictly increasing key order, if and only if no leaf with cells comes after an empty one |
| Cursors.SeekSeesAll | internal/kdb/btree/cursor.go:58-89 | a walk from `Seek` yields exactly the entries not below the key, under the same condition on the leaves after the one it lands in |
| Cursors.SlotCuts | internal/kdb/btree/cursor.go:58-89 | the entries from a key's slot on are those not below the key |
| Cursors.CursorsAreExact | internal/kdb/btree/cursor.go:173-201 | without an empty leaf below the root cursors are exact, for every key |
| Cursors.PackedCursorsAreExact | internal/kdb/btree/cursor.go:173-201 | with fixed-width cells they are exact |
| Freelist.BTreeFreelist.Open | internal/kdb/freelist/btree_freelist.go:56-67 | starts with every given page in reserve, each managed once |
| Freelist.BTreeFreelist.Reopen | internal/kdb/db.go:471-475 | over the pages another allocator left, with its root and no reserve: the same listed IDs and held pages, and a partition of the managed pages less the old reserve, whose pages are lost |
| Freelist.BTreeFreelist.Alloc | internal/kdb/freelist/btree_freelist.go:71-100 | hands out a managed page that nobody holds, the smallest ID while the tree has any; fails exactly when no page is free; keeps the partition and the pages of clients |
| Freelist.BTreeFreelist.Free | internal/kdb/freelist/btree_freelist.go:103-123 | takes a page back into exactly one place: the reserve while that has fewer than four, the tree otherwise; never fails below 571,880 listed IDs; keeps the pages of clients; a page that is free already, or holds a node, is afterwards in two places, so that no client can hold pages consistently, unless the tree lists it and takes it again, which changes nothing |
| FreelistFacts.ListTwice | internal/kdb/freelist/btree_freelist.go:111-123 | listing a page that is listed already changes nothing; listing any other page that is free, or holds a node, puts it into two places |
| Freelist.BTreeFreelist.FlushReserve | internal/kdb/freelist/btree_freelist.go:172-187 | leaves at most four reserve pages, listing the others or using them for nodes; never fails up to 571,880 free pages; keeps the partition |
| Freelist.BTreeFreelist.FreeCount | internal/kdb/freelist/btree_freelist.go:126-140 | the reserve and every listed ID, counted with a cursor |
| FreelistFacts.TakeLeast | internal/kdb/freelist/btree_freelist.go:71-91 | taking the smallest listed ID keeps tree keys, reserve, node pages and held pages a partition of the managed pages |
| FreelistFacts.GiveToTree | internal/kdb/freelist/btree_freelist.go:111-123 | listing a page keeps the partition, takes at most one page a level and one more, and can only fail for want of them |
| FreelistFacts.FourAreEnough | internal/kdb/freelist/btree_freelist.go:111-118 | with fewer than 571,880 listed IDs, four reserve pages are enough to list one more |
| PageKeys.KeysAreIds | internal/kdb/freelist/btree_freelist.go:227-236 | the 8-byte keys and the IDs are in bijection, and byte order is the order of the IDs |
| GrowthFacts.PutAppends | internal/kdb/db.go:233-258 | a key above all others goes into the last leaf; no page is taken while that has room, and after a split it holds 170 cells |
| GrowthFacts.GrowStep | internal/kdb/db.go:233-258 | one of the sixteen insertions of a growth: four reserve pages suffice at depth 3, and all of them together split at most once a level |
| Growth.Database.Seed | internal/kdb/db.go:516-541 | a new database has pages 2 to 15 managed, none held, and at least 13 free |
| Growth.Database.Grow | internal/kdb/db.go:233-258 | sixteen more pages managed, at least 16 less the cost of one split path free; never fails at depth 3 |
| Growth.Database.EnsureFreePages | internal/kdb/db.go:276-283 | terminates; afterwards at least n pages are free; never fails for n up to 571,880, and then grows by no more than the missing pages and a third of them; does nothing when enough are free |
| Growth.Database.CountFree | internal/kdb/db.go:262-266 | the number of free pages |
| BufPool.Pool.constructor | internal/kdb/bufpool/bufpool.go:61-71 | an empty pool shows what is on disk; a capacity of 0 or less means 256 |
| BufPool.Pool.FindVictim | internal/kdb/bufpool/bufpool.go:292-330 | the hand ends at the first frame from where it was that is neither pinned nor referenced, or, if there is none, at the first unpinned one; exactly the unpinned frames passed on the way lose their reference bits; none is found if and only if all are pinned |
| BufPool.Pool.Pin | internal/kdb/bufpool/bufpool.go:76-114 | gives the page's frame with one pin more and changes no page's content, pinned frame or capacity; with a working disk a miss succeeds exactly when there is room or an unpinned frame; a page pinned since the hand last passed it stays cached while some page is neither pinned nor referenced |
| BufPool.Pool.Unpin | internal/kdb/bufpool/bufpool.go:118-130 | one pin less, the reference bit and everything else as they were, if the client marked its writes; panics exactly for a page not cached or not pinned |
| BufPool.Pool.MarkDirty | internal/kdb/bufpool/bufpool.go:133-145 | the frame will be written back; panics exactly for a page not cached or not pinned |
| BufPool.Pool.ClientWrite | internal/kdb/bufpool/bufpool.go:76-114 | a client's write changes the content of its page and of no other |
| BufPool.Pool.FlushPage | internal/kdb/bufpool/bufpool.go:185-204 | the disk holds the page's content; fails exactly when the write does |
| BufPool.Pool.FlushDirty | internal/kdb/bufpool/bufpool.go:149-182 | afterwards no frame is dirty and the disk holds the content of every page, but those written and not marked |
| BufPool.Pool.EvictOne | internal/kdb/bufpool/bufpool.go:292-330 | which page goes, over the old ring, hand, pins and reference bits: the first unpinned and unreferenced one from the hand, or else the first unpinned one; what is left of the reference bits, the ring and the hand; it fails exactly if there is no unpinned page or the victim's write fails; no page's content changes |
| BufPool.Pool.Evict | internal/kdb/bufpool/bufpool.go:304-325 | the victim is written back if dirty before it goes |
| BufPool.Pool.AdvanceHand | internal/kdb/bufpool/bufpool.go:333-335 | the next ring position |
| BufPool.Pool.RemoveClock | internal/kdb/bufpool/bufpool.go:339-352 | the ring loses exactly the frame at i, its last frame taking the place, and the hand stays in range |
| BufPool.Pool.MakeRoom | internal/kdb/bufpool/bufpool.go:90-95 | room for one frame: no eviction below capacity, exactly one at or above it |
| BufPool.Pool.SetMaxPages | internal/kdb/bufpool/bufpool.go:255-262 | the capacity, at least 1; nothing is evicted |
| Keys.EscapeID | internal/kdb/event/key.go:29-47 | the loop escapes byte by byte |
| Keys.UnescapeID | internal/kdb/event/key.go:51-78 | the loop undoes escapes, and refuses a dangling or unknown one |
| Keys.EscapeRule | internal/kdb/event/key.go:29-47 | byte by byte: a backslash is doubled, a colon becomes backslash c, any other byte stays |
| Keys.UnescapeEscape | internal/kdb/event/key.go:29-78 | unescaping inverts escaping, for all ids |
| Keys.EscapeUnescape | internal/kdb/event/key.go:51-78 | escaping inverts unescaping exactly for inputs without a bare colon, which `UnescapeID` lets through |
| Keys.EscapePrefix | internal/kdb/event/key.go:29-47 | escaping keeps and reflects prefixes |
| Keys.ParseKeyInverts | internal/kdb/event/key.go:85-171 | `ParseKey` inverts `BuildKey` for every kind, id and version below 10^16 |
| Keys.KeyBytes | internal/kdb/event/key.go:85-101 | the bytes of a key: e, d, o, x or l, a colon, the escaped id, ":v" and sixteen decimal digits that stand for the version |
| Keys.ParseKeyAccepts | internal/kdb/event/key.go:138-171 | what `ParseKey` accepts, and as what: exactly the strings of that form, the id escaped in any way that `UnescapeID` takes |
| Keys.ParseKeyErrors | internal/kdb/event/key.go:138-171 | and what it answers otherwise: which of invalid key, invalid kind and empty id, for every other string |
| Keys.VersionOrder | internal/kdb/event/key.go:233-235 | byte order of one id's keys is numeric order of the versions |
| Keys.KeysDiffer | internal/kdb/event/key.go:85-101 | two keys are equal exactly when kind, id and version are |
| Keys.ChainPrefixIsExact | internal/kdb/event/key.go:240-254 | a key starts with the chain prefix of a kind and id exactly when it is one of its versions |
| Keys.SplitEscapedColons | internal/kdb/event/key.go:287-311 | splits at the bare colons, and refuses any other number of parts |
| Keys.ReverseKeyBytes | internal/kdb/event/key.go:113-122 | the bytes of a reverse-link key: "lr:", then destination, type and source, each escaped, with colons between |
| Keys.ParseReverseInverts | internal/kdb/event/key.go:113-214 | `ParseReverseLinkKey` inverts `BuildReverseLinkKey` |
| Keys.CompositeInjective | internal/kdb/event/types.go:255-257 | two links have the same id exactly when ends and type agree |
| Keys.ReverseDstPrefixIsExact | internal/kdb/graph/keys.go:40-46 | an lr: key starts with the prefix of d exactly when its destination is d |
| Keys.ForwardSrcPrefixIsExact | internal/kdb/graph/keys.go:28-36 | a link key, escaped twice, starts with the prefix of s exactly when its source is s |
| Keys.EventKeyIsNotReverse | internal/kdb/event/key.go:219-230 | no event key starts with a reverse-link prefix |
| Keys.LinkKeyParts | internal/kdb/graph/keys.go:54-64 | the tuple and the chain prefix recovered from a link key are those it was built from |
| Keys.LinkKeyChecks | internal/kdb/graph/keys.go:54-64 | what both accept, and where they cut, for any key |
| Record.UvarintReads | internal/kdb/encoding/varint.go:6-22 | every 64-bit number is read back from its LEB128 form, whatever follows |
| RecordBytes.UvarintBytes | internal/kdb/encoding/varint.go:6-22 | byte i of a number holds bits 7i to 7i + 6, and its top bit says whether another byte follows |
| RecordBytes.UvarintLength | internal/kdb/encoding/varint.go:6-22 | and there are no more bytes than the number needs |
| RecordBytes.ReadUvarintIs | internal/kdb/encoding/varint.go:6-22 | what any bytes are read as: the end of data if there are at most ten and all have their top bits set; else an overflow if the number does not end with byte ten, 0 or 1, at the latest; else the number of their groups of seven bits |
| Record.ReadDataInverts | internal/kdb/encoding/record.go:24-95 | every field value is read back, whatever follows, and its length with it |
| Record.Encoder.Put | internal/kdb/encoding/record.go:24-28 | one more field at the end of the record |
| Record.Decoder.Next | internal/kdb/encoding/record.go:158-173 | the next tag, and where the decoder then stands |
| Record.Decoder.SkipList | internal/kdb/encoding/record.go:345-363 | skips exactly the bytes that reading the list would use, or fails as reading would |
| Codec.EncodeEvent | internal/kdb/event/codec.go:18-50 | the encoder's calls produce the specified record |
| Codec.GatherFields | internal/kdb/event/codec.go:85-110 | the decoder loop gathers what the specification reads, field by field, skipping what it does not know |
| Codec.AssembleBody | internal/kdb/event/codec.go:210-225 | the loops over raw fields build the specified body |
| Codec.DecodeEvent | internal/kdb/event/codec.go:61-81 | the decoder's calls and checks, in their order, compute the specified decoding |
| Codec.DecodeInverts | internal/kdb/event/codec.go:18-81 | decoding an encoded event with its id gives the event back, its time as far as 64 bits keep it |
| Codec.TimesSurvive | internal/kdb/encoding/record.go:47-49 | a creation time survives exactly if it is in 64 bits and is not the epoch, which reads back as the zero time |
| RecordBytes.EventBytes | internal/kdb/event/codec.go:18-50 | the bytes of a record, for each kind of event and field by field: schema version 1, the number of fields, every tag, and empty fields left out |
| RecordBytes.DecodeCut | internal/kdb/event/codec.go:61-81 | a stored record cut short anywhere decodes to `ErrCorrupt`, never to an event |
| RecordBytes.HeaderTypes | internal/kdb/event/codec.go:85-110 | a header field is read as what it should be, whatever type its tag gives |
| RecordBytes.HeaderErrors | internal/kdb/event/codec.go:85-110 | the first kind outside 1 to 5, or lifecycle outside 1 to 3, decides the error, whatever else a record holds |
| RecordBytes.NoKind | internal/kdb/event/codec.go:61-81 | a record without a kind is refused |
| RecordBytes.NoName | internal/kdb/event/codec.go:61-81 | so is one decoded without an id |
| RecordBytes.DecisionErrors | internal/kdb/event/codec.go:210-225 | the first severity or scope of a decision outside 1 to 3 decides the error |
| Codec.UnknownFieldsAreSkipped | internal/kdb/event/codec.go:167-196 | a record decodes the same with or without a field that its kind does not know, anywhere in it |
| StoreFacts.ScanIsExact | internal/kdb/event/store.go:552-572 | a scan, the cells from the slot of a prefix on while they have it, misses no cell with the prefix: it is all of them, in order |
| Scans.WalkIsScan | internal/kdb/btree/cursor.go:58-89 | on a tree, what the cursor has before it after `Seek(p)`, while keys start with p, is the scan of all the tree's cells for p if and only if no empty leaf stands between the place of p and a key that starts with it |
| Scans.ScanPrefix | internal/kdb/event/store.go:552-572 | the loop of the readers on a cursor: `Seek`, then `Key`, `Value` and `Next` while the key has the prefix, gives the keys of that scan under exactly that condition, with their values as they are read |
| StoreFacts.ChainScan | internal/kdb/event/store.go:552-572 | the scan with an id's prefix yields versions 1 to n of it, in order, and nothing else |
| StoreFacts.ForwardWritten | internal/kdb/event/store.go:98-135 | writing a forward record extends one chain and leaves everything but that link's index entry in order |
| StoreFacts.IndexWritten | internal/kdb/event/store.go:148-165 | writing the reverse entry makes the index complete again: each entry holds the newest key of its link |
| Groups.ScanIsGrouped | internal/kdb/event/store.go:459-508 | a scan that selects whole ids yields them one after the other, each from its first version to its last |
| Store.EventStore.Append | internal/kdb/event/store.go:98-142 | the chain gets one version more, n + 1, the event's own name and body, created at the given time or, if none is given, at the clock's, as far as 64 bits keep it, active if no lifecycle is given, and superseding the key of version n; errors as in the code; a link without a type is refused after its forward record is written |
| Store.AppendAndRead | internal/kdb/event/store.go:98-195 | `Latest` after a successful `Append` gives exactly that event |
| Store.EventStore.LatestKey | internal/kdb/event/store.go:552-572 | the key and number of the newest version |
| Store.EventStore.Latest | internal/kdb/event/store.go:173-195 | the newest version, `ErrNotFound` exactly when there is none |
| Store.EventStore.AsOf | internal/kdb/event/store.go:293-338 | the version before the first one created after t |
| Store.AsOfIsGreatest | internal/kdb/event/store.go:293-338 | `AsOf` gives the newest version created by t, for every t, if and only if creation times never decrease along the chain |
| Store.EventStore.ResolveSupersedes | internal/kdb/event/store.go:353-409 | from version n: the versions n to 1, if and only if maxHops is at least n - 1; every error case |
| Store.EventStore.IterateKind | internal/kdb/event/store.go:459-508 | each id of the kind once, with its newest version |
| Walks.WalkForward | internal/kdb/graph/neighbors.go:75-121 | yields x exactly when some link to it, of a listed type, or of any if none is listed, has a version in force that is not superseded |
| Walks.WalkReverse | internal/kdb/graph/neighbors.go:131-149 | yields x exactly when some complete link from it, of a listed type, or of any if none is listed, has a version in force that is not superseded |
| Walks.WalkByTypes | internal/kdb/graph/neighbors.go:128-137 | a walk with a list of types yields what the walks with one of them alone yield together, and a walk with no list what some type alone yields, in both directions |
| Walks.EmitLatest | internal/kdb/graph/neighbors.go:160-185 | emits the source exactly if the newest version of the link is followed |
| Walks.EmitAsOf | internal/kdb/graph/neighbors.go:187-235 | emits the source exactly if the newest version created by the point in time is followed |
| Duality.WalkBothWays | internal/kdb/graph/neighbors.go:75-235 | over one store the forward walk from s yields r if and only if the reverse walk from r yields s, or an incomplete link between them (without an end or a type) is followed; for every filter, with or without a point in time |
| Duality.AgreeExactly | internal/kdb/graph/neighbors.go:75-235 | the two walks agree for all refs, edge filters and points in time if and only if no version of an incomplete link is, newest of its time, anything but superseded |
| Duality.AppendAgrees | internal/kdb/event/store.go:98-142 | writing one more version to a store whose walks agree keeps them agreeing if and only if the event is tight: its link, if it is one, has both ends and a type, or it is itself marked superseded |
| Duality.AppendKeepsAgreement | internal/kdb/event/store.go:98-142 | the same of `Append`, which may also write nothing |
| Duality.AppendAll | internal/kdb/event/store.go:98-142 | in a store built from tight appends only, in any number and order, every walk agrees with every walk back |
| Duality.UntypedLinkIsOneWay | internal/kdb/event/store.go:136-165 | `Append` of a link without a type to an empty store fails with `ErrEmptyID`; afterwards the forward walk from its source yields its target, and the reverse walk from its target yields nothing |
| Bfs.BfsState.constructor | internal/kdb/graph/reachable.go:62-74 | the starts, one for each side |
| Bfs.BfsState.Emit | internal/kdb/graph/reachable.go:87-105 | one neighbour: depths stay those of a breadth-first search, the result free of duplicates, or the cap is exceeded |
| Bfs.BfsState.Run | internal/kdb/graph/reachable.go:108-124 | terminates; exceeds the cap if and only if too much is in reach; otherwise the result is exactly what is in reach |
| Bfs.AllVisited | internal/kdb/graph/reachable.go:108-124 | at the end everything at most `MaxDepth` hops away on one side has been visited, at no greater depth |
| Bfs.Reachable | internal/kdb/graph/reachable.go:23-43 | without the cap: exactly the refs other than the start that a path of at most `opts.MaxDepth` links (5 if that is 0 or less) leads to, on one side or, for both, forward only or backward only, each once; `ErrVisitedCapExceeded` if and only if more than `opts.MaxVisited` pairs (10,000 if that is 0 or less) are in reach, and then a duplicate-free part of that |
| Bfs.ImpactRadius | internal/kdb/graph/reachable.go:149-154 | exactly the refs from which a path of at most `maxDepth` links (5 if that is 0 or less) leads to the target, each once; `ErrVisitedCapExceeded` if and only if more than 10,000 are in reach, and then a duplicate-free part of them |
| Bfs.Neighbors | internal/kdb/graph/neighbors.go:28-64 | the neighbours on the sides asked for, each once |
| MetaPages.MetaFile.constructor | internal/kdb/meta.go:209-229 | both slots hold version 1, generation 1, format 0, schema 0 and no roots |
| MetaPages.MetaFile.LoadMeta | internal/kdb/meta.go:174-204 | the newest of the metas that can be read and are valid, slot A's if they are equally new; none exactly if there is none |
| MetaPages.MetaFile.SwapMeta | internal/kdb/meta.go:238-277 | one slot changes, to old, new or invalid: slot A if it is invalid to the swap or older than B, else slot B |
| MetaPages.MetaFile.CommitMeta | internal/kdb/db.go:714-747 | one commit with any outcome, whatever pages its swap can read, and the restart after a crash; completed, it has version 1, format 1, the old schema, the next generation and the commit's roots, and that is what `loadMeta` then gives; it goes the way of a single register if and only if it does not spoil |
| MetaPages.TargetIsActive | internal/kdb/meta.go:238-277 | a swap overwrites the slot in force exactly when it cannot read it and does not find slot A invalid first |
| MetaPages.InterruptedSwapIsHarmless | internal/kdb/meta.go:238-277 | a swap that leaves its slot old or invalid changes nothing that `loadMeta` sees |
| MetaPages.SwapTakesHold | internal/kdb/meta.go:174-277 | a completed swap is what `loadMeta` gives if and only if it raises the generation, or equals it in slot A |
| MetaPages.StepKeepsInStep | internal/kdb/db.go:714-747 | from a database in step with its disk, a commit writes all or nothing and leaves it in step if and only if it does not spoil: its write does not fail late; is not torn on the slot in force (unreadable at that time) while the other slot holds something else; and the next start does not miss the slot in force and read an older one |
| MetaPages.RunIsRegister | internal/kdb/db.go:714-747 | a run of commits, each completed, failed or crashed, with whatever pages readable to its swaps and restarts, behaves all along as a single register if and only if none of its commits spoils |
| MetaPages.RunKeepsASlot | internal/kdb/meta.go:238-277 | in a run of any commits, unreadable pages included, some slot is valid all along if and only if no commit tears slot A, unreadable to it, while slot B is invalid |
| MetaPages.AfterLateFailure | internal/kdb/db.go:725-740 | after a write that failed late the next commit takes hold if and only if the failed one went to slot B |
| MetaPages.LateFailureLosesACommit | internal/kdb/db.go:725-740 | a concrete run in which a completed commit is lost at the next start |
| MetaBytes.EncodeMeta | internal/kdb/meta.go:94-112 | the page in place, which starts with 50 42 44 4B 01 00 and decodes to the meta |
| MetaBytes.MetaReads | internal/kdb/meta.go:94-138 | every meta whose fields fit is decoded from its page, for any checksum function |
| MetaBytes.MetaAccepts | internal/kdb/meta.go:116-138 | what `decodeMeta` accepts, and as what, byte by byte: magic and type in their places, the checksum over the page with bytes 6 to 9 as zeros, and each field at its offset |

## Left out

- Freelist.BTreeFreelist.Free: says nothing about the state after a failed `Put` beyond the pages of clients; the Go code returns the error with the tree half changed.
- Growth.Database.Seed: is about a file of one growth chunk, the only size with which `internal/kdb/db.go:326` and `internal/kdb/compact.go:193` make a new file.
- BTree.Tree.Put: says nothing about the tree after `NoPages` or `Panic`, beyond that no page outside the tree and the free pages changed.
- BTree.Tree.Remove: says nothing about the tree after `Panic`, with the same exception.
- Growth.Database.EnsureFreePages: requires the page count to stay within 64-bit IDs while it grows.
- Freelist.BTreeFreelist.Open: opens an empty tree; a tree that is there already is `Freelist.BTreeFreelist.Reopen`, which the code does without reserve pages. `SeedReserve` is not modelled.
- BufPool.Pool.Unpin: requires, as the callers must, that a client marks a page it wrote dirty before it gives up its last pin.
- Store.EventStore.Append: requires numbers and lengths within 64 bits, valid or unset enumerations, and fewer than 10^16 versions; of the errors of the transaction's `Put` only the key size is modelled.
- Codec.DecodeInverts: is about events with valid or unset severity and scope; for others see `RecordBytes.DecisionErrors`.
- Store.EventStore.IterateKind: collects the events instead of handing each to a callback that can stop the walk; no order of the ids is claimed.
- Walks.WalkForward: returns what it emits instead of calling back; the search takes it in the same order.
- MetaPages.RunIsRegister: a start that finds no meta at all is taken to be followed by one that can read both pages.
- MetaBytes.EncodeMeta: takes the checksum function as a parameter; CRC32C itself is not modelled.
- Tree pages in `BTree` come from the last place of a list that the allocator may put in any order between operations (`BTree.Tree.Reorder`, `TreeOrder.PutTakesFirst`); an allocator that takes pages for itself in the middle of an operation is not modelled.
- I/O errors under the tree and the cursor, page LSNs, and the checksum of tree pages (a bit in `BufPool`).
- Internal pages byte by byte: the same shifting as for leaves, with fixed-size tails.
- `Tree.count`, hit-rate statistics, the adaptive pool size, mutexes and concurrent calls: operations are atomic steps.
- The write-ahead log, its replay, transactions and `View`: atomicity and snapshot isolation are not claimed. The store works on a sorted list of cells; that the tree and its cursors provide one, for runs of puts, is `PutRuns.PutRunsAreExact`.
- Secondary indexes, migrations, the linked-list freelist, queries, retrieval, rendering and everything outside `internal/kdb`.
- `ReverseLinks` and `History`: scans like those of `Walks.WalkReverse` and `Store.EventStore.LatestKey`.

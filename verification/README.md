# A verified model of the memory, messaging and allocation code of libibverbs and libmlx4

This project models four parts of the repository that carry algorithmic state, in Dafny 4.11, and
proves what they promise. `dafny verify dfyconfig.toml` checks all of it.

**Fork safety** (`libibverbs-41mlnx1/src/memory.c`). The address space is kept as ranges with reference
counts in a red-black tree with parent pointers; `ibv_madvise_range` splits and merges ranges, tells the
kernel when a count leaves or reaches zero, and takes its changes back when the kernel refuses.

- `RedBlack` has the tree as a value, seen through a zipper: what one repair step of insertion or deletion
  does to colours, black heights and order. `MemLinks` says what the pointers of a tree look like in a
  snapshot of the heap and what each group of writes does to it. `MemTree` has the class `ForkTree`: the
  pointer code itself, proved to keep a red-black tree and to insert or remove exactly one node of the
  in-order sequence.
- `RangeMap` has the ranges as a sequence: canonical partitions, the edits, and the loop predicates.
  `Pages` has the rounding to pages with its wrap-around. `ForkRange` has the class `ForkMap`: the calls,
  with `madvise` and `malloc` free to fail at any time, a log of what madvise was told and refused, and a count
  of failed mallocs. `ForkRuns` has `ibv_dontfork_range`, `ibv_dofork_range` and lists of such calls made on the
  tree.

Found on the way: if the undoing itself is not refused, a refused `MADV_DONTFORK` call leaves the ranges as
they were as long as nothing was released more often than registered, but a refused `MADV_DOFORK` call does
so exactly if the byte before the refused ones is outside the call or was not registered exactly twice
(`ForkRuns.Register`, `ForkRuns.Release`, `ForkRuns.ReleasingMayLeaveTrace`). A failed malloc undoes nothing, and
bytes below the request may lose a registration (`ForkRuns.ShortageMayCostNeighbour`).

**MPRUD** (`libibverbs-41mlnx1/src/mprud.c`). A message is cut into one chunk per path, each chunk into
pieces of MTU size that are sent from the upper end downwards; completions of pieces are counted and turned
into completions of messages; what a failed path has not delivered is sent again over the others.

- `MprudSplit` has the two posting loops with their early ends, `MprudReceive` the memory of the receiver
  under every interleaving of arrivals, `MprudCopy` the same with the receiver's own copies of final pieces,
  `MprudComplete` the counters, the ring of work requests, the moment of each copy and the waits of the
  posting loops, `MprudRecovery` the recomputation of the lost region and its re-split, `MprudReorder` the
  arrival of recovery packets over several paths.

Found on the way:

- The bytes beyond `n * (size / n)` are never sent, although a comment (`mprud.c:1424`) gives them to the
  last queue pair.
- The network's writes alone deliver a message in place on every interleaving exactly if there is one path,
  or one piece per path, or the final pieces are at least as long as a GRH (`MprudReceive.InPlaceReceive`).
- The copies that `mprud_inner_poll` makes at the end of each path (`mprud.c:1827-1834`) start at an address
  that falls below the chunk of their path by part of a GRH, and destroy payload there. With them, the bytes
  outside the final pieces are delivered on every interleaving exactly if there is one path or one piece per
  path; with a GRH of a single byte two paths can be safe as well (`MprudCopy.ReceiveWithCopies`). The bytes
  of the final pieces never come to their place, because the copy takes from `buf.recv` what was received at
  `buf.sub` (`MprudCopy.FinalPiecesStayAside`).
- A request with fewer bytes than paths has no pieces. On the sending side its slot stalls the path indices
  once it has been reported (`MprudComplete.Engine.EmptyRequestStalls`); on the receiving side the source divides
  by zero when it stores it (`mprud.c:1363`).
- Recovery loses bytes exactly if the tail that its split over the remaining paths drops is longer than what
  the recomputed region has too much (`MprudRecovery.RecoveryComplete`).
- The two sides cut out different regions whenever the receive length includes a GRH of at least as many
  bytes as there are paths, unless path 0 failed after some pieces and both chunk sizes happen to leave
  equally much (`MprudRecovery.RegionsAgree`).
- Recovery packets travel over all remaining paths to one queue pair, whose buffers say where they land. They
  all land where they belong on every order of arrival exactly if one path is left or every path has at most
  one piece (`MprudReorder.RecoveryAnyOrder`).

**Allocators of libmlx4**. `BitWords` and `Bitmap` have the bitmap of `bitmap.h`, packed into 32-bit words,
with its word-skipping search, its aligned search, its hint and its counter; `Doorbell` has the doorbell
records of `dbrec.c` on their doubly linked list of pages; `HugeBuf` has the huge-page buffers of `buf.c`.

Found on the way: a bitmap returns the numbers of the runs it takes exactly if its number of bits is a power
of two (`Bitmap.BasesAreRuns`, `Bitmap.Reused`), and `mxl4_hugetlb_mem_alloc` makes segments for which it is
not (`HugeBuf.MaskFitsSegment`). For every size that gets such a segment without filling it, a buffer that is
given back and allocated again comes to cover the chunk behind it, which is in use (`HugeBuf.SameSizeAgain`);
on a segment of 6 MB a buffer can also lie behind the segment (`HugeBuf.SixMegabytes`). A segment that one
buffer fills is safe whatever its size.

**Ring flow control** (`send_recv` in `libibverbs-41mlnx1/examples/intf.c`) is in `RingPost`. A call with
fewer messages than one burst posts nothing and polls for ever.

Classes stand for the C structures that are updated in place. Ghost fields and ghost parameters are the
only additions: the tree as a value, the sequence of ranges, positions in it, and totals since the start.
The kernel, `malloc`, shared memory, the network and the completion queues are oracles: a value chosen
freely (`*`) or a parameter. `Arith` and `Sequences` hold facts about division and about lists.

## Model

| member | source | states |
|---|---|---|
| `RedBlack.InsertRecolor` | libibverbs-41mlnx1/src/memory.c:284-310 | recolouring a red uncle moves the only red-red violation two levels up and changes neither black heights nor the order of the nodes |
| `RedBlack.InsertRotateLeft` | libibverbs-41mlnx1/src/memory.c:291-300 | with a black uncle, the rotations below a left parent end the violation with the same order and black heights |
| `RedBlack.InsertRotateRight` | libibverbs-41mlnx1/src/memory.c:312-321 | the same below a right parent |
| `RedBlack.InsertDone` | libibverbs-41mlnx1/src/memory.c:326-327 | when no violation is left, blackening the root makes a red-black tree with the same nodes in order |
| `RedBlack.DeleteSibling` | libibverbs-41mlnx1/src/memory.c:413-454 | during the repair of a removal the sibling is never missing, and its children balance as the code assumes when it dereferences them |
| `RedBlack.DeleteRedSibling` | libibverbs-41mlnx1/src/memory.c:417-422 | a red sibling is rotated up: the order is kept, and the missing black stays where it was, now below a red parent |
| `RedBlack.DeleteRecolor` | libibverbs-41mlnx1/src/memory.c:424-428 | a black sibling with black children: the missing black moves one level up, order unchanged |
| `RedBlack.DeleteRotateLeft` | libibverbs-41mlnx1/src/memory.c:430-444 | a red nephew on the left side: the rotations pay the missing black and end the repair |
| `RedBlack.DeleteRotateRight` | libibverbs-41mlnx1/src/memory.c:462-476 | the mirror image |
| `RedBlack.DeleteDone` | libibverbs-41mlnx1/src/memory.c:481-482 | painting the child black at the end of the repair gives a red-black tree with the same order |
| `RedBlack.PredecessorMoved` | libibverbs-41mlnx1/src/memory.c:360-390 | putting the in-order predecessor in the place of a node with two children removes exactly that node from the order and leaves at most one black missing, at the hole the predecessor left |
| `RedBlack.OneChildMoved` | libibverbs-41mlnx1/src/memory.c:392-405 | replacing a node with at most one child by that child removes exactly that node from the order |
| `RedBlack.LogarithmicHeight` | libibverbs-41mlnx1/src/memory.c:273-353 | a red-black tree of n nodes is at most 2 log2(n + 1) high |
| `MemLinks.RotateRightAt` | libibverbs-41mlnx1/src/memory.c:224-246 | the pointer writes of a right rotation, root pointer included, turn a tree linked in the heap into the rotated tree linked in the heap, below any context |
| `MemLinks.RotateLeftAt` | libibverbs-41mlnx1/src/memory.c:248-271 | the same for a left rotation |
| `MemLinks.PredecessorAt` | libibverbs-41mlnx1/src/memory.c:360-390 | all writes that move the predecessor, with its left child attached to its old parent, leave the heap linked as the tree that results, also when the predecessor is the left child itself |
| `MemLinks.OneChildAt` | libibverbs-41mlnx1/src/memory.c:392-405 | the writes that replace a node by its only child, or by nothing, leave the heap linked as the tree that results |
| `MemLinks.LeafAt` | libibverbs-41mlnx1/src/memory.c:342-351 | hanging the new node into the hole that the descent found leaves a linked and ordered tree |
| `MemLinks.SeqSorted` | libibverbs-41mlnx1/src/memory.c:329-353 | the nodes of an ordered tree stand in strictly increasing address order |
| `MemTree.ForkTree.constructor` | libibverbs-41mlnx1/src/memory.c:177-187 | the initial tree is one black node for the whole address space with count zero |
| `MemTree.ForkTree.RotateRight` | libibverbs-41mlnx1/src/memory.c:224-246 | right rotation at any node keeps all parent and child links consistent and does exactly the rotation of the tree |
| `MemTree.ForkTree.RotateLeft` | libibverbs-41mlnx1/src/memory.c:248-271 | left rotation likewise |
| `MemTree.ForkTree.AddRebalance` | libibverbs-41mlnx1/src/memory.c:273-327 | the loop ends (it moves up), restores the red-black rules and keeps the order |
| `MemTree.ForkTree.Add` | libibverbs-41mlnx1/src/memory.c:329-353 | inserts exactly the new node at its place in address order and keeps a valid red-black tree |
| `MemTree.ForkTree.RemoveStep` | libibverbs-41mlnx1/src/memory.c:413-479 | one turn of the repair loop never dereferences a missing sibling, keeps order and links, and either ends the repair or moves it up |
| `MemTree.ForkTree.RemoveFixup` | libibverbs-41mlnx1/src/memory.c:410-482 | the repair of a removal terminates and ends in a red-black tree with the same order |
| `MemTree.ForkTree.MovePredecessor` | libibverbs-41mlnx1/src/memory.c:360-390 | the first half of a removal of a node with two children, on the heap |
| `MemTree.ForkTree.Unhang` | libibverbs-41mlnx1/src/memory.c:392-405 | the first half for a node with at most one child |
| `MemTree.ForkTree.Remove` | libibverbs-41mlnx1/src/memory.c:355-483 | removes exactly the given node from the in-order sequence of any valid tree and keeps a valid red-black tree |
| `MemTree.ForkTree.Prev` | libibverbs-41mlnx1/src/memory.c:192-206 | the node before in address order, or none at the front |
| `MemTree.ForkTree.Next` | libibverbs-41mlnx1/src/memory.c:208-222 | the node behind in address order, or none at the end |
| `MemTree.ForkTree.FindStart` | libibverbs-41mlnx1/src/memory.c:485-500 | the descent finds the node that covers an address |
| `RangeMap.CanonicalUnique` | libibverbs-41mlnx1/src/memory.c:534-541 | two gapless sequences of ranges without equal neighbours and with the same counts are the same sequence |
| `RangeMap.StartSplit` | libibverbs-41mlnx1/src/memory.c:535-536 | cutting the first range puts the loop into its invariant |
| `RangeMap.StartMerge` | libibverbs-41mlnx1/src/memory.c:538-540 | merging the first range into its predecessor puts the loop into its invariant, with counts below the start that are too small by the increment for the moment |
| `RangeMap.BodySplit` | libibverbs-41mlnx1/src/memory.c:610-615 | cutting the last range at the upper end keeps what the loop body needs |
| `RangeMap.BodyBump` | libibverbs-41mlnx1/src/memory.c:655 | changing the count of a range carries the invariant to the next range and leaves no equal neighbours behind, the temporarily wrong lower part coming out right |
| `RangeMap.Finished` | libibverbs-41mlnx1/src/memory.c:659-663 | behind the loop every count is right, and after the last possible merge the ranges are canonical |
| `RangeMap.UndoSplit` | libibverbs-41mlnx1/src/memory.c:558-565 | splitting a merged range again gives both parts their right counts back |
| `RangeMap.UndoNext` | libibverbs-41mlnx1/src/memory.c:571-573 | merging with an equal successor keeps all counts and makes the ranges canonical |
| `RangeMap.SameCounts` | libibverbs-41mlnx1/src/memory.c:578-672 | canonical ranges with the same counts everywhere are equal, so restoring counts restores the ranges |
| `RangeMap.RolledBackTo` | libibverbs-41mlnx1/src/memory.c:643-651 | after the second pass the ranges are the old ones if and only if the undo stopped where the first pass began |
| `RangeMap.NothingToRollBack` | libibverbs-41mlnx1/src/memory.c:647-649 | when no second pass is made the ranges are the old ones if and only if nothing below the refused bytes was changed |
| `Pages.EndOfLastPage` | libibverbs-41mlnx1/src/memory.c:596-597 | the end of the last page comes out right although the sum wraps around at the end of the address space |
| `Pages.PagesCovered` | libibverbs-41mlnx1/src/memory.c:595-597 | the rounded range is exactly the bytes on pages that the request touches |
| `ForkRange.ForkMap.constructor` | libibverbs-41mlnx1/src/memory.c:177-187 | one range without registrations, and a kernel that holds nothing |
| `ForkRange.ForkMap.SplitRange` | libibverbs-41mlnx1/src/memory.c:512-527 | the range is cut at the line, both parts with its count; a failed malloc changes nothing |
| `ForkRange.ForkMap.MergeRanges` | libibverbs-41mlnx1/src/memory.c:502-510 | the predecessor takes over end and count, the node leaves the tree |
| `ForkRange.ForkMap.GetStartNode` | libibverbs-41mlnx1/src/memory.c:529-543 | returns the range at which the loop may start, its invariant holding |
| `ForkRange.ForkMap.UndoNode` | libibverbs-41mlnx1/src/memory.c:549-576 | after a refused madvise the ranges are canonical again, exactly the addresses below the refused ones having their new counts |
| `ForkRange.ForkMap.Tell` | libibverbs-41mlnx1/src/memory.c:617-636 | every call of madvise is about bytes of the request, from its start on, whose count leaves or reaches zero, and gives the advice of the pass; afterwards the kernel agrees with the counts |
| `ForkRange.ForkMap.Sweep` | libibverbs-41mlnx1/src/memory.c:609-657 | the loop handles every range of the request once, in order, and terminates |
| `ForkRange.ForkMap.Join` | libibverbs-41mlnx1/src/memory.c:659-663 | the last merge makes the ranges canonical |
| `ForkRange.ForkMap.MadviseRange` | libibverbs-41mlnx1/src/memory.c:578-672 | success changes the count of an address by exactly one if its page is touched and not otherwise, keeps canonical ranges and a kernel that holds exactly the positive counts; after a refusal that could be undone the ranges are the old ones if and only if the byte below the refused ones is outside the call or had a count that did not come to equal theirs (for a registration -1, for a release 2); after one that could not, exactly the addresses between the two refusals have new counts; madvise is called only on bytes of the request whose count crossed zero; the calls that malloc and madvise refused decide how it ends: 0 exactly if none was, changes taken back exactly if madvise refused one and no malloc failed; after a failed malloc exactly one stretch of the request has new counts, and if that is empty, or ends the undoing, bytes below the request may be wrong by one; the kernel agrees outside the refused bytes |
| `ForkRange.AbandonedFirst` | libibverbs-41mlnx1/src/memory.c:604-615 | a malloc that fails in the first pass leaves new counts below a line, and only before the first change a merged range below the request, its count too low by the increment |
| `ForkRange.AbandonedSecond` | libibverbs-41mlnx1/src/memory.c:637-651 | a malloc that fails while changes are taken back leaves new counts above a line, and only before the first change a merged range below the request, its count too high by the increment |
| `ForkRuns.RunCounts` | libibverbs-41mlnx1/src/memory.c:578-692 | over every run of successful calls the count of an address changes by its registrations minus its releases, and the kernel holds it exactly while it is positive |
| `ForkRuns.RunsAgree` | libibverbs-41mlnx1/src/memory.c:578-692 | runs from the same ranges that register every address equally often end in the same ranges, whatever their order |
| `ForkRuns.BalancedRun` | libibverbs-41mlnx1/src/memory.c:181-187 | a balanced run ends with the ranges it began with, from the state of ibv_fork_init with an empty kernel set |
| `ForkRuns.PerformAll` | libibverbs-41mlnx1/src/memory.c:578-692 | a list of calls made on the tree, each rounded to its own page size: they all succeed exactly if no malloc fails and madvise refuses nothing, and then every count has changed by the balance of the list, and a balanced list restores the ranges |
| `ForkRuns.Perform` | libibverbs-41mlnx1/src/memory.c:674-692 | a call succeeds exactly if no malloc fails and madvise refuses nothing, and is then a step of a run |
| `ForkRuns.Register` | libibverbs-41mlnx1/src/memory.c:674-682 | a refused registration that could be undone leaves no trace if and only if the byte below the refused ones is outside the call or does not have the count -1, so always when nothing was released too often; it succeeds exactly if no malloc fails and madvise refuses nothing, and is undone exactly if madvise refuses one call and no malloc fails |
| `ForkRuns.Release` | libibverbs-41mlnx1/src/memory.c:684-692 | a refused release that could be undone leaves no trace if and only if the byte below the refused ones is outside the call or was not registered twice; success and undoing as for a registration |
| `ForkRuns.ReleasingMayLeaveTrace` | libibverbs-41mlnx1/src/memory.c:549-576 | three ranges on which a refused release leaves a merged range behind |
| `ForkRuns.ShortageMayCostNeighbour` | libibverbs-41mlnx1/src/memory.c:535-541 | two ranges on which a registration that fails for lack of memory takes the registration of the bytes below it away |
| `MprudSplit.Splitter.CutMessage` | libibverbs-41mlnx1/src/mprud.c:1421-1430 | pieces of MTU size and a final one of 1 to MTU bytes make up exactly the chunk of a path; the chunks leave over fewer bytes than there are paths; no pieces exactly if the message has fewer bytes than paths |
| `MprudSplit.Splitter.PostSend` | libibverbs-41mlnx1/src/mprud.c:1398-1549 | every path gets exactly its pieces, in order, whoever's turn it was, and other paths get nothing; ended early, by a recovery or an error, every path has got its share of the pieces so far, and the next turn is that of path 0 after a recovery, of the path that failed after an error, and else the same as before |
| `MprudSplit.Splitter.PostRecv` | libibverbs-41mlnx1/src/mprud.c:1570-1678 | every path gets exactly its buffers, in the same order, the final ones in the side buffer; ended early, as for sending |
| `MprudSplit.StartOver` | libibverbs-41mlnx1/src/mprud.c:1482-1488 | when a recovery reaches the two sides at any two steps of a message, the next message begins on path 0 on both |
| `MprudSplit.SendTiles` | libibverbs-41mlnx1/src/mprud.c:1423-1502 | a byte is in some piece if and only if it is among the first n * (size / n) bytes of the message |
| `MprudSplit.PiecesDisjoint` | libibverbs-41mlnx1/src/mprud.c:1476-1502 | no byte is in two pieces |
| `MprudSplit.PieceInside` | libibverbs-41mlnx1/src/mprud.c:1438-1502 | a piece lies in the chunk of its path, at its distance from the upper end |
| `MprudSplit.QueuesMatch` | libibverbs-41mlnx1/src/mprud.c:1598-1644 | over any list of messages the k-th packet on a path meets the k-th buffer of that path, of the same message and piece, with room for exactly GRH and payload, at the offset it was sent from |
| `MprudReceive.SideBufferIsApart` | libibverbs-41mlnx1/src/mprud.c:404-415 | a receive inside the region the application registered ends one GRH before the side buffer |
| `MprudReceive.Apart` | libibverbs-41mlnx1/src/mprud.c:1618-1644 | a buffer posted later does not touch the payload of one that has arrived |
| `MprudReceive.ArrivedStaysIntact` | libibverbs-41mlnx1/src/mprud.c:1618-1644 | as far as arrivals go, at every moment of every interleaving the payload of every piece that has arrived is intact |
| `MprudReceive.AllDelivered` | libibverbs-41mlnx1/src/mprud.c:1618-1644 | as far as arrivals go, after a complete run every byte outside the final pieces is at its offset behind the GRH |
| `MprudReceive.SeamSpoilt` | libibverbs-41mlnx1/src/mprud.c:1618-1644 | if final pieces are shorter than a GRH, a path that gets ahead of its upper neighbour overwrites bytes of its lower neighbour for good |
| `MprudReceive.InPlaceReceive` | libibverbs-41mlnx1/src/mprud.c:1579-1644 | the network's writes deliver the message in place on every interleaving if and only if there is one path, one piece per path, or room for a GRH in the final piece |
| `MprudCopy.HarmlessDelivers` | libibverbs-41mlnx1/src/mprud.c:1763-1840 | under the stated condition every interleaving of arrivals and copies delivers the bytes outside the final pieces |
| `MprudCopy.CopiesSpoil` | libibverbs-41mlnx1/src/mprud.c:1827-1834 | otherwise a complete run in which the copies come last loses such a byte |
| `MprudCopy.ReceiveWithCopies` | libibverbs-41mlnx1/src/mprud.c:1763-1840 | with the copies, every interleaving delivers the bytes outside the final pieces if and only if there is one path, one piece per path, or two paths and a copy that hits the final place exactly; for a GRH of two bytes or more only the first two are possible |
| `MprudCopy.FinalPiecesStayAside` | libibverbs-41mlnx1/src/mprud.c:1830-1834 | no byte of a final piece is ever anywhere but in the side buffer: the copy takes from elsewhere |
| `MprudComplete.Engine.StoreWr` | libibverbs-41mlnx1/src/mprud.c:1340-1376 | a request enters the free slot of the ring; all counters keep their meaning |
| `MprudComplete.Engine.PostPiece` | libibverbs-41mlnx1/src/mprud.c:1526-1545 | posting inside the window keeps the sum of the queues equal to what is outstanding |
| `MprudComplete.Engine.PostRequest` | libibverbs-41mlnx1/src/mprud.c:1398-1549 | posting a whole request, waits included: from room in the window to room in the window, never beyond it, every path having got all its pieces; the loop ends early only in a wait with a full window, and not if every queue with something outstanding reports when polled |
| `MprudComplete.Engine.Wait` | libibverbs-41mlnx1/src/mprud.c:1541-1544 | the wait polls until there is room; once around the paths is enough if what is outstanding reports |
| `MprudComplete.Engine.InnerPoll` | libibverbs-41mlnx1/src/mprud.c:1763-1854 | one completion moves the counters of the path whose turn it is, and of no other; the turn moves on exactly if something was outstanding; a server copies exactly when the path has completed its last piece of a request, to the place given by that request |
| `MprudComplete.Engine.TrackedStep` | libibverbs-41mlnx1/src/mprud.c:1816-1840 | a completion keeps every path at its place in its request and its index at the slot of that request, the next request coming up exactly at the end of one |
| `MprudComplete.Engine.OuterPoll` | libibverbs-41mlnx1/src/mprud.c:1682-1743 | the application gets a completion exactly if every piece of the oldest open request is completed on every path, so in posting order |
| `MprudComplete.Engine.PolledIsTempPlusRing` | libibverbs-41mlnx1/src/mprud.c:1692-1706 | in every reachable state the polled counter of a path is its progress plus the ring entries from the head to its request, on the sending side as long as no request without pieces has been reported |
| `MprudComplete.Engine.EmptyRequestStalls` | libibverbs-41mlnx1/src/mprud.c:1820-1840 | for any number of paths, any window and any ring of two or more slots, it fails as soon as the first empty request of a sender is reported and another request is stored: the index of every path stays at the empty slot, which is then the last one of the ring |
| `MprudComplete.Engine.QueuesInWindow` | libibverbs-41mlnx1/src/mprud.c:61-62 | the queues sum up to what is outstanding and none exceeds the window it was created for |
| `MprudComplete.Engine.NothingIsLost` | libibverbs-41mlnx1/src/mprud.c:1682-1743 | when all pieces are completed the oldest open request is reported |
| `MprudComplete.RingSumIs` | libibverbs-41mlnx1/src/mprud.c:1340-1376 | the entries of consecutive ring slots, with wrap-around, sum up to the pieces of consecutive requests |
| `MprudRecovery.Recovery.RecoverNext` | libibverbs-41mlnx1/src/mprud.c:773-800 | a request is cut down to the region of the failed path, of the lost request without the average length of its completed pieces, of every later one the whole chunk; the pieces posted carry exactly that region without its last length mod (n - 1) bytes, the paths taking turns; on the server the buffers have, behind the GRH, room for exactly the region without the tail of each chunk, and the last one of each path is its slot of the side buffer with room for that tail; nothing happens when all are posted |
| `MprudRecovery.Recovery.RecoverAll` | libibverbs-41mlnx1/src/mprud.c:773-800 | over a whole recovery every request from the first to the last is cut down so, all others stay, and the bytes sent again are exactly those of these regions, each without its tail |
| `MprudRecovery.RegionsCut` | libibverbs-41mlnx1/src/mprud.c:913-921 | the regions of the lost request that the lemmas compare are those that the posting steps of the two sides cut out |
| `MprudRecovery.Recovery.PostRecovery` | libibverbs-41mlnx1/src/mprud.c:1023-1125 | the pieces of the region are posted in turn order on the one report queue pair, on either side |
| `MprudRecovery.RegionCovers` | libibverbs-41mlnx1/src/mprud.c:782-793 | the recomputed region holds every unfinished byte, and nothing else if and only if nothing was completed or the MTU divides the chunk |
| `MprudRecovery.ResentIs` | libibverbs-41mlnx1/src/mprud.c:1029-1092 | the recovery pieces carry exactly the region without its last length mod (n - 1) bytes |
| `MprudRecovery.RecoveryComplete` | libibverbs-41mlnx1/src/mprud.c:782-793 | every unfinished byte is sent again if and only if that tail is no longer than the excess of the region |
| `MprudRecovery.ExactRegionComplete` | libibverbs-41mlnx1/src/mprud.c:1029-1038 | if the region is exact, every unfinished byte is sent again if and only if n - 1 divides it |
| `MprudRecovery.ResentOnce` | libibverbs-41mlnx1/src/mprud.c:1075-1092 | no byte is sent again twice |
| `MprudRecovery.RegionsAgree` | libibverbs-41mlnx1/src/mprud.c:913-921 | client and server cut out the same region if and only if the GRH in the receive length does not change the chunk size, or path 0 failed and both sizes leave equally much; the size changes if the GRH has at least n bytes, and if nothing was completed nothing else helps |
| `MprudRecovery.RecoveryMatches` | libibverbs-41mlnx1/src/mprud.c:684-705 | if the regions agree and the packets arrive in posting order, the k-th recovery packet fits the k-th recovery buffer and lands where it belongs, final pieces aside |
| `MprudReorder.RecoveryAnyOrder` | libibverbs-41mlnx1/src/mprud.c:1075-1123 | the packets go over all remaining paths to one queue pair: over all orders of arrival that are in order on each path, every recovery packet fits its buffer and, final pieces aside, lands where it belongs if and only if one path is left or every path has at most one piece |
| `MprudReorder.PathByPathMisses` | libibverbs-41mlnx1/src/mprud.c:1094-1096 | otherwise, if one path delivers everything before the next one starts, some packet misses its place |
| `MprudReorder.RecoveryIsRegion` | libibverbs-41mlnx1/src/mprud.c:684-705 | the packets that `RecoveryAnyOrder` speaks about are those of a recovery in which both sides have cut out the same region |
| `BitWords.MaskIsIdentity` | libmlx4-41mlnx1/src/bitmap.h:242 | masking with m - 1 leaves all smaller numbers alone if and only if m is a power of two |
| `BitWords.OrBit` | libmlx4-41mlnx1/src/bitmap.h:97-98 | a bit of the disjunction of two words is the disjunction of their bits |
| `BitWords.AndNotBit` | libmlx4-41mlnx1/src/bitmap.h:105-106 | a bit is left by the complemented mask exactly if it was set and is not in the mask |
| `BitWords.AndBit` | libmlx4-41mlnx1/src/bitmap.h:111-112 | a bit of the conjunction of two words is the conjunction of their bits |
| `BitWords.TestBit` | libmlx4-41mlnx1/src/bitmap.h:109-113 | the mask test reads exactly its bit |
| `Bitmap.Aligned` | libmlx4-41mlnx1/src/mlx4.h:633-636 | align returns the least multiple of a power of two that is not smaller |
| `Bitmap.SetBit` | libmlx4-41mlnx1/src/bitmap.h:94-101 | sets exactly its bit of the packed table |
| `Bitmap.ClearBit` | libmlx4-41mlnx1/src/bitmap.h:103-107 | clears exactly its bit |
| `Bitmap.FindFirstZeroBit` | libmlx4-41mlnx1/src/bitmap.h:115-137 | the search by words with its masked tail returns the first clear bit, or the size if all are set |
| `Bitmap.FindAlignedRange` | libmlx4-41mlnx1/src/bitmap.h:165-192 | the first aligned run of clear bits at or behind the start; none is skipped, and the search terminates |
| `Bitmap.BelowHint` | libmlx4-41mlnx1/src/bitmap.h:208-214 | below the hint nothing fits, so the search from zero finds nothing that the first search missed |
| `Bitmap.Allocator.constructor` | libmlx4-41mlnx1/src/bitmap.h:275-290 | an empty bitmap with all bits available, for any number of bits and any mask |
| `Bitmap.Allocator.Alloc` | libmlx4-41mlnx1/src/bitmap.h:139-163 | takes the lowest clear bit, and fails exactly if there is none; the number returned has the bits of top set |
| `Bitmap.Allocator.AllocRange` | libmlx4-41mlnx1/src/bitmap.h:194-235 | takes the lowest aligned run of clear bits, and fails, changing nothing, exactly if none exists; ranges handed out stay disjoint and the counter equals the number of clear bits; top changes exactly if nothing fits behind the hint; for a power of two of bits the number returned is the run |
| `Bitmap.Allocator.FreeRange` | libmlx4-41mlnx1/src/bitmap.h:237-251 | clears exactly the masked range, adds its length to the counter and keeps the hint below every clear bit; a range that was handed out leaves the books, all others staying |
| `Bitmap.BasesAreRuns` | libmlx4-41mlnx1/src/bitmap.h:211-226 | over all values that top can take, the numbers returned are the runs taken if and only if the number of bits is a power of two |
| `Bitmap.Reused` | libmlx4-41mlnx1/src/bitmap.h:194-251 | two allocations, one release and one allocation more on any bitmap: the number returned is that of the lowest set bit of the size where it should be 0, so it is right if and only if the number of bits is a power of two |
| `Bitmap.Allocator.IsEmpty` | libmlx4-41mlnx1/src/bitmap.h:253-262 | true exactly if no range is handed out |
| `Bitmap.Allocator.IsAvail` | libmlx4-41mlnx1/src/bitmap.h:264-273 | true exactly if some bit is clear |
| `Bitmap.BooksAlloc` | libmlx4-41mlnx1/src/bitmap.h:216-230 | a run of clear bits meets no range that is handed out, and setting it records one more |
| `Bitmap.BooksFree` | libmlx4-41mlnx1/src/bitmap.h:244-246 | a range that is handed out has all its bits set, and clearing them frees no other range |
| `Doorbell.DbPage.constructor` | libmlx4-41mlnx1/src/dbrec.c:65-79 | a new page has every record free and nothing in use |
| `Doorbell.DbPage.Take` | libmlx4-41mlnx1/src/dbrec.c:106-114 | the unbounded scan stays inside the page and takes the first free record; the counter stays the number of records in use |
| `Doorbell.DbPage.Release` | libmlx4-41mlnx1/src/dbrec.c:137-140 | exactly the given record becomes free; the counter stays the number of records in use if and only if the record was in use |
| `Doorbell.OneRecord` | libmlx4-41mlnx1/src/dbrec.c:131-138 | an address belongs to at most one record of one page |
| `Doorbell.Located` | libmlx4-41mlnx1/src/dbrec.c:130-138 | the page found by the upper bits of an address is its page, and the division gives its record |
| `Doorbell.DbContext.AddPage` | libmlx4-41mlnx1/src/dbrec.c:57-88 | a page apart from the others becomes the head of the list in both directions, or nothing changes |
| `Doorbell.DbContext.AllocDb` | libmlx4-41mlnx1/src/dbrec.c:90-120 | returns an address that was not in use and puts exactly that address to use: the lowest one of a page that is a multiple of the record size from its start, the whole record lying on that page; makes a page exactly if no page has a place left, and fails exactly if then there is no memory |
| `Doorbell.PlacedApart` | libmlx4-41mlnx1/src/dbrec.c:106-114 | two records placed on pages share no byte |
| `Doorbell.DbContext.Run` | libmlx4-41mlnx1/src/dbrec.c:90-154 | after any sequence of allocations and releases exactly the addresses returned and not given back are in use; their records lie on pages of the list and share no byte |
| `Doorbell.DbContext.FreeDb` | libmlx4-41mlnx1/src/dbrec.c:122-154 | an address on no page changes nothing; an address in use is exactly what goes out of use, and a page with nothing left in use leaves the list, both directions staying consistent; a record that is free already leaves the counter of its page one too low, so that the page goes while a record on it is still in use |
| `Doorbell.DbContext.Detach` | libmlx4-41mlnx1/src/dbrec.c:141-146 | unlinking page i gives the list without it, linked in both directions |
| `HugeBuf.MaskFitsSegment` | libmlx4-41mlnx1/src/buf.c:145-146 | the mask of a new segment works if and only if its number of 2 MB units is a power of two |
| `HugeBuf.Sizes` | libmlx4-41mlnx1/src/buf.c:125-126 | a rounded size is a positive number of chunks and fits into a new segment |
| `HugeBuf.RunGained` | libmlx4-41mlnx1/src/buf.c:84-109 | handing out a run of chunks puts exactly its addresses, all unused before and inside the segment, to use |
| `HugeBuf.BufsCover` | libmlx4-41mlnx1/src/buf.c:432-486 | an address is in use exactly if a buffer that is in use covers it |
| `HugeBuf.BufsApart` | libmlx4-41mlnx1/src/buf.c:432-486 | two buffers in use share no address, and each lies inside its segment |
| `HugeBuf.HugePages.AllocHuge` | libmlx4-41mlnx1/src/buf.c:432-496 | adds exactly the buffer returned to those in use; it lies inside its segment and none of its addresses was in use; it comes from the first segment of the list that has room, or else from the start of a new one of whole 2 MB units, no more than needed; it succeeds exactly if there is room or memory and ibv_dontfork_range succeeds, and a failure changes nothing in use; every segment on the list holds a buffer |
| `HugeBuf.HugePages.FreeHuge` | libmlx4-41mlnx1/src/buf.c:84-109 | for any buffer in use, whatever calls came in between: takes exactly that buffer out of use and removes the segment exactly if nothing of it is left in use |
| `HugeBuf.HugePages.Run` | libmlx4-41mlnx1/src/buf.c:432-496 | after any sequence of allocations and releases, releases in any order, the buffers in use are exactly those returned and not given back, an allocation for which ibv_dontfork_range fails returning none, and the addresses in use exactly those that these cover |
| `HugeBuf.HugePages.ReleaseAll` | libmlx4-41mlnx1/src/buf.c:104-107 | giving back everything in any order leaves no segment |
| `HugeBuf.SameSizeAgain` | libmlx4-41mlnx1/src/buf.c:125-146 | for every size whose buffer does not fill its segment: after a buffer, another one of one chunk and the release of the first, a buffer of the same size lies inside the segment and apart from the live chunk if and only if the segment has a power of two of chunks; for all other sizes it covers the live chunk |
| `HugeBuf.SixMegabytes` | libmlx4-41mlnx1/src/buf.c:129-146 | on a segment of 6 MB after two allocations and one release the third overlaps a live buffer and the fourth lies behind the segment |
| `HugeBuf.HugePages.AddSegment` | libmlx4-41mlnx1/src/buf.c:461-482 | a new segment joins the list, in front if it has room and at the end if not, its first chunks making the buffer |
| `RingPost.BurstIsFree` | libibverbs-41mlnx1/examples/intf.c:551 | a burst stays inside the sg array and meets no slot in flight |
| `RingPost.SendRecv` | libibverbs-41mlnx1/examples/intf.c:532-578 | no slot in flight is posted again and the ring is never overfilled; the entries of the sg array are posted in turn; a finished run has posted the messages rounded up to whole bursts; it fails exactly at the first poll that does; if none does and enough polls bring completions, however many bring none, it finishes, and with fewer messages than a burst it never does |

## Left out

- Locks: every locked function is one atomic step. `mm_mutex`, `db_list_mutex`, the bitmap spin locks and
  `hugetlb_lock` (which `mlx4_alloc_buf_huge` drops between its two halves) are not part of this model.
- ForkRange.ForkMap.MadviseRange: when `malloc` fails inside the call the source leaves its changes in place,
  so the ranges need not be canonical then; which counts are new or wrong is stated.
- ForkRange.ForkMap.MadviseRange: requires `base + size` to stay inside the address space, and counts are
  unbounded; releasing more often than registering is allowed and makes counts negative.
- ForkRuns.PerformAll: stops at the first call that fails, and leaves it to `MadviseRange` to say what that
  call has done.
- `ibv_fork_init` is modelled from the point where its probing has succeeded; `too_late`, `/proc/smaps`,
  `sysconf`, `getenv` and the choice of the page size (a parameter here) are not part of this model.
- Freed tree nodes and freed pages stay allocated in the model; nothing reads them again.
- MTU, GRH size, number of paths, table length and buffer sizes are parameters: the header that defines
  them is not part of this model. `INTEND_PATH_FAILURE`, `NO_SPLIT_SMALL_MSG`, timing, printing and the
  creation of queue pairs and address handles are left out.
- MprudSplit.Splitter.PostSend: has the pieces, and of the waits only that one may fail; the same loop with
  the polling in its waits, on the counters, is `MprudComplete.Engine.PostRequest`.
- MprudSplit.Splitter.PostRecv: likewise.
- MprudComplete.Engine.Wait: a poll takes one completion at most, and the offers (whether the queue that is
  polled reports) are a finite list.
- MprudComplete.Engine.PostPiece: requires room in the window, which `PostRequest` keeps; pieces may be posted
  in any order over the paths, and polls may happen at any moment. The ring must have a free slot when a request is
  stored and an open request at an outer poll; the source does not check either.
- MprudComplete.Engine.StoreWr: a receive request must give every path a piece, because the source divides
  by their number.
- MprudComplete.Engine.PolledIsTempPlusRing: on the sending side, says nothing after a request without pieces
  has been reported, because it is false as soon as the next request is stored (`EmptyRequestStalls`). The
  completions for the application do not depend on it.
- MprudCopy.ReceiveWithCopies: about one message at a time in one buffer.
- MprudRecovery.Recovery.RecoverNext: one failure, no wrap-around of table indices, no requests posted on
  only one side. Reports, acknowledgements and the monitoring of paths are left out.
- Bitmap.Allocator.constructor: requires at least one bit. Sizes are unbounded numbers, so sums that would
  pass 32 bits are not modelled; counts are positive and alignments powers of two.
- Bitmap.Allocator.FreeRange: the masked range must lie inside the bitmap; the source would write behind it.
- HugeBuf.HugePages.AllocHuge: if a new segment has to be made, requires it to have a power of two of chunks
  or to be filled by the buffer; for all other sizes the property is false
  (`HugeBuf.SameSizeAgain`). Segments come from an oracle that never overlaps live ones. The other allocation
  kinds of `buf.c` are left out. Whether `ibv_dontfork_range` succeeds is a parameter.
- HugeBuf.HugePages.FreeHuge: the call of `ibv_dofork_range` before it is left out.
- Doorbell.DbContext.FreeDb: the record that an address on a page falls into must exist; the source would read
  behind the free map. Nothing is said about calls after a record has been given back twice. Records per page
  are a positive multiple of 64.
- RingPost.SendRecv: completions come in order and at most one burst per poll; `qp_post` does not fail, and what
  it does with the hardware, the data check and the timing are left out. Polls are a finite list of offers, so every prefix
  of a run is covered, also of one that never ends.
- Kernel command marshalling, device discovery, sysfs, the other examples, perftest, `neigh.c` and
  `mprud_save.c` would add only easy members or need libraries that are not part of this model.

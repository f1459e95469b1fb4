# Valgrind core, modelled in Dafny

A model of eight components of Valgrind's core, with proofs. `dafny verify dfyconfig.toml` checks the whole project.
Code that changes state in place is modelled by classes, arrays and methods; each method is proved against a value-level
description of the state, and the properties are proved about that description.

- **Arena allocator** (`SizeClasses`, `ArenaState`, `ArenaWords`, `ArenaChecks`, `ArenaSteps`, `ArenaShapes`, `ArenaCounts`,
  `ArenaFacts`, `ArenaSane`, `MapSums`, `PowersOfTwo`, `Arena`, `ArenaLaws`, `ArenaRuns`, `ArenaWitnesses`). Memory is a map
  from addresses to words: size tags, links, redzones and client data really are stored in it. Ghost fields name the
  superblocks, the blocks that tile them, and the contents of the 112 rings. The prime result: in every run each step does to
  the client's blocks and words exactly what the request asks for, and as long as no aligned request wraps around, which a
  caller can see from the request, the allocator's own sanity check succeeds after every step if and only if no superblock
  is too long for its 32-bit index. `ArenaChecks` is that check as a function of the words in memory, whatever they are, and
  says what its verdict means; `ArenaLaws` has the sizes, alignments and orders in numbers.
- **AVL ordered set** (`AvlTrees`, `AvlHeap`, `AvlOrder`, `OSetStack`, `OSet`, `OSetDepth`). Insertion and removal change
  links and balances in place and refine functions on tree values. The iterator and the destructor use the fixed stack of
  32; it is proved exactly when that is enough.
- **Quicksort** (`SortOrder`, `QuickSort`). In-place, three-way, with both ways to hold the pivot.
- **Wildcard matcher** (`SeqMatch`). The loop is proved to decide membership in the language of the pattern, and five laws
  determine every answer on strings.
- **Redirection** (`RedirState`, `RedirCross`, `Redir`, `RedirRuns`, `RedirLaws`). The incremental tables against the full cross
  product of specs and symbols, and against the translations made under them; and, from the symbols of the objects to what
  is looked up and translated, what the tables mean. Patterns mean what `SeqMatch` says.
- **Signals** (`Signals`, `SignalRuns`). Client view, kernel view, the kernel's own table, and the threads' masks.
- **Stack-trace table** (`ExeChains`, `ExeContexts`). Hash chains in memory that are resized and reordered.
- **MPI datatype walker** (`MpiTypes`, `MpiWalk`, `MpiLaws`). The bytes visited against the type map of section 3.12 of MPI 1.1,
  which the identities of that section determine.

`Options` holds the one datatype that several of them share.

What the outside world does is a parameter: the address space manager's answers, which addresses look plausible, the kernel's
inherited settings, the MPI library's extents, and what memory holds beyond the end of a stored trace.
In results, a Boolean `ok` that is false stands for a failed assertion, a panic or an exit.

## Where the code does not do what one would want

- The size of a request is rounded up in SizeT arithmetic. Of the 7 largest requests, the very largest fails the assertion at
  `trunk/coregrind/m_mallocfree.c:1271`, and the other six become requests for 0 bytes (`ArenaFacts.HugeRequestWraps`). A block
  that `Arena.Arena.Malloc` delivers covers the request if and only if it is not among those.
- The size of the block that `arena_memalign` wants to split may wrap around. If the aligned block would then start behind
  the end of the one obtained, the code writes there and returns a pointer to a block that overlaps others; the assertions
  on that block pass (`Arena.Arena.Memalign`, `Arena.Arena.Overwrite`). After that the sanity check may fail although every
  superblock is short: `ArenaWitnesses.OverlappingBlocks` is such a run, of memalign(4096, 2^64 - 4128), malloc(4000) and a
  store of one word. So `ArenaRuns.Run` has an ending of its own for this, reached only by a request that wraps around
  (`ArenaRuns.WrapsRound`), after which no more is said.
- The sanity checker walks a superblock with a 32-bit index (`trunk/coregrind/m_mallocfree.c:931` and `:964`). On a 64-bit host a
  superblock of 2^32 payload bytes or more makes it walk into a payload or go on for ever (`ArenaWitnesses.BigSuperblock`). It comes
  out sane if and only if there is no such superblock (`Arena.Arena.SanityCheck`); a caller can see from the request whether
  it may lead to one (`ArenaRuns.Modest`).
- The comment at `trunk/coregrind/m_oset.c:105` says that 2**32 entries can be iterated over. The exact condition is that the
  left depth is at most 32 (for destruction, the height); it holds for every set of fewer than 9,227,464 elements, and
  `OSetDepth.TooDeep` builds sets of 9,227,464 for which it does not.
- The fix-up after the loop of `OSetGen_ResetIterAt` is never reached, and must not be: the loop has already pushed the right
  frames. The model has only the loop.
- A shadowed redirection is not revived when the one that shadowed it goes (`RedirRuns.ShadowedNotRevived`), so "Active is a pure
  function of Specs and SyminfoState" holds if and only if no address is bound in two ways, and the plausibility tests let
  all through (`RedirCross.LoadExact`).
- On unload, a binding from a preloaded spec to a symbol of the object is deleted only by the plausibility test; if it passes that
  test, its pointer to the object's entry dangles (`RedirCross.UnloadParents`, `RedirCross.UnloadExact`, and for a concrete
  run `RedirRuns.DanglingParent`).
- A client may set the internal kill signal, the last one, to its default action. If it is then pending for a thread that is not
  exiting, the assertion at `trunk/coregrind/m_signals.c:1367` fails (`SignalRuns.KillSignalUnexpected`); `SignalRuns.Run` says
  exactly which events make it fail.
- The table of stack traces compares only as many words as the new trace has, so a longer trace with the same hash may be taken
  for a shorter one, and a shorter one is read beyond its end. The result has exactly the given trace if and only if every
  stored trace of the chain that clashes with it stands behind it (`ExeContexts.ExeTable.Record`);
  `ExeContexts.SameTraceTwice` records one trace twice and gets two contexts.
- The contiguous fast path of the MPI walker is right if and only if the extent is the size, and the sizes in
  `sizeofOneNamedTy` are right on the platforms that `MpiWalk.Fits` lists. `MpiWalk.WalkType` says, for every type and every
  platform, exactly when the walk is right; `MpiWalk.WideCharacters` shows an array and a struct of 4-byte wide characters
  going wrong.

## Model

| member | source | states |
|---|---|---|
| `SizeClasses.ListNoExact` | trunk/coregrind/m_mallocfree.c:740-799 | a size is on list l exactly if it lies between the first size of l and that of l + 1, so the 112 lists partition the sizes |
| `SizeClasses.ListNoMonotone` | trunk/coregrind/m_mallocfree.c:740-799 | a larger payload never has a smaller list number |
| `SizeClasses.ListBoundsExact` | trunk/coregrind/m_mallocfree.c:827-835 | the interval between the list's minimum and maximum holds exactly the sizes that select the list |
| `SizeClasses.ComputeListMins` | trunk/coregrind/m_mallocfree.c:803-823 | the cache filled by searching upwards holds, for each list, the least size that selects it; every list number is attained |
| `PowersOfTwo.AlignUpwardsExact` | trunk/coregrind/m_mallocfree.c:644-649 | rounding up gives a multiple of the alignment that is not below the address and less than the alignment above it; it is a multiple of 8 if the alignment is |
| `Arena.Arena.FindSb` | trunk/coregrind/m_mallocfree.c:703-728 | the binary search ends, in bounds, at the superblock whose payload holds the block, and fails only if there is none, although max starts one too high and pos - 1 may wrap |
| `Arena.Arena.NewSuperblock` | trunk/coregrind/m_mallocfree.c:654-699 | a fresh region joins the arena as one block that fills it; bytes_mmaped stays the sum of the superblocks; live words are untouched |
| `Arena.Arena.AddToTable` | trunk/coregrind/m_mallocfree.c:1319-1351 | insertion by shifting keeps the table the address-ordered list of all superblocks, also when the table has to be enlarged, to twice its length and only if it is full |
| `ArenaSteps.GrowCore` | trunk/coregrind/m_mallocfree.c:654-699 | adding a superblock of one block keeps tiling, tags and lists |
| `ArenaSteps.CutCore` | trunk/coregrind/m_mallocfree.c:1371-1387 | cutting a block in two, each at least the overhead, keeps the tiling exact |
| `ArenaSteps.JoinCore` | trunk/coregrind/m_mallocfree.c:1479-1523 | joining two neighbours keeps the tiling exact |
| `Arena.Arena.MkInuseBlock` | trunk/coregrind/m_mallocfree.c:1206-1223 | the words written are exactly the two tags, the two links and, except in the client arena, the redzones; every arena invariant holds and the redzones are those that blockSane wants |
| `ArenaWords.PaintedSane` | trunk/coregrind/m_mallocfree.c:883-900 | redzones filled in as mkInuseBlock does, word by word from both ends, are what blockSane looks for; the fill byte depends on the address of the block |
| `ArenaFacts.RedzonesAfter` | trunk/coregrind/m_mallocfree.c:883-900 | an operation that keeps the words of live blocks and fills the redzones of the one it hands out leaves all redzones sane |
| `ArenaFacts.RedzonesStored` | trunk/coregrind/m_mallocfree.c:883-900 | no store of the client into a live payload changes a redzone |
| `Arena.Arena.MkFreeBlock` | trunk/coregrind/m_mallocfree.c:1177-1201 | the words and list heads written are exactly the tags and the links into the ring; the block joins the one list its payload size selects |
| `ArenaFacts.JoinRing` | trunk/coregrind/m_mallocfree.c:1189-1200 | the four link writes put the block between the last and the first of a well-formed ring, and touch no live word |
| `Arena.Arena.Swizzle` | trunk/coregrind/m_mallocfree.c:843-871 | the list is rotated so that its head is the lowest of the blocks up to five steps from the old head, both ways round the ring, and nothing else changes |
| `Arena.Arena.UnlinkBlock` | trunk/coregrind/m_mallocfree.c:1227-1244 | exactly the given block leaves its list, the ring closes behind it, and the words written are exactly the neighbours' links and its own |
| `ArenaState.UnlinkCore` | trunk/coregrind/m_mallocfree.c:1227-1244 | redirecting the two neighbours' links removes one block from a ring and leaves every other list as it is |
| `Arena.Arena.Scan` | trunk/coregrind/m_mallocfree.c:1298-1311 | the first block that is big enough, in the order of the ring, of the first list from the request's own upwards that has any; none exactly if no list has one |
| `ArenaFacts.NoneAnywhere` | trunk/coregrind/m_mallocfree.c:1298-1311 | if the scan finds none, no free block anywhere in the arena is big enough |
| `Arena.Arena.Carve` | trunk/coregrind/m_mallocfree.c:1360-1391 | the block taken from a free one is live and at least as large as asked, what is left over is a free block or stays in it, and no two free blocks meet |
| `Arena.Arena.Malloc` | trunk/coregrind/m_mallocfree.c:1259-1400 | given the grants, a block is delivered if and only if the request is not the largest SizeT and a superblock of whole pages could hold the rounded-up payload; the result is a new live block beside the old ones, aligned, with the rounded-up payload; without a new superblock it is the first fit; at most one superblock is added, and only if no free block was big enough; words of live blocks are kept; the block covers the request exactly if rounding up does not wrap; the peak of bytes on loan is the greater of the old one and the new total |
| `ArenaFacts.AlignExact` | trunk/coregrind/m_mallocfree.c:1253-1257 | rounding up covers the request exactly if it is not one of the 7 largest values of SizeT; for those the result is 0 |
| `ArenaFacts.LargestBlock` | trunk/coregrind/m_mallocfree.c:654-699 | since superblocks are made of whole pages, no block is larger than the address space less a page and a superblock header |
| `ArenaFacts.HugeRequestWraps` | trunk/coregrind/m_mallocfree.c:1253-1257 | a concrete 64-bit request that is rounded to a payload of 0 bytes |
| `ArenaLaws.LayoutIs` | trunk/coregrind/m_mallocfree.c:71-167 | two size words and two redzones around a payload; a superblock header of 16 or 24 bytes |
| `ArenaLaws.SuperblockBytesExact` | trunk/coregrind/m_mallocfree.c:654-699 | the fewest whole pages that hold the block and the header, but not less than the arena's minimum |
| `ArenaLaws.RoundedIs` | trunk/coregrind/m_mallocfree.c:1253-1257 | a request is rounded up to the next multiple of 8, and the 7 largest to 0 |
| `ArenaLaws.SmallListsExact` | trunk/coregrind/m_mallocfree.c:740-799 | below 512 bytes, list n has the payloads of 8 n bytes |
| `ArenaLaws.LargeListsExact` | trunk/coregrind/m_mallocfree.c:740-799 | the least payload, in bytes, of each of the other 48 lists |
| `ArenaLaws.SwizzledMeans` | trunk/coregrind/m_mallocfree.c:843-871 | by position in the ring: the new head is the lowest of the first six blocks and the last five, and the ring goes on from there |
| `ArenaLaws.TakenFirstMeans` | trunk/coregrind/m_mallocfree.c:1298-1311 | no block before the one taken has room for the request, rounded up to 8, with two size words and two redzones: none in its own list, and none in the lists between the request's and that |
| `ArenaLaws.FillIs` | trunk/coregrind/m_mallocfree.c:878-900 | the low byte of the address with the bits of 0x31 or of 0x7c flipped, in every byte of a redzone |
| `Arena.Arena.Coalesce` | trunk/coregrind/m_mallocfree.c:1479-1523 | two free neighbours become one free block on the list of the combined size |
| `Arena.Arena.Free` | trunk/coregrind/m_mallocfree.c:1429-1532 | exactly the freed block stops being live; with coalescing on both sides no two free blocks meet; a null pointer changes nothing; words of live blocks are kept |
| `Arena.Arena.SplitFront` | trunk/coregrind/m_mallocfree.c:1626-1644 | a live block becomes a free fragment on its list and a live block behind it |
| `Arena.Arena.Overwrite` | trunk/coregrind/m_mallocfree.c:1626-1655 | when the size of the aligned block has wrapped around, the words of the fragment and of that block are written over whatever is there, and the assertion on the payload size passes if and only if the wrapped size is enough |
| `ArenaWords.OverlapTags` | trunk/coregrind/m_mallocfree.c:1640-1649 | the tags of a block whose size has wrapped around agree, so that the assertions that read them pass |
| `Arena.Arena.AlignBase` | trunk/coregrind/m_mallocfree.c:1612-1661 | the fragment is always large enough to be a block, no two free blocks meet although nothing is coalesced, and bytes_on_loan is right again; with the asked room in the base block it always succeeds, it delivers no more than the base block has, and it writes outside and returns a pointer if and only if the aligned block would start behind the end and its wrapped size is enough |
| `Arena.Arena.Memalign` | trunk/coregrind/m_mallocfree.c:1567-1664 | given the grants, a new live block with an aligned payload of at least the rounded-up size is delivered if and only if the request is not the largest SizeT, the alignment is a power of two from 8 to 1048576, and a superblock of whole pages could hold the block to be split; the arena is valid again and words of live blocks are kept. It writes outside the block it obtained only if the size of that wraps around, and then if and only if the aligned block would start behind its end |
| `ArenaLaws.AlignableIs` | trunk/coregrind/m_mallocfree.c:1587-1589 | the alignments accepted are the powers of two from 2^3 to 2^20, and no others |
| `ArenaLaws.AlignedExactly` | trunk/coregrind/m_mallocfree.c:1567-1664 | in numbers, for every alignment and size: given the grants, a request is served if and only if the alignment is one of those 18 powers and the rounded payload, the alignment, the overheads of two blocks, a superblock header and a page fit into the address space; every other alignment ends in the panic |
| `ArenaLaws.ServeableIs` | trunk/coregrind/m_mallocfree.c:1567-1610 | the same condition, and that of an unaligned request, without the names that the methods use |
| `ArenaWitnesses.OverlappingBlocks` | trunk/coregrind/m_mallocfree.c:1600-1663 | a concrete 64-bit run of three requests: memalign(4096, 2^64 - 4128) returns an aligned pointer to a block that overlaps others, malloc(4000) reuses the fragment, and a store of one word into it makes the walk of the checker fail, which came out sane twice before |
| `Arena.Arena.CheckSuperblock` | trunk/coregrind/m_mallocfree.c:957-990 | on any memory, the walk is the function of the words that `ArenaChecks.Walk` defines: the verdict, the bytes on loan and the free blocks |
| `Arena.Arena.CheckLists` | trunk/coregrind/m_mallocfree.c:1001-1045 | on any memory, the walk round all rings is the function of the words and heads that `ArenaChecks.RingsFrom` defines: the verdict and the number of blocks counted |
| `Arena.Arena.SanityCheck` | trunk/coregrind/m_mallocfree.c:929-1051 | on any memory, the verdict is the one that `ArenaChecks.Checked` reads off the words; given as many steps as there are addresses, a valid arena is found sane if and only if every superblock has less than 2^32 payload bytes, and always on a 32-bit host |
| `ArenaChecks.WalkMeans` | trunk/coregrind/m_mallocfree.c:957-990 | if a walk is sane, on whatever memory, it has gone from index to index modulo 2^32, up to the exact end, over blocks whose two size words agree, that are large enough, whose redzones are intact, and of which no two in a row are free |
| `ArenaChecks.LongNeverSane` | trunk/coregrind/m_mallocfree.c:964-984 | no walk over 2^32 payload bytes or more is sane, on whatever memory, in however many steps |
| `ArenaChecks.WalkAllMeans` | trunk/coregrind/m_mallocfree.c:957-990 | if all walks are sane, so is that of each superblock, and each has less than 2^32 payload bytes |
| `ArenaChecks.RingMeans` | trunk/coregrind/m_mallocfree.c:1009-1038 | if a ring is sane, on whatever memory, its links lead there and back and end at the head, and every payload size is one of its list; the blocks counted are those |
| `ArenaChecks.RingsMean` | trunk/coregrind/m_mallocfree.c:1001-1045 | if all rings are sane, so is that of each list that is not empty |
| `ArenaChecks.CheckedMeans` | trunk/coregrind/m_mallocfree.c:929-1051 | the verdict is sane exactly if the table is in order, all walks and rings are sane, the bytes on loan agree with the counter, and the free blocks with those on the rings |
| `ArenaSane.WalkSane` | trunk/coregrind/m_mallocfree.c:957-990 | in a valid arena, the walk over a superblock of less than 2^32 payload bytes is sane and adds up its bytes on loan and its free blocks exactly |
| `ArenaSane.RingsAreSane` | trunk/coregrind/m_mallocfree.c:1001-1045 | in a valid arena every ring is sane, and together they have exactly the free blocks |
| `ArenaSane.DamageIsFound` | trunk/coregrind/m_mallocfree.c:883-900 | in a valid arena with redzones whose superblocks can be walked, after a store of any value into any word of any redzone of any live block, the check fails if the store has changed the word, and is sane if not |
| `Arena.Arena.PayloadSzB` | trunk/coregrind/m_mallocfree.c:1668-1673 | the payload size reported is that of the live block |
| `ArenaFacts.LivePayloadsApart` | trunk/coregrind/m_mallocfree.c:71-167 | live payloads lie inside superblocks and never overlap |
| `ArenaFacts.PayloadWrite` | trunk/coregrind/m_mallocfree.c:71-134 | a store into a live payload hits no tag, link or header |
| `ArenaFacts.InteriorWrite` | trunk/coregrind/m_mallocfree.c:71-134 | nor does a store into its redzones: only its two size words are part of the structure |
| `ArenaRuns.Run` | trunk/coregrind/m_mallocfree.c:1158-1166 | for every script and every answer of the address space manager, the moments of the run follow from one another by what each request does: which pointer is handed out, with what alignment and size, which block is let go, which word is stored, which superblock is added; in all of them the client's pointers are live and distinct and the words it wrote are there; the process exits only over a request that may end it, and the allocator writes outside only in a memalign that wraps around; a check fails, given enough steps, if and only if there is then a superblock of 2^32 payload bytes or more, hence never if every request is modest, nor on a 32-bit host |
| `ArenaRuns.IntactAfter` | trunk/coregrind/m_mallocfree.c:1259-1664 | whatever one request does by that description leaves the pointers held live and distinct and the words written in place |
| `ArenaRuns.GrantableExact` | trunk/coregrind/m_mallocfree.c:654-699 | the addresses that the address space manager may hand over, decided from the words of the table, are the fresh regions of the right size |
| `ArenaWitnesses.BigSuperblock` | trunk/coregrind/m_mallocfree.c:964-984 | a concrete run on a 64-bit host, one request for 5 GiB, after which the check never comes out sane |
| `PowersOfTwo.Log2` | trunk/coregrind/m_libcbase.c:689-697 | the exponent, exactly if the argument is one of the 32 powers of two; else -1 |
| `AvlTrees.GrownLeft` | trunk/coregrind/m_oset.c:400-415 | after the left subtree has grown, the rebalanced tree is balanced and is said to have grown exactly if it has |
| `AvlTrees.Insert` | trunk/coregrind/m_oset.c:388-459 | insertion keeps exact balance factors, its result is exactly "height grew", and when it is True the root was not rotated away, so that not storing the subtree's root is right |
| `AvlTrees.InsertOrdered` | trunk/coregrind/m_oset.c:388-459 | insertion keeps the search order and adds exactly one node |
| `AvlTrees.ShrunkLeft` | trunk/coregrind/m_oset.c:589-611 | after the left subtree has shrunk, the tree is balanced again and is said to have shrunk exactly if it has |
| `AvlTrees.Remove` | trunk/coregrind/m_oset.c:574-654 | removal keeps exact balance factors and its result is exactly "height shrank"; taking a node from the deeper side leaves the root in place |
| `AvlTrees.RemoveRoot` | trunk/coregrind/m_oset.c:658-691 | the same for removing the root; the mutual recursion with avl_remove ends |
| `AvlTrees.RemoveOrdered` | trunk/coregrind/m_oset.c:574-691 | removal keeps the search order and takes out exactly one node |
| `AvlHeap.Nasty` | trunk/coregrind/m_oset.c:221-237 | the balances of the two children follow from that of the node now on top, which gets 0 |
| `AvlHeap.NastyRightAt` | trunk/coregrind/m_oset.c:409-413 | two swings and avl_nasty, done in memory, give the doubly rotated tree |
| `AvlHeap.AvlInsert` | trunk/coregrind/m_oset.c:388-459 | it fails exactly if the key is there already; else the in-place insertion leaves in memory exactly the tree that Insert gives, with its result |
| `AvlHeap.AvlLookup` | trunk/coregrind/m_oset.c:500-529 | the node with the key, or null exactly if there is none |
| `AvlHeap.AvlRemove` | trunk/coregrind/m_oset.c:574-654 | the in-place removal leaves in memory exactly the tree that Remove gives, with its result |
| `AvlHeap.AvlRemoveRoot` | trunk/coregrind/m_oset.c:658-691 | the in-place removal of the root refines RemoveRoot; the copied links and balance of the stand-in are right |
| `OSet.OSet.Insert` | trunk/coregrind/m_oset.c:463-486 | it fails exactly if the key is there already, even as the same node; else the set of nodes gains exactly the new node, order, balance and count are kept, and the iterator is left exhausted |
| `OSet.OSet.Lookup` | trunk/coregrind/m_oset.c:532-538 | a node is found exactly if the key is there |
| `OSet.OSet.Contains` | trunk/coregrind/m_oset.c:556-559 | true exactly if the key is there |
| `OSet.OSet.Remove` | trunk/coregrind/m_oset.c:695-707 | exactly the node with the key leaves, and the iterator is exhausted; without such a node nothing changes, the iterator included |
| `OSet.OSet.StackPush` | trunk/coregrind/m_oset.c:253-260 | one frame is pushed, exactly if fewer than 32 are there |
| `OSet.OSet.StackPop` | trunk/coregrind/m_oset.c:263-278 | the top frame is popped |
| `OSet.OSet.ResetIter` | trunk/coregrind/m_oset.c:728-734 | the whole set, in order, is pending |
| `OSet.OSet.Next` | trunk/coregrind/m_oset.c:741-771 | the first pending node is returned and the rest stays pending; null forever after; the stack suffices as long as the need of what is pending is at most 32 |
| `OSet.OSet.ResetIterAt` | trunk/coregrind/m_oset.c:788-846 | exactly the nodes not less than the key, in order, are pending; the stack suffices if and only if the search path pushes at most 32 frames |
| `OSet.OSet.Iterate` | trunk/coregrind/m_oset.c:728-771 | reset and repeated Next yield exactly the nodes of the set, in strictly ascending order of their keys, and then null; the stack suffices if and only if the left depth of the tree is at most 32, and always below 9,227,464 elements |
| `OSet.OSet.IterateFrom` | trunk/coregrind/m_oset.c:788-846 | exactly the nodes of the set whose keys are not less than the given one, in strictly ascending order, and then null; the stack suffices if and only if the depth of the walk from the key on is at most 32, and always below 9,227,464 elements |
| `OSet.OSet.Destroy` | trunk/coregrind/m_oset.c:319-352 | exactly the nodes of the set are freed, each once, after the nodes that its links lead to, and not read afterwards; the count agrees; the stack suffices if and only if the height is at most 32, and always below 9,227,464 elements |
| `AvlOrder.OrderedAscending` | trunk/coregrind/m_oset.c:741-771 | search order makes the in-order sequence strictly ascending |
| `AvlOrder.FromIsSuffix` | trunk/coregrind/m_oset.c:784-787 | the nodes found on the path to a key are the end part of the order that starts at the first one not less than it |
| `AvlOrder.FromHas` | trunk/coregrind/m_oset.c:784-787 | they are exactly the nodes of the set with keys not less than it |
| `AvlOrder.SizeAtLeast` | trunk/coregrind/m_oset.c:105 | an AVL tree of height h has at least the Fibonacci-like number of nodes |
| `AvlOrder.HeightFits` | trunk/coregrind/m_oset.c:105 | with fewer than 9,227,464 elements neither height nor left depth exceeds 32 |
| `OSetDepth.InsertDeepest` | trunk/coregrind/m_oset.c:388-459 | putting back the deepest node of an AVL tree needs no rotation and gives the same tree |
| `OSetDepth.Fill` | trunk/coregrind/m_oset.c:463-486 | every AVL tree arises from the empty set by insertions alone |
| `OSetDepth.TooDeep` | trunk/coregrind/m_oset.c:105 | two sets of 9,227,464 elements, built by insertions: the one cannot be iterated over, the other cannot be destroyed |
| `QuickSort.Med3` | trunk/coregrind/m_libcbase.c:580-585 | the position of a median of three |
| `QuickSort.ChoosePivot` | trunk/coregrind/m_libcbase.c:616-627 | the middle of 7 elements; up to 40, the median of first, middle and last; beyond, the median of three medians of three elements an eighth apart |
| `QuickSort.InsertionSort` | trunk/coregrind/m_libcbase.c:610-615 | the range becomes a sorted rearrangement of itself |
| `QuickSort.Partition` | trunk/coregrind/m_libcbase.c:628-644 | the range ends up as equal, less, more, equal to the pivot, for a pivot used in place as well as for a copy, and at least one element is found equal |
| `QuickSort.VecSwap` | trunk/coregrind/m_libcbase.c:571-599 | two separate stretches trade places |
| `QuickSort.Gather` | trunk/coregrind/m_libcbase.c:645-647 | the equal elements come to the middle: less, equal, more |
| `QuickSort.Part` | trunk/coregrind/m_libcbase.c:616-654 | one round leaves all in order but for the insides of two parts that together lack at least one element |
| `QuickSort.QSort` | trunk/coregrind/m_libcbase.c:601-674 | the range becomes a sorted rearrangement of itself, nothing outside changes, and two to the depth of open calls is at most the number of elements |
| `QuickSort.Ssort` | trunk/coregrind/m_libcbase.c:701-705 | the array becomes a sorted permutation of itself, for every total preorder |
| `SortOrder.PartSorted` | trunk/coregrind/m_libcbase.c:648-673 | once one of two open parts is sorted, only the other is still open |
| `SeqMatch.GenericMatch` | trunk/coregrind/m_seqmatch.c:42-158 | it fails exactly if pattern or input have 1,000,000 elements or more; else the loop decides the recursive specification in the source's comment, never calls the literal comparer on a wildcard, and recurses no deeper than the number of stars |
| `SeqMatch.Sound` | trunk/coregrind/m_seqmatch.c:52-65 | whatever is accepted can be divided among the pattern elements |
| `SeqMatch.Complete` | trunk/coregrind/m_seqmatch.c:52-65 | whatever can be divided among the pattern elements is accepted |
| `SeqMatch.MatchAllIsMembership` | trunk/coregrind/m_seqmatch.c:42-158 | in match-all mode the answer is membership in the pattern's language |
| `SeqMatch.MatchPrefixIsMembership` | trunk/coregrind/m_seqmatch.c:42-158 | in prefix mode the answer is whether some prefix is in the language |
| `SeqMatch.StringMatch` | trunk/coregrind/m_seqmatch.c:164-180 | for strings of less than 1,000,000 characters, and only for them, an answer: true exactly if the string is in the language of the pattern, which the five laws below determine |
| `SeqMatch.StarMatches` | trunk/coregrind/m_seqmatch.c:164-180 | "*" matches every string |
| `SeqMatch.QueryMatches` | trunk/coregrind/m_seqmatch.c:164-180 | "?" matches exactly the strings of one character |
| `SeqMatch.LiteralMatches` | trunk/coregrind/m_seqmatch.c:164-180 | any other character, on its own, matches exactly itself |
| `SeqMatch.NothingMatches` | trunk/coregrind/m_seqmatch.c:164-180 | the empty pattern matches exactly the empty string |
| `SeqMatch.BothMatch` | trunk/coregrind/m_seqmatch.c:42-158 | a pattern in two parts matches exactly the strings that can be cut so that each part matches its side |
| `SeqMatch.PlainMatches` | trunk/coregrind/m_seqmatch.c:164-180 | a pattern without "*" and "?" matches exactly itself |
| `SeqMatch.PrefixIsStarred` | trunk/coregrind/m_seqmatch.c:42-65 | for every kind of element, matching a prefix is matching all of the input with a star at the end of the pattern |
| `RedirState.FirstWins` | trunk/coregrind/m_redir.c:597-651 | a bound address stays bound; else the first binding for a plausible address is taken and all others are ignored |
| `RedirState.AddAllKeepsCache` | trunk/coregrind/m_redir.c:636-650 | adding bindings leaves no translation behind that should now be redirected, nor one that runs on into redirected code |
| `RedirCross.CrossIs` | trunk/coregrind/m_redir.c:479-546 | the nested loops yield exactly the pairs of a spec and a text symbol that match, under the language of the patterns |
| `RedirCross.LoadComplete` | trunk/coregrind/m_redir.c:423-465 | the three cases are exactly what a new object adds to the full cross product |
| `RedirCross.LoadExact` | trunk/coregrind/m_redir.c:437-465 | loading keeps the active set equal to the full cross product plus hardwired bindings if and only if no address comes to be bound in two ways and no new binding is refused as implausible |
| `RedirCross.RestDerives` | trunk/coregrind/m_redir.c:693-756 | the cross product without an object is what has neither parent in it |
| `RedirCross.UnloadExact` | trunk/coregrind/m_redir.c:693-756 | the sweep keeps the active set exact if and only if untouched bindings look plausible and a binding of a preloaded spec to the object's symbol does not |
| `RedirCross.SweepKeepsCache` | trunk/coregrind/m_redir.c:720-737 | every translation made under a deleted binding is discarded |
| `RedirLaws.SweepIs` | trunk/coregrind/m_redir.c:693-737 | a binding goes exactly if both its parents are objects and one is the object unloaded, or if it has parents and an end that no longer looks plausible; a translation goes exactly if it has code at an end of such a binding |
| `RedirCross.LoadParents` | trunk/coregrind/m_redir.c:597-651 | with or without conflicts, after a load every binding's parents are entries that exist |
| `RedirCross.UnloadParents` | trunk/coregrind/m_redir.c:697-729 | after an unload a parent pointer dangles exactly if a preloaded spec had bound a symbol of the object and both ends still look plausible |
| `Redir.HarvestIs` | trunk/coregrind/m_redir.c:346-387 | the specs of an object are exactly those that its text symbols ask for, each with the patterns and the kind of the request and the address of the symbol |
| `RedirLaws.LaterFirst` | trunk/coregrind/m_redir.c:346-387 | of two symbols that ask, the spec of the later one comes first in the list |
| `Redir.Redirector.constructor` | trunk/coregrind/m_redir.c:846-949 | hardwired bindings have no parents, and no object is known yet |
| `Redir.Redirector.MaybeAddActive` | trunk/coregrind/m_redir.c:597-651 | one binding is added as AddOne says, with the two discards |
| `Redir.Redirector.GenerateAndAddActives` | trunk/coregrind/m_redir.c:480-592 | all matches are added in order; it fails exactly if names that are compared are too long for the matcher, or a mandatory spec for this object matches none of its symbols |
| `Redir.Redirector.NotifyNew` | trunk/coregrind/m_redir.c:318-469 | the object is entered in front, with all bindings it adds in order, exactly if it can be loaded; exactness is kept under the exact condition |
| `RedirLaws.LoadThenUse` | trunk/coregrind/m_redir.c:318-469 | from symbol to use: after a load without conflict, if a text symbol of the new object asks for a name, and a text symbol with that name, in that or another object, is at a plausible address not bound before, then a lookup of the latter gives the address of the former, as a wrapper exactly if that was asked for, and a translation made now starts there and has that kind |
| `RedirLaws.BoundAsAsked` | trunk/coregrind/m_redir.c:318-469 | after a load without conflict, every binding that the new object makes for a plausible unbound address is in force |
| `RedirLaws.DerivesMeans` | trunk/coregrind/m_redir.c:437-451 | the full cross product in terms of the symbols and specs themselves: which address is bound, to which, as what, and with which parents |
| `RedirLaws.LoadableMeans` | trunk/coregrind/m_redir.c:340-384 | an object can be loaded exactly if it is not there yet, its text symbols that ask are at plausible addresses, and every spec can be compared with every object it meets |
| `RedirLaws.FineIs` | trunk/coregrind/m_redir.c:480-592 | specs can be compared with an object exactly if the names that are compared have less than 1,000,000 characters and every mandatory spec for the object names one of its text symbols |
| `RedirLaws.Priority` | trunk/coregrind/m_redir.c:453-465 | when several bindings of a load are for one address: first the new specs on old objects, then old specs on the new object, then the new specs on the new object |
| `RedirLaws.FirstOfProduct` | trunk/coregrind/m_redir.c:480-546 | within a cross product, the first symbol at the address and the first spec that matches it win |
| `RedirLaws.FrontEntryFirst` | trunk/coregrind/m_redir.c:459-463 | among the old entries, the one nearest the front wins |
| `RedirLaws.LoadKeeps` | trunk/coregrind/m_redir.c:597-651 | adding bindings leaves bound addresses bound as they were, and every translation that has no code at an end of a new binding |
| `Redir.Redirector.NotifyDelete` | trunk/coregrind/m_redir.c:666-760 | the object's entry and the doomed bindings go, and with them their translations; exactness and live parents are kept under the exact conditions |
| `Redir.Redirector.DoLookup` | trunk/coregrind/m_redir.c:770-780 | the redirected address and kind, or the address itself; it fails exactly if the target is 0 |
| `RedirRuns.CacheAgrees` | trunk/coregrind/m_redir.c:766-780 | in every valid state, a cached translation has the target and kind that a lookup gives now |
| `RedirRuns.Run` | trunk/coregrind/m_redir.c:110-129 | no run of loads, unloads and translations leaves a stale translation; in an orderly run the active set stays exactly the full cross product |
| `RedirRuns.StartsExact` | trunk/coregrind/m_redir.c:846-949 | right after startup, with or without preloaded specs, the active set is exact |
| `RedirRuns.OrderlyUnload` | trunk/coregrind/m_redir.c:693-729 | if only code of objects at hand looks plausible, the sweep's condition holds |
| `RedirRuns.ShadowedNotRevived` | trunk/coregrind/m_redir.c:622-635 | a concrete run in which a shadowed binding is not revived by the unload of the one that shadowed it |
| `RedirRuns.DanglingParent` | trunk/coregrind/m_redir.c:697-729 | a concrete run after which a binding points to the entry of an object that is gone |
| `Redir.Redirector.Translate` | trunk/coregrind/m_translate.c:735-1305 | the cached translation starts at the redirected address and has the right kind; its extents are exactly the code there and the first pieces of code it runs on into, two at most and up to the first that is redirected; no other entry changes |
| `Signals.SignalState.CalculateSkss` | trunk/coregrind/m_signals.c:450-548 | the kernel view becomes the function of the client view that `SignalRuns.KernelIsTold` spells out, and the sanity checks hold |
| `SignalRuns.KernelIsTold` | trunk/coregrind/m_signals.c:441-548 | signal by signal: faults always reach the core; SIGCHLD, SIGCONT, SIGURG and SIGWINCH have the default action exactly if the client has it, are ignored exactly if the client ignores them, and else reach the core; the last signal has the kill handler; every other one is ignored if the client ignores it, and else reaches the core. The flags are exactly the two that the client may choose and the three that are always set; the mask is all signals but SIGKILL and SIGSTOP |
| `SignalRuns.TwoLeftAlone` | trunk/coregrind/m_signals.c:508-530 | SIGKILL and SIGSTOP have the default action in both views |
| `Signals.SignalState.HandleScssChange` | trunk/coregrind/m_signals.c:614-689 | a lazy update leaves the same state as a forced one, the kernel's dispositions equal SKSS for every usable signal but SIGKILL and SIGSTOP, and the cross-checks never fail |
| `Signals.SignalState.DoSysSigaction` | trunk/coregrind/m_signals.c:761-853 | refused exactly under the three error conditions; else exactly one entry changes, less SIGKILL and SIGSTOP in its mask, and the old entry is returned |
| `SignalRuns.Accepted` | trunk/coregrind/m_signals.c:761-853 | the requests accepted, by signal and action: queries and the default action for any usable signal, ignoring for any but SIGKILL and SIGSTOP, and a handler for any but those and the last |
| `Signals.SignalState.SetDefaultHandler` | trunk/coregrind/m_signals.c:2001-2013 | the entry becomes the default one |
| `Signals.SignalState.DoSysSigprocmask` | trunk/coregrind/m_signals.c:857-959 | the mask and the temporary mask become the combined set without SIGKILL and SIGSTOP, for this thread only |
| `SignalRuns.MaskAndRestore` | trunk/coregrind/m_signals.c:857-959 | signal by signal, what blocking, unblocking and setting leave blocked; and setting the mask that was returned brings back the one before |
| `Signals.SignalState.DeliverSignal` | trunk/coregrind/m_signals.c:1351-1421 | it fails exactly if the internal kill signal reaches a thread that is not exiting; that signal changes nothing; an ignored or defaulted signal has its default action; else the handler's frame, the one-shot reset and the new masks are exactly as stated |
| `Signals.SignalState.ForceFault` | trunk/coregrind/m_signals.c:1439-1454 | a blocked fault has its default action, after its handler is reset; one that is not blocked is delivered |
| `Signals.SignalState.Poll` | trunk/coregrind/m_signals.c:2048-2060 | an ignored signal is dropped, any other delivered; it fails exactly if the client does not ignore the internal kill signal and it is pending for a thread that is not exiting |
| `Signals.SignalState.constructor` | trunk/coregrind/m_signals.c:2069-2148 | from inherited settings that respect the kernel's rules, the state after startup is valid; the internal kill signal is ignored with a full mask |
| `SignalRuns.Run` | trunk/coregrind/m_signals.c:761-1421 | a run is exactly what the client's view makes of its events; an assertion fails if and only if the next event is one that fails in that view; SKSS and the kernel never differ from what the client view requires, and no thread ever blocks SIGKILL or SIGSTOP |
| `SignalRuns.KillSignalUnexpected` | trunk/coregrind/m_signals.c:779-786 | a concrete run of two events in which the assertion at line 1367 fails |
| `SignalRuns.KernelFollowsClient` | trunk/coregrind/m_signals.c:614-689 | two states with the same client view have told the kernel the same, however they were reached |
| `SignalRuns.CoreIsTold` | trunk/coregrind/m_signals.c:450-548 | the kernel ignores only what the client ignores, and faults always reach the core |
| `SignalRuns.SetAndRestore` | trunk/coregrind/m_signals.c:761-853 | setting an action and putting back the old one restores client view, kernel view and kernel |
| `SignalRuns.SetThenQuery` | trunk/coregrind/m_signals.c:761-853 | a query returns what was set, less SIGKILL and SIGSTOP in the mask |
| `SignalRuns.OneShotRunsOnce` | trunk/coregrind/m_signals.c:1400-1405 | delivered a second time, a one-shot signal has its default action |
| `SignalRuns.BlockedInHandler` | trunk/coregrind/m_signals.c:1407-1420 | in a handler exactly these are blocked: what the temporary mask had, the handler's mask, and its own signal; never SIGKILL or SIGSTOP |
| `SignalRuns.NotBlockedInHandler` | trunk/coregrind/m_signals.c:1407-1420 | a handler that asks for no masking runs with just the temporary mask |
| `ExeChains.CalcHash` | trunk/coregrind/m_execontext.c:240-250 | the loop computes the hash function |
| `ExeChains.HashIs` | trunk/coregrind/m_execontext.c:233-250 | one more word: exclusive or, then a rotation by 19 bits; an empty trace has hash 0 |
| `ExeChains.PutPlaced` | trunk/coregrind/m_execontext.c:415-416 | a context put in front of the chain its hash selects leaves every context in its chain, once |
| `ExeChains.Transpose` | trunk/coregrind/m_execontext.c:371-391 | moving a context up by one in memory exchanges two neighbours of its chain and nothing else |
| `ExeChains.ExchangedIs` | trunk/coregrind/m_execontext.c:371-391 | the chain after the exchange, piece by piece |
| `ExeContexts.MoveChain` | trunk/coregrind/m_execontext.c:274-284 | the contexts of an old chain are put in front of their new chains, one after the other |
| `ExeContexts.ExeTable.Resize` | trunk/coregrind/m_execontext.c:252-290 | the new chains are the old ones moved over in the order of the loop; under the next prime every context is in the chain its new hash selects, and none is lost or doubled |
| `ExeChains.MovedIs` | trunk/coregrind/m_execontext.c:274-284 | each new chain has the contexts whose new hash selects it, in the opposite of the order in which the old table had them |
| `ExeContexts.ExeTable.Record` | trunk/coregrind/m_execontext.c:329-426 | a context is made exactly if none in the chain compares equal, with four times its rank as its ECU and in front of its chain, and the table is resized exactly if it then holds more contexts than it has chains and there is another prime; else the first one that compares equal moves up by one at every eighth find; it fails exactly at the context after the last number; no two stored contexts have the same trace; the result has exactly the given trace if and only if every stored trace of the chain that clashes with it stands behind it |
| `ExeContexts.SameIs` | trunk/coregrind/m_execontext.c:353-361 | what compares equal to a trace is the trace itself, one that goes on after it, or a start of it with matching memory beyond its end |
| `ExeContexts.ClearIsExact` | trunk/coregrind/m_execontext.c:350-369 | the context that is found has exactly the trace if and only if no stored trace that clashes with it stands before it |
| `ExeContexts.SameTraceTwice` | trunk/coregrind/m_execontext.c:353-361 | a concrete run in which the same trace, recorded twice, gives two different contexts |
| `ExeContexts.ExeTable.FromEcu` | trunk/coregrind/m_execontext.c:457-470 | it fails exactly if the number is no plausible ECU; else the context with the number, or null exactly if it was never given out |
| `ExeContexts.ExeTable.EcuRoundTrip` | trunk/coregrind/m_execontext.c:447-470 | looking up a stored context's ECU gives that context; the ECU is a nonzero multiple of four |
| `ExeContexts.TraceOnce` | trunk/coregrind/m_execontext.c:222-226 | stored contexts are the same object exactly if they hold the same trace |
| `ExeContexts.EqExeContext` | trunk/coregrind/m_execontext.c:177-219 | true exactly if the traces are the same or have the same first two callers, or four; at full resolution, exactly if the pointers are; never with null |
| `ExeContexts.ExeTable.EqStored` | trunk/coregrind/m_execontext.c:207-212 | on stored contexts the answer is about the traces at every resolution: comparing pointers is comparing whole traces |
| `ExeContexts.CoarserIsWeaker` | trunk/coregrind/m_execontext.c:177-219 | traces alike in their first four callers are alike in their first two |
| `MpiWalk.WalkNamed` | trunk/auxprogs/libmpiwrap.c:636-688 | a known name has the bytes that it means visited, in order, if and only if the platform fits it; a name is reported exactly if it is not known |
| `MpiLaws.NamesVisited` | trunk/auxprogs/libmpiwrap.c:461-547 | the bytes visited for each name that is no struct: types of C by their size, all others by a constant |
| `MpiLaws.PairCalls` | trunk/auxprogs/libmpiwrap.c:649-680 | for each struct of a value and an int, the value at the start, and the int at the first multiple of its alignment that is not below the room of the value |
| `MpiLaws.PairsOnLp64` | trunk/auxprogs/libmpiwrap.c:649-680 | in numbers on a 64-bit Linux host: a SHORT_INT has its bytes 0 to 1 and 4 to 7 visited, and so on |
| `MpiLaws.FitOnLp64` | trunk/auxprogs/libmpiwrap.c:461-547 | on such a host the code is right about every name but wide characters |
| `MpiWalk.NamedExact` | trunk/auxprogs/libmpiwrap.c:461-547 | the sizes and offsets in the code agree with what a name means on the platform, in C, Fortran and the library's layout, if and only if the platform is one of those listed; only sizes, or the place of the int in a struct, can be wrong |
| `MpiWalk.SizesFit` | trunk/auxprogs/libmpiwrap.c:461-547 | the platforms, name by name, on which sizeofOneNamedTy gives the number of bytes meant |
| `MpiWalk.FastPathExact` | trunk/auxprogs/libmpiwrap.c:847-876 | one call visits what copies at the distance of the extent would, in the same order, if and only if the extent is the size or there are fewer than two elements |
| `MpiWalk.BehindStaysApart` | trunk/auxprogs/libmpiwrap.c:617-831 | once the bytes visited and those meant are of different number, no later part that starts at one address for both makes them equal again |
| `MpiWalk.TellsBoth` | trunk/auxprogs/libmpiwrap.c:617-831 | the bytes of two parts, one after the other, are those meant if and only if those of each part are |
| `MpiWalk.WalkTypeArray` | trunk/auxprogs/libmpiwrap.c:834-876 | the bytes visited are those of consecutive copies of the element's type map if and only if RightArray: on the fast path, if there is no element, or the platform fits the name and there is one, or the extent is the size; else if the walk over each element is right; for elements with a name, the calls themselves |
| `MpiWalk.WalkStrided` | trunk/auxprogs/libmpiwrap.c:728-752 | the loops for vectors visit the bytes of strided blocks if and only if the walk over each block does |
| `MpiWalk.WalkBlocks` | trunk/auxprogs/libmpiwrap.c:754-782 | the loops for indexed types visit the bytes of the displaced blocks if and only if the walk over each block does |
| `MpiWalk.WalkFields` | trunk/auxprogs/libmpiwrap.c:784-796 | the loop for structs visits the bytes of the displaced fields if and only if the walk over each field does |
| `MpiWalk.WalkType` | trunk/auxprogs/libmpiwrap.c:617-831 | for every type and platform, the sequence of bytes visited is that of the type map if and only if every name that is walked fits the platform and every array on the fast path has one element or the size as its extent: no mistake in one part makes up for a mistake in another; in strict mode it exits exactly if the walk comes to a part that is not handled |
| `MpiLaws.MeetsIs` | trunk/auxprogs/libmpiwrap.c:823-831 | the walk comes to a part that is not handled exactly if a name or a combiner that is not known is inside, under no loop that is empty |
| `MpiWalk.NaturalIsRight` | trunk/auxprogs/libmpiwrap.c:834-876 | if the names that occur in a type fit the platform, and small ones that are elements have their size as extent, the walk is right at every address |
| `MpiWalk.WideCharacters` | trunk/auxprogs/libmpiwrap.c:501-503 | where wide characters have 4 bytes, neither two of them nor a struct with two of them and two ints are visited as they should be, while a vector of ints is |
| `MpiTypes.ContiguousIsVector` | trunk/auxprogs/libmpiwrap.c:722-739 | a contiguous type has the type map of two vectors (section 3.12.1 of MPI 1.1) |
| `MpiTypes.VectorIsIndexed` | trunk/auxprogs/libmpiwrap.c:728-767 | a vector has the type map of an indexed type with equal blocks (section 3.12.1 of MPI 1.1) |
| `MpiLaws.NamesMeant` | trunk/auxprogs/libmpiwrap.c:461-547 | how many bytes each name that is no struct means, by the sizes of C and Fortran on the platform |
| `MpiLaws.PairsMeant` | trunk/auxprogs/libmpiwrap.c:649-680 | a struct of a value and an int means the bytes of the value, and those of an int where the library puts it |
| `MpiLaws.ContiguousMeans` | trunk/auxprogs/libmpiwrap.c:722-726 | a contiguous type means one item after another, each an extent further on |
| `MpiLaws.StructMeans` | trunk/auxprogs/libmpiwrap.c:784-796 | a struct means one field after another, each a contiguous type at its displacement |
| `MpiLaws.VectorIsHVector` | trunk/auxprogs/libmpiwrap.c:728-752 | a vector means an hvector with its stride in bytes (section 3.12.1 of MPI 1.1) |
| `MpiLaws.IndexedIsHIndexed` | trunk/auxprogs/libmpiwrap.c:754-782 | an indexed type means an hindexed one with its displacements in bytes (section 3.12.1 of MPI 1.1) |
| `MpiLaws.HIndexedIsStruct` | trunk/auxprogs/libmpiwrap.c:769-796 | an hindexed type means a struct of fields of one type (section 3.12.1 of MPI 1.1); with the laws above this determines the bytes of every type |

## Left out

- Heap profiling, junk filling and statistics of the allocator: they add words, not reasoning.
- Arena.Arena.MkInuseBlock: redzones are filled and looked at word by word, where the code does it byte by byte; all bytes of a redzone are the same, and redzones are whole words.
- Arena.Arena.AddToTable: the table of superblocks never gets 2^32 entries or more, because the address space manager is taken to refuse one of 32 GiB; its loops, which count in 32 bits, end.
- Arena.Arena.SanityCheck: a step count stands for a walk that may not end, and a parameter for words that are read where nothing is mapped; a size word of 0, two size words that differ, and a block in use smaller than the overhead fail assertions of the functions that read them, and count as a failed check.
- `arena_calloc`, `arena_realloc`, `arena_strdup` and `mallinfo`: built from the three modelled operations.
- Arena set-up (`ensure_mm_init`) and the choice among arenas: one arena with any redzone, word size and minimum superblock.
- The page size is 4096 and the payload granularity 8, as on the platforms of this version.
- ArenaRuns.Run: stops at a failed assertion or an exit of the allocator, such as running out of memory in a non-client arena, at the first check that does not come out sane, and when the allocator has written outside the block it was to split.
- ArenaWitnesses.OverlappingBlocks: the second request is served by the words of `ArenaWords.TakeHead`, since no invariant holds by then; of the sanity check, the walk over the superblock is followed.
- Arena.Arena.Memalign: when it writes outside the block it obtained, the words written are modelled, but not a fault on memory that is not mapped, nor an assertion about a block whose tags have just been overwritten.
- AVL keys: a comparator is represented by the integer rank of each key, which every total order on the finitely many keys of a run has.
- `OSetGen_LookupWithCmp`, node allocation and the padding and magic number of nodes.
- OSet.OSet.ResetIterAt: a set without a comparator, for which the code asserts false, is not modelled.
- QuickSort.QSort: elements are values, not runs of bytes; the word and byte loops of `bm_swapfunc` are one exchange of values, and the swap type is its only remaining effect, that the pivot is moved or copied.
- Redir: name demangling is a field of the symbol, the AIX glink test another; load notifiers, warnings and tracing are left out.
- Redir.Redirector.Translate: instrumentation, self-checks, the sectors and equivalence classes of the translation table, and address ranges that wrap around; a translation is its target, its kind and its code extents.
- The separate cache of translations made without redirection.
- Signals: stack frames, alternate stacks, what default actions do to the process, signal queues, sigreturn and sigsuspend; that a thread starts to exit is an event; the restorer field is that of platforms that have one, and signal numbers are those of Linux on x86.
- Signals.SignalState.Poll: which signal is pending is a parameter.
- ExeContexts: words have 64 bits; unwinding the stack and printing are left out, and so are the search counters.
- MpiWalk.WalkType: arithmetic on addresses is unbounded; freeing of datatype handles and the limit on complaints are left out; the sizes of C and Fortran types, what a store of a long double writes, and where the library puts the int of a struct of a value and an int are parameters; types that are not handled contribute no bytes; the extent of a name with a known size is positive, as the standard has it.
- MPI wrappers other than the walker, the launcher, debugger, error manager and syscall wrappers: calls into code that is not shown.

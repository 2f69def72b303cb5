# Buddy page allocator of the ucore teaching kernel, in Dafny

This project models the buddy-system physical page manager of the ucore
kernel labs (`buddy_pmm_manager`). The manager keeps a complete binary tree
over R = ROLLUP_POW2(nr_free) page frames in the array `cont_log2[]`:

- node 1 is the root, and node `i` has the children `2i` and `2i+1`;
- node `i` covers a block of `idx2nodesize(i)` pages starting at logical
  page `idx2lgppn(i)`;
- the value stored at node `i` depends on the step that last wrote it:
  - construction stores the number of registered pages that fall inside
    the block, packed from the left;
  - allocation stores 0 at the block it hands out (`USED`), and the larger
    value of the two children at each node above it;
  - free stores the merged sum at a node whose buddies are both wholly
    free, and the larger child value otherwise;
- a node holding its whole block size is wholly free (`NOT_USED`).

The model has the same layers as the C code:

- `BuddyIndex` (buddy_index.dfy) covers the index macros of `buddy_pmm.h`.
  These are the bit length `LM1`, `ROLLUP_POW2`, the child, parent and
  sibling links, node size and depth, the first index of a depth, the
  logical page of a node, and the frame-number conversions.
- `BuddyTree` (buddy_tree.dfy) covers the tree invariant, the layout of
  blocks, and the construction `do_init_alloctree`/`buddy_init_alloctree`.
  These are written as functions on the array contents (`seq<nat>`).
- `BuddyAlloc` (buddy_alloc.dfy) models the recursion of `do_alloc_pages`
  as a function, with its properties.
- `BuddyFree` (buddy_free.dfy) models the upward walk
  `do_free_pages_backwords` and the scan of `buddy_free_pages` as
  functions, with their properties.
- `BuddyRoundTrip` (buddy_roundtrip.dfy) proves that a free undoes the
  allocation it matches.
- `BuddyScenarios` (buddy_scenarios.dfy) covers concrete runs: the
  `basic_check` self-test and two runs where the quick match of
  `do_alloc_pages` hands out pages it should not.
- `BuddyPmm` (buddy_pmm.dfy) holds the class `BuddyPmmMeta`, the state of
  `struct buddy_pmm_meta`: the flag, the counters, the frame offset, and
  `cont_log2` as an `array<nat>`.
  - Its methods run the C steps in place on the array.
  - Each one is proved equal to the function of the layers above that
    follows the same recursion.
  - A page is given as its frame number, and NULL as `None`.

The tree invariant `TreeOk` has three parts:

- every node holds at most its block size;
- a child offers at least what its parent promises, up to half the block;
- a node recorded as wholly free has wholly free children.

It is not "each node holds the larger value of its children". Construction
stores free counts, so with 3 pages in a tree of 4 the root holds 3 and its
children hold 2 and 1. What `TreeOk` does guarantee is that the `assert(0)`
of `do_alloc_pages` is unreachable. Construction, allocation and free all
keep it.

The quick match of `do_alloc_pages` takes a node of the requested size
whose value is not 0. It does not check that the node is wholly free. The
model keeps this test as written. Two consequences follow:

- `QuickMatchOverlap`: on a fresh tree, `alloc(1)` then `alloc(R/2)` returns
  a block that contains the page handed out first.
- `PaddingHandedOut`: with F pages registered and F not a power of two,
  `alloc(F)` hands out the whole tree of R pages, including the R - F
  padding pages.

Under the hypothesis that the chosen node was wholly free,
`AllocDisjoint` proves that the block handed out overlaps no block still
allocated.

The lab4 copy of `buddy_pmm.c` is the same code as lab2's for
everything up to `do_free_pages_backwords`; only its logging differs. Lab4
also passes the rolled-up count to its report. The rows below cite lab2
except a few that cite the lab4 copy of the same code.

## Model

| member | source | states |
|---|---|---|
| BuddyIndex.LM1 | labcodes/lab3/kern/mm/buddy_pmm.h:13-19 | for u > 0 the result r is the position of the leftmost 1-bit: 2^(r-1) <= u < 2^r |
| BuddyIndex.RollupPow2 | labcodes/lab3/kern/mm/buddy_pmm.h:22-32 | ROLLUP_POW2(u) for u >= 1 is a power of two r with u <= r < 2u |
| BuddyIndex.RollupPow2Least | labcodes/lab3/kern/mm/buddy_pmm.h:22-32 | ROLLUP_POW2(u) is the least power of two not below u |
| BuddyIndex.RollupPow2Id | labcodes/lab3/kern/mm/buddy_pmm.h:22-32 | ROLLUP_POW2 leaves powers of two unchanged (in particular ROLLUP_POW2(1) == 1) |
| BuddyIndex.Left | labcodes/lab3/kern/mm/buddy_pmm.h:35 | LEFT(idx) is even and its PAR is idx |
| BuddyIndex.Right | labcodes/lab3/kern/mm/buddy_pmm.h:36-37 | RIGHT(idx) is odd, is LEFT(idx)+1, and its PAR is idx |
| BuddyIndex.Bro | labcodes/lab3/kern/mm/buddy_pmm.h:38 | BRO(idx) (idx ^ 1) is another node with the same parent |
| BuddyIndex.BroLinks | labcodes/lab3/kern/mm/buddy_pmm.h:35-38 | BRO swaps LEFT(i) and RIGHT(i) and is its own inverse |
| BuddyIndex.NodeSizeExp | labcodes/lab3/kern/mm/buddy_pmm.h:47-52 | idx2nodesize(idx) == 2^(max_depth - idx2depth(idx)) for every node of the tree |
| BuddyIndex.NodeSizeRoot | labcodes/lab3/kern/mm/buddy_pmm.h:34 | the head covers all R pages |
| BuddyIndex.NodeSizeChildren | labcodes/lab3/kern/mm/buddy_pmm.h:35-49 | both children of a non-leaf cover exactly half of its block, at least one page |
| BuddyIndex.NodeSizeIsPow2 | labcodes/lab3/kern/mm/buddy_pmm.h:49 | every node size is a power of two |
| BuddyIndex.InTreeFacts | labcodes/lab3/kern/mm/buddy_pmm.h:71 | a node in [1, 2R) is never out_of_range and covers at least one page |
| BuddyIndex.LastLayerIff | labcodes/lab3/kern/mm/buddy_pmm.h:70 | last_layer(idx) holds exactly for the nodes of size 1 |
| BuddyIndex.FirstLayerIff | labcodes/lab3/kern/mm/buddy_pmm.h:69 | first_layer(idx) holds exactly for the node of size R |
| BuddyIndex.FirstIndexOfSize | labcodes/lab3/kern/mm/buddy_pmm.h:51-55 | for a power of two s <= R, nodesize2fstidx(s) is a node index f >= 1 with 2f <= 2R at depth nodesize2depth(s) |
| BuddyIndex.SizeIffDepth | labcodes/lab3/kern/mm/buddy_pmm.h:47-54 | a node has size s exactly when its depth is nodesize2depth(s) |
| BuddyIndex.SizeIffRange | labcodes/lab3/kern/mm/buddy_pmm.h:51-55 | the nodes of size s are exactly [nodesize2fstidx(s), 2 * nodesize2fstidx(s)), the range `buddy_free_pages` scans |
| BuddyIndex.SizeToFirstIndex | labcodes/lab3/kern/mm/buddy_pmm.h:55 | nodesize2fstidx(s) itself has size s, and the nodes of size s form exactly that range |
| BuddyIndex.Idx2Lgppn | labcodes/lab3/kern/mm/buddy_pmm.h:61 | the block of every node lies inside [0, R) |
| BuddyIndex.LgppnOffset | labcodes/lab3/kern/mm/buddy_pmm.h:51-61 | idx2lgppn(idx) is the position of idx within its depth times the node size |
| BuddyIndex.LgppnAligned | labcodes/lab3/kern/mm/buddy_pmm.h:61 | a block starts at a multiple of its size |
| BuddyIndex.LgppnInjective | labcodes/lab3/kern/mm/buddy_pmm.h:61 | two nodes of the same size never start at the same logical page |
| BuddyIndex.LgppnChildren | labcodes/lab3/kern/mm/buddy_pmm.h:61 | the left child starts with its parent and the right child half a block later |
| BuddyIndex.LgppnRoot | labcodes/lab3/kern/mm/buddy_pmm.h:61 | the head starts at logical page 0 |
| BuddyIndex.Lgppn2Ppn | labcodes/lab3/kern/mm/buddy_pmm.h:62-67 | ppn2lgppn undoes lgppn2ppn |
| BuddyIndex.PpnRoundTrip | labcodes/lab3/kern/mm/buddy_pmm.h:62-67 | lgppn2ppn undoes ppn2lgppn for every frame at or above the offset |
| BuddyTree.AncestorBlock | labcodes/lab3/kern/mm/buddy_pmm.h:35-61 | the block of a node lies inside the block of each of its ancestors |
| BuddyTree.BlocksDisjoint | labcodes/lab3/kern/mm/buddy_pmm.h:35-61 | nodes neither of which is above the other have disjoint blocks |
| BuddyTree.SiblingsAdjacent | labcodes/lab3/kern/mm/buddy_pmm.h:35-61 | buddies have equal size and the left one ends where the right one starts |
| BuddyTree.SetNode | labcodes/lab2/kern/mm/buddy_pmm.c:90 | writing a value within bounds at a node breaks the invariant at most at that node and its parent |
| BuddyTree.SetMax | labcodes/lab2/kern/mm/buddy_pmm.c:102 | storing the larger child value at a node repairs it, leaving only its parent to repair |
| BuddyTree.FreeBelow | labcodes/lab3/kern/mm/buddy_pmm.h:41 | under a node that is NOT_USED in a consistent tree, every node is NOT_USED |
| BuddyTree.InitCallOk | labcodes/lab4/kern/mm/buddy_pmm.c:62-73 | `do_init_alloctree` on a node of the tree writes only inside an array of 2R cells |
| BuddyTree.ExpectedChildren | labcodes/lab2/kern/mm/buddy_pmm.c:60-66 | the packed values split as `do_init_alloctree` splits them: the left child takes min(nfree, half) and the right child the rest |
| BuddyTree.InitTreeSpec | labcodes/lab2/kern/mm/buddy_pmm.c:57-67 | a construction call whose values split like the packed layout writes exactly that layout on its subtree |
| BuddyTree.PackedOk | labcodes/lab2/kern/mm/buddy_pmm.c:57-67 | the packed layout satisfies the tree invariant |
| BuddyTree.InitRootSpec | labcodes/lab2/kern/mm/buddy_pmm.c:75 | construction from the root with F <= R free pages writes the packed layout on [1, 2R) and leaves every other cell alone |
| BuddyTree.BuildSpec | labcodes/lab2/kern/mm/buddy_pmm.c:69-81 | the tree built for F pages has R = ROLLUP_POW2(F), keeps the invariant, has F at the root, holds the free pages packed from the left, and changes nothing outside [1, 2R) |
| BuddyTree.BuildTree | labcodes/lab4/kern/mm/buddy_pmm.c:75-90 | the same facts, as the contract of the built tree |
| BuddyTree.BuildFull | labcodes/lab2/kern/mm/buddy_pmm.c:69-81 | registering a power of two of pages gives a tree with every node NOT_USED |
| BuddyAlloc.ChildFits | labcodes/lab2/kern/mm/buddy_pmm.c:88-110 | past the quick match and the early stop the node is a non-leaf and one of its children can serve the request, so `assert(0)` is unreachable |
| BuddyAlloc.Alloc | labcodes/lab4/kern/mm/buddy_pmm.c:92-121 | `do_alloc_pages(idx, n)` returns a page exactly when the quick match applies or the node holds at least n |
| BuddyAlloc.AllocFound | labcodes/lab2/kern/mm/buddy_pmm.c:83-112 | the block found lies below idx and has exactly n pages; its node was not 0 and is 0 afterwards; every node above it on the way down held at least n |
| BuddyAlloc.AllocPath | labcodes/lab2/kern/mm/buddy_pmm.c:100-109 | allocation changes only the nodes on the path down to the block found, and each of those above the block ends up holding the larger value of its children |
| BuddyAlloc.AllocOk | labcodes/lab2/kern/mm/buddy_pmm.c:83-112 | allocation keeps the tree invariant everywhere except at the parent of idx; from the root it keeps it outright |
| BuddyAlloc.AllocLeftFirst | labcodes/lab2/kern/mm/buddy_pmm.c:100-109 | the search goes right only where the left child cannot serve the request |
| BuddyAlloc.AllocQuick | labcodes/lab2/kern/mm/buddy_pmm.c:88-92 | a node of the requested size holding a non-zero value is taken at once, and only it is set to 0 |
| BuddyAlloc.AllocViaLeft | labcodes/lab2/kern/mm/buddy_pmm.c:100-104 | when the left child can serve the request, its answer is the answer |
| BuddyAlloc.AllocDisjoint | labcodes/lab2/kern/mm/buddy_pmm.c:83-112 | if the block found was wholly free, it is disjoint from every block still marked USED |
| BuddyAlloc.AllocKeepsUsed | labcodes/lab2/kern/mm/buddy_pmm.c:83-112 | while a node holds 0, an allocation from the root hands out no block below it and changes no cell of its subtree |
| BuddyFree.MergedBounds | labcodes/lab2/kern/mm/buddy_pmm.c:129-135 | the recomputed value stays within the block; it equals the block size exactly when both buddies are NOT_USED; it makes the node consistent with its children |
| BuddyFree.BackwardsFrame | labcodes/lab4/kern/mm/buddy_pmm.c:136-150 | the walk writes only the non-leaves on the way from idx up to the root |
| BuddyFree.BackwardsMerged | labcodes/lab2/kern/mm/buddy_pmm.c:125-139 | after the walk, each of those nodes holds the merge of its children as they finally are |
| BuddyFree.BackwardsOk | labcodes/lab2/kern/mm/buddy_pmm.c:125-139 | started where only idx and its parent may be inconsistent, the walk leaves the whole tree consistent |
| BuddyFree.Scan | labcodes/lab2/kern/mm/buddy_pmm.c:162-170 | the loop stops at the first USED node in the range that starts at the page, and reports none when no node in the range does |
| BuddyFree.FreeFound | labcodes/lab2/kern/mm/buddy_pmm.c:147-170 | a block is found only for non-NULL base and n >= 1, and it is a USED node of size ROLLUP_POW2(n) starting at base |
| BuddyFree.FreeNothing | labcodes/lab2/kern/mm/buddy_pmm.c:151 | freeing NULL or zero pages finds nothing and changes nothing |
| BuddyFree.FreeByScan | labcodes/lab2/kern/mm/buddy_pmm.c:154-170 | the free scans [nodesize2fstidx(ROLLUP_POW2(n)), twice that), stores n at the node found and walks up from it, and changes nothing when nothing is found |
| BuddyFree.FoundUnique | labcodes/lab2/kern/mm/buddy_pmm.c:162-170 | at most one node of a size starts at a page, so a matching node is the one the scan finds |
| BuddyFree.FoundNone | labcodes/lab2/kern/mm/buddy_pmm.c:172-173 | when no USED node of that size starts at the page, nothing is found (the "fails to free" case) |
| BuddyFree.FreeOk | labcodes/lab2/kern/mm/buddy_pmm.c:147-178 | free keeps the tree invariant |
| BuddyRoundTrip.WalkRestores | labcodes/lab2/kern/mm/buddy_pmm.c:125-139 | on a tree that differs from a wholly free tree only on the way up from k, the walk from k gives back the wholly free tree |
| BuddyRoundTrip.AllocFreeRoundTrip | labcodes/lab2/kern/mm/buddy_pmm.c:142-178 | on a wholly free tree, allocating ROLLUP_POW2(n) pages succeeds, and freeing n pages at the page returned gives back the original tree exactly |
| BuddyScenarios.AllocLeaf | labcodes/lab2/kern/mm/buddy_pmm.c:83-112 | a single-page allocation from a root that is not 0 takes a leaf that was not 0, keeps the invariant, and changes no other leaf |
| BuddyScenarios.HalfAlloc | labcodes/lab2/kern/mm/buddy_pmm.c:88-92 | a request for R/2 pages with node 2 not 0 is met by node 2 through the quick match |
| BuddyScenarios.QuickMatchOverlap | labcodes/lab2/kern/mm/buddy_pmm.c:88-92 | on a fresh tree of R >= 4 pages, alloc(1) then alloc(R/2) returns node 2, whose block contains the first page, still marked USED |
| BuddyScenarios.PaddingHandedOut | labcodes/lab2/kern/mm/buddy_pmm.c:69-92 | with F pages registered and F not a power of two, alloc(F) takes the root through the quick match: R > F pages from logical page 0 |
| BuddyScenarios.ThreeAllocs | labcodes/lab2/kern/mm/buddy_pmm.c:191-193 | three single-page allocations from a fresh tree all succeed, on three distinct leaves, all USED afterwards |
| BuddyScenarios.FreeLeaf | labcodes/lab2/kern/mm/buddy_pmm.c:147-178 | freeing one page at an allocated leaf finds that leaf and changes no other leaf |
| BuddyScenarios.LeavesApart | labcodes/lab3/kern/mm/buddy_pmm.h:61 | distinct leaves start at distinct logical pages |
| BuddyScenarios.BasicCheck | labcodes/lab2/kern/mm/buddy_pmm.c:185-199 | the self-test on a fresh tree: the three allocations succeed on distinct pages, and the frees of the second, the first and the third page each find their block |
| BuddyPmm.BuddyPmmMeta.constructor | labcodes/lab3/kern/mm/buddy_pmm.h:76-82 | the zero-initialised `pmm_meta`: flag clear, counters and offset 0, every cell 0 |
| BuddyPmm.BuddyPmmMeta.PmmInit | labcodes/lab2/kern/mm/buddy_pmm.c:32-38 | clears the counters and the flag and sets cont[0] to 0; no other cell changes |
| BuddyPmm.BuddyPmmMeta.InitMemmap | labcodes/lab2/kern/mm/buddy_pmm.c:40-54 | requires n > 0 and every page reserved; the offset becomes base and nr_free grows by n |
| BuddyPmm.BuddyPmmMeta.DoInitAllocTree | labcodes/lab2/kern/mm/buddy_pmm.c:56-67 | the array afterwards is the construction function applied to the array before |
| BuddyPmm.BuddyPmmMeta.InitAllocTree | labcodes/lab2/kern/mm/buddy_pmm.c:69-81 | sets the flag, stores R = ROLLUP_POW2(nr_free), and leaves the built tree in the array, so the invariant holds |
| BuddyPmm.BuddyPmmMeta.DoAlloc | labcodes/lab2/kern/mm/buddy_pmm.c:83-112 | the node returned and the new array are those of the allocation function from idx |
| BuddyPmm.BuddyPmmMeta.AllocPages | labcodes/lab2/kern/mm/buddy_pmm.c:115-123 | builds the tree on first use, allocates ROLLUP_POW2(n) pages from the head, returns the first frame of the block or None, keeps the invariant, and leaves nr_free alone |
| BuddyPmm.BuddyPmmMeta.DoFreeBackwards | labcodes/lab2/kern/mm/buddy_pmm.c:125-139 | the new array is the upward walk from idx applied to the old one |
| BuddyPmm.BuddyPmmMeta.FreePages | labcodes/lab2/kern/mm/buddy_pmm.c:147-178 | `found` and the new array are those of the free function at the logical page of base; the invariant is kept |
| BuddyPmm.BuddyPmmMeta.FreeBlock | labcodes/lab2/kern/mm/buddy_pmm.c:154-170 | for n >= 1, scans the nodes of size ROLLUP_POW2(n), stores n at the match and walks up; the result is that of the free function |
| BuddyPmm.BuddyPmmMeta.ScanNodes | labcodes/lab2/kern/mm/buddy_pmm.c:160-170 | the loop returns the first USED node in the range starting at the page, or None, as the scan function does |
| BuddyPmm.BuddyPmmMeta.NrFreePages | labcodes/lab2/kern/mm/buddy_pmm.c:180-183 | returns the registered count nr_free |
| BuddyPmm.BuddyPmmMeta.BasicCheck | labcodes/lab2/kern/mm/buddy_pmm.c:185-199 | on an unbuilt tree with BUDDY_NPG >= 32, the three allocations succeed on distinct frames and the three frees find their blocks; nr_free is left at 16 |
| BuddyPmm.BuddyPmmMeta.CheckWith | labcodes/lab2/kern/mm/buddy_pmm.c:185-199 | the same run for any power of two of claimed pages >= 4 |

## Left out

- Logging: `report`, `cprintf` and the lab4 logging macros print only, so they are not modelled.
- Page descriptors: the page array and `struct Page` are not modelled.
  - Pages are frame numbers, so `page2ppn` is the identity.
  - `PageReserved` is a ghost set of reserved frames that `InitMemmap` requires.
  - The clearing of `flags`, `property` and the reference count in `buddy_init_memmap` is left out, because it touches no state of the manager.
- The `buddy_pmm_manager` table, `buddy_pmm_check` and the `alloc_page`/`free_page` wrappers are not modelled separately. `BasicCheck` calls `AllocPages(1)` and `FreePages(p, 1)` directly, as those wrappers do.
- The `free_pages` body of lab4 stops inside its doc comment, so lab4 has no free function. Lab4's free is therefore not modelled; lab2's is.
- Fixed-width arithmetic: the counters are unbounded naturals. The model does not capture the 32-bit wrap of `nr_free` when `buddy_init_memmap` adds to it.
- BuddyIndex.RollupPow2: the macro computes `1 << LM1(u - 1)` on a 32-bit `int`. For 2^30 < u <= 2^31 that shift overflows a signed int, and for u > 2^31 it shifts by 32, which is undefined. The model returns the mathematical power of two in both cases, so `AllocPages` and `FreePages` with such an `n` give a defined answer where the C behaviour is not defined.
- BuddyIndex.Ppn2Lgppn: the unsigned underflow of `ppn - pnn_offset` for a frame below the offset is modelled as a negative integer. No node starts at a negative page, so such a free finds nothing. The source would compare against a wrapped value, which is also never a valid start page.
- BuddyIndex.LM1: the panic for 0 becomes a precondition, and so does the undefined ROLLUP_POW2(0).
  - `AllocPages` requires n >= 1.
  - Building the tree requires nr_free >= 1.
- BuddyPmm.BuddyPmmMeta.FreePages: requires ROLLUP_POW2(n) <= R for a non-NULL base and n >= 1. For larger n, `nodesize2depth` goes below 1 and the shift in `depth2fstidx` is undefined in C.
- BuddyPmm.BuddyPmmMeta.AllocPages: requires 2 * ROLLUP_POW2(nr_free) <= BUDDY_NPG before the tree is built.
  - This is what the `idx < BUDDY_NPG` assertions of `do_alloc_pages` and `do_free_pages_backwords` need for every node of the tree.
  - The source does not check it before building.
- BuddyPmm.BuddyPmmMeta.FreePages: the `assert(alloctree_init)` of the source is a precondition, and so are the `idx` range assertions of the recursive helpers.
- BUDDY_NPG (`KMEMSIZE / PGSIZE`) is the constructor parameter `npg`, because the memory size is a build setting.
- BuddyPmm.BuddyPmmMeta.BasicCheck: requires the tree not to be built yet, as it is when the kernel runs the check right after registering memory. The saved `nr_free_store` is never restored, in the source as in the model.
- BuddyPmm.BuddyPmmMeta.FreeBlock: the C loop stores `n` and walks up just before its `break`. The model scans first (`ScanNodes`) and then does the same update after the loop. No other step happens in between.
- BuddyPmm.BuddyPmmMeta.AllocPages: `nr_free` is not decreased by an allocation or increased by a free, in the source as in the model. `NrFreePages` therefore reports the registered count.
- BuddyAlloc.AllocDisjoint: states non-overlap only when the node taken was wholly free. The quick match as written does not ensure that; `QuickMatchOverlap` and `PaddingHandedOut` show the cases it misses.
- BuddyRoundTrip.AllocFreeRoundTrip: is stated for a tree that is wholly free before the allocation. Round trips from arbitrary trees are not claimed: a free restores the merge of buddies, while construction stores packed counts that are not merges.

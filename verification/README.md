# A verified model of liballocs' run-time indexes

liballocs keeps a model of everything allocated in a process: a tree of allocations, and several fast
indexes that must agree with simple definitions. This project models those indexes and the searches
over them in Dafny and proves that they do agree.

Verify everything with `dafny verify dfyconfig.toml`.

## The parts

**The bigalloc tree and the page index** (`src/pageindex.c`, `include/pageindex.h`). `Forests` is the
meaning: a forest of nested, disjoint address ranges, and for each page the deepest range that spans the
whole page. `ForestOps`, `ForestMoves`, `ForestRuns` and `ForestSweep` say what each operation does to the
forest and which pages it rewrites, and prove when the rewritten index is the recomputed one, for every
run of operations. `ForestExamples` holds forests on which some of the operations go wrong, and
`ForestChecks` says which of that a build with assertions notices. `Links` and `Table` relate the array of records, with its sibling links, to the forest. `BigallocTables` and the
modules named after it are the code: a class with the record array and the page-index array, whose
methods rewrite links and pages in place, and the lookups over it. The page size and the number of pages
are symbolic. The build modelled is the one without assertions; where the other one checks old page
entries or looks at the index afterwards, what it would find is stated beside.

**The type-layout search** (`include/liballocs.h`, `src/query.c`). `Layout` says what the parts of a type
are, as a flat relation between offsets and types. `SubobjectSearch`, `SubobjectTries` and `SubobjectWalk`
are the bisecting, backtracking searches, proved equal to that relation; `SubobjectMisses` says exactly
where they differ from it.

**The memory-range cache and the heap bitmap** (`include/liballocs_cil_inlines.h`, `src/cache.c`,
`include/generic_malloc_index.h`, `src/query.c`). `MemrangeCaches` is a list threaded through an array,
proved to be a move-to-front list. `HeapIndexes` is the bitmap with its hidden prefix, and the base query
with the cache in front of it.

**Traversals** (`src/walk.c`, `examples/emit-asm.c`, `src/uniqtype-bfs.c`, `include/uniqtype-bfs.h`).
`Walks` is the depth-first walk against a walk along the flat pre-order, `EndLabels` the queue of end
labels, `NodeQueues` and `Bfs` the breadth-first walk.

**Smaller refinements.** `DwarfMachine` is the segmented operand stack (`tools/dwarf-machine.hpp`), and
`Allocsites` the allocation-site ids (`src/allocsites.c`). `Pages`, `Lists`, `Paths` and `Options` are shared.

## Results that correct the expectation

Some things one expects of the code are not so. In each case the code is modelled as it is, and the exact
condition is proved.

- `extend` writes the extended node's number on pages from the old end on, without asking whether the
  node begins before the first of them. The index stays right if and only if the node begins at or below
  the old end rounded down, or no page is written (`ForestOps.ExtendAgreesIff`).
- The two truncations write the parent's number on every page they give up, including one the node
  only touched. The index stays right if and only if the parent spans that page, or no page is written
  (`ForestOps.TruncateEndAgreesIff`, `ForestOps.TruncateBeginAgreesIff`).
- `split` keeps the index right if and only if no page is spanned by the whole and by neither half
  (`ForestMoves.SplitAgreesIff`); a split at a page boundary always does.
- A build with assertions notices each of these when mappings are page-aligned. A wrong extension or split
  fails the check made afterwards, and a right one does not (`ForestChecks.ExtendSaneIff`,
  `ForestChecks.SplitSaneIff`). A wrong truncation fails the check of old entries
  (`ForestChecks.TruncateEndNoticed`, `ForestChecks.TruncateBeginNoticed`), but so do some right ones
  (`ForestChecks.TruncateEndPassesIff`, `ForestChecks.TruncateBeginPassesIff`).
- Deleting everything that overlaps a range steps over the range's last page when the range begins inside
  a page and its first non-empty page is the last; then nothing is deleted although something overlaps
  (`ForestSweep.SkipLosesTree`, `ForestExamples.DeleteRangeGoesWrong`). The contract of
  `BigallocRanges.DeleteAllOverlappingRange` says exactly when. It cannot happen when the range begins at a
  page boundary.
- `find_mapping_at_or_above` is right if and only if some mapping begins below the address or there is no
  mapping at all (`BigallocRanges.FindMappingAtOrAbove`, `ForestExamples.MappingAboveMissed`).
- The search for a subobject looks into one element, or into the members at one offset. A part is passed
  over when it ends an element or a member exactly where the one looked into begins, when it is in an array
  of elements without size, or when it is passed over further down; at every offset of every type the search
  is right if and only if nothing is passed over (`SubobjectMisses.ExactIff`). For a type that occupies space
  that never happens (`SubobjectMisses.ExactIffSized`).
- The offset that the search adds up is the one searched for, short of array elements, if and only if no
  failed branch added to it (`SubobjectTries.SumIsRightIff`, `SubobjectTries.CountedTwice`).
- The heap bitmap is grown to the end of the bytes requested. A chunk has a bit afterwards unless nothing
  was requested and the chunk begins at the edge of a word that the bitmap had not reached
  (`HeapIndexes.BitExistsIff`, `HeapIndexes.EmptyRequestMissed`).
- The recorded biggest chunk size leaves out the 8-byte trailer, so the cut of the bitmap could come 7
  bytes too high. Rounding to whole bitmap words makes up for it (`HeapIndexes.HiddenIsBelow`).
- A comment in the operand stack puts the word after the top at a lower index; the code goes up, and the
  model follows the code.
- Resolving an id undoes taking it if and only if the site's number has at most 16 bits
  (`Allocsites.IdUndone`, `Allocsites.LastSiteMistaken`).
- The guard on the number of files with sites lets through exactly one more than there are slots
  (`Allocsites.Spine.InitAllocsitesInfo`, `Allocsites.FullWithIdsLeft`).
- A table's length is kept in 16 bits. Its numbers run into the next table's, and some of its sites are not
  found by their addresses, if and only if it has 65536 sites or more (`Allocsites.TablesCollideIff`,
  `Allocsites.AddressUndone`).
- A breadth-first walk from a queue of objects blackens each reachable object once if and only if no object
  of the queue is in it twice or pointed to by one before it (`Bfs.OnceIff`, `Bfs.BlackenedTwice`).

## Model

| member | source | states |
|---|---|---|
| `Forests.DeepestIffLocally` | include/pageindex.h:10-24 | In a well-nested forest a node is the deepest one covering a stretch of addresses exactly when it covers it and none of its own children does |
| `Forests.DeepestUnique` | include/pageindex.h:10-24 | At most one number can be the deepest node covering a stretch, so the meaning of a page's entry is a function of the forest |
| `ForestRuns.RunAgrees` | src/pageindex.c:550-1119 | After any run of create, delete, extend, pre-extend, both truncations and split, each under its exact condition, every page's entry is the deepest node spanning the whole page, or 0 |
| `ForestRuns.EmptyAgrees` | src/pageindex.c:173-254 | An index of zeros is right for the empty forest, so runs have somewhere to begin |
| `ForestMoves.HasIndex` | include/pageindex.h:10-24 | Every well-nested forest has an index that is right for it |
| `ForestRuns.StepTopAligned` | src/pageindex.c:550-1119 | Operations whose arguments at the top level are page-aligned keep every top-level range page-aligned |
| `ForestRuns.RunTopAligned` | src/pageindex.c:550-1119 | After any run of such operations every top-level range is still page-aligned, which is what the lookups and the deletion of a range below ask for |
| `ForestOps.CreateAgrees` | src/pageindex.c:794-810 | Writing a new node's number from its beginning rounded up to its end rounded down restores agreement, and every page it overwrites held the parent's number |
| `ForestOps.ResizeAgreesIff` | src/pageindex.c:896-1054 | For any move of a node's ends, an index is right for the new forest exactly when each entry is the old one, the node's number on pages gained, and the parent's on pages lost |
| `ForestOps.ExtendAgreesIff` | src/pageindex.c:896-917 | The pages written by an extension leave the index right if and only if the node begins at or below its old end rounded down, or no page is written |
| `ForestOps.TruncateEndAgreesIff` | src/pageindex.c:1005-1033 | The pages written by a truncation at the end leave the index right if and only if the parent spans the lowest of them, or none is written; beginning at or below the new end rounded down is enough |
| `ForestOps.TruncateBeginAgreesIff` | src/pageindex.c:1035-1054 | The same at the beginning, for the highest page written |
| `ForestExamples.ExtendGoesWrong` | src/pageindex.c:896-917 | A forest, the index that is right for it, and an extension after which the index is wrong; the check of old entries lets it pass and the check afterwards does not |
| `ForestExamples.TruncateEndGoesWrong` | src/pageindex.c:1005-1033 | A forest, its index, and a truncation at the end after which the index is wrong; the check of old entries stops it |
| `ForestExamples.TruncateBeginGoesWrong` | src/pageindex.c:1035-1054 | The same for a truncation at the beginning |
| `ForestExamples.SplitGoesWrong` | src/pageindex.c:1056-1119 | A forest, its index, and a split inside a page after which the index is wrong; the check afterwards stops it |
| `ForestExamples.DeleteRangeGoesWrong` | src/pageindex.c:1259-1307 | A forest and a range for which the last page is stepped over although a mapping overlaps the range |
| `ForestExamples.MappingAboveMissed` | src/pageindex.c:865-879 | A forest and an address with mappings above and none beginning below, for which nothing is returned |
| `ForestChecks.CreatePasses` | src/pageindex.c:794-810 | Creation always gets past the check of old entries |
| `ForestChecks.DeletePasses` | src/pageindex.c:577-587 | So does deletion, once the children are gone |
| `ForestChecks.PreExtendPasses` | src/pageindex.c:950-984 | So does pre-extension |
| `ForestChecks.ExtendPassesIff` | src/pageindex.c:896-917 | An extension gets past it if and only if the index stays right, or the parent spans the first page written, or that page is empty |
| `ForestChecks.TruncateEndPassesIff` | src/pageindex.c:1005-1033 | A truncation at the end gets past it if and only if nothing is written, or the node begins at or below the new end rounded down, or the lowest page written is empty |
| `ForestChecks.TruncateBeginPassesIff` | src/pageindex.c:1035-1054 | The same at the beginning, for the highest page written |
| `ForestChecks.TruncateEndNoticed` | src/pageindex.c:1005-1033 | With page-aligned mappings, a truncation at the end that gets past it leaves the index right |
| `ForestChecks.TruncateBeginNoticed` | src/pageindex.c:1035-1054 | The same at the beginning |
| `ForestChecks.AgreeingIsSane` | src/pageindex.c:127-138 | With a right index, the pages just before a node's beginning and at its end do not carry its number |
| `ForestChecks.ExtendSaneIff` | src/pageindex.c:127-138 | After an extension that is so of the node extended if and only if the index is right |
| `ForestChecks.SplitSaneIff` | src/pageindex.c:127-138 | After a split it is so of the first half if and only if the index is right, and then of the second too |
| `ForestMoves.UnderTestIrrelevant` | src/pageindex.c:950-984 | The test whether a child already spans the first page never changes which pages a pre-extension writes |
| `ForestMoves.PreExtendAgrees` | src/pageindex.c:950-984 | A pre-extension that fits under its parent and beside its siblings keeps the forest well-nested and the index right |
| `ForestMoves.PreExtendUpWellNested` | src/pageindex.c:937-948 | Pre-extending a node and as many ancestors as needed leaves every ancestor containing its child and siblings apart |
| `ForestMoves.PreExtendUpFrame` | src/pageindex.c:937-948 | It moves only beginnings, only downwards, of nodes on the chain from the node up and of no other node, and moves the node's to where it was asked |
| `ForestMoves.PreExtendUpCascades` | src/pageindex.c:937-948 | Where every ancestor ends up: going up the chain each is asked for the nearest multiple of its own allocator's unit at or below what was asked of the child, and begins there or where it did, whichever is lower; nothing else changes |
| `ForestMoves.SplitAgreesIff` | src/pageindex.c:1056-1119 | Look-and-replace over the upper half's pages leaves the index right if and only if no page is spanned by the whole and by neither half |
| `BigallocSplitting.SplitPartition` | src/pageindex.c:1056-1119 | The halves are adjacent, cover the old range and are otherwise as the whole was; the children that begin at or above the split point go to the second, the others stay, and nothing else changes |
| `ForestMoves.DeleteAgrees` | src/pageindex.c:550-591 | Handing every page that a subtree owned to the root's parent is exactly right for the forest without the subtree |
| `BigallocTables.BigallocTable.FindFree` | src/pageindex.c:450-462 | The lowest free record, or 0 exactly when all are in use |
| `BigallocTables.BigallocTable.MemsetBigalloc` | src/pageindex.c:173-254 | Unrolled writes set exactly the given pages; the check of old entries succeeds if and only if every entry it looks at is empty or the one expected, all of them or, when 0 is expected, only those written singly |
| `ForestOps.PassesMeans` | src/pageindex.c:173-254 | Which entries are looked at, by number: all of them, or when 0 is expected the first if its number is odd and the last if the number after it is |
| `BigallocTables.BigallocTable.AddChild` | src/pageindex.c:500-515 | The child is put in front of its parent's list; all lists stay doubly linked and duplicate-free |
| `BigallocTables.BigallocTable.UnlinkChild` | src/pageindex.c:517-539 | The child is taken out of its parent's list wherever it stands; all lists stay doubly linked |
| `BigallocTables.BigallocTable.FindToplevelLowestGe` | src/pageindex.c:812-837 | Searching both ways from any starting record finds the first mapping that ends above the address |
| `BigallocTables.BigallocTable.FindToplevelHighestLt` | src/pageindex.c:838-851 | Searching both ways from any starting record finds the last mapping that begins below the address |
| `BigallocTables.BigallocTable.AddToplevel` | src/pageindex.c:852-859 | The record is linked in at its place in the address-ordered list, and every link is right afterwards |
| `BigallocTables.BigallocTable.UnlinkToplevel` | src/pageindex.c:860-864 | The record is unlinked from the address-ordered list, and every link is right afterwards |
| `BigallocTables.BigallocTable.Init` | src/pageindex.c:752-810 | The forest gains exactly the new node, under the right parent or at the top, and the index agrees with it |
| `BigallocTables.BigallocTable.New` | src/pageindex.c:742-750 | A new node is made exactly when a record is free, with the range, the parent and the allocators asked for and one level below its parent; with none free nothing changes |
| `BigallocTables.BigallocTable.Boot` | src/dlmalloc-ext.c:63-99 | The first mapping becomes the whole forest, and is the one that searches of the address-ordered list start from |
| `BigallocTables.BigallocTable.DelChildren` | src/pageindex.c:550-575 | Everything below a node is deleted and nothing else; lists outside the subtree are as they were |
| `BigallocTables.BigallocTable.Del` | src/pageindex.c:550-591 | Deletion removes exactly the subtree, ends by subtree size, leaves every other list in order with only the root taken out of its own, and keeps the index right |
| `BigallocResizing.Extend` | src/pageindex.c:896-917 | The forest is the one with the end moved, the pages written are those of the patch, and the table is valid afterwards if and only if the condition holds; also returned is whether the check of old entries is passed |
| `BigallocResizing.TruncateAtEnd` | src/pageindex.c:1005-1033 | The same for truncation at the end |
| `BigallocResizing.TruncateAtBeginning` | src/pageindex.c:1035-1054 | The same for truncation at the beginning |
| `BigallocResizing.AdjustEnd` | src/pageindex.c:986-1003 | The end is moved up, down or not at all, valid afterwards exactly under the condition of the branch taken |
| `BigallocResizing.IsOneOrMoreLevelsUnder` | src/pageindex.c:919-935 | The recursive test over child links decides whether a node lies strictly below another |
| `BigallocResizing.PreExtend` | src/pageindex.c:950-984 | The beginning becomes the lower of the old and the new one, nothing else of the forest changes, and the table stays valid |
| `BigallocResizing.PreExtendRecursive` | src/pageindex.c:937-948 | The ancestors are moved first, each to the unit of its own allocator at or below what its child was asked for, unless it began lower already; no other node moves, and the table stays valid throughout |
| `BigallocSplitting.Split` | src/pageindex.c:1056-1119 | Children are moved by relinking, the forest is the split one, and the table is valid afterwards if and only if the condition holds; with no free record nothing changes |
| `BigallocLookups.GetBigallocContaining` | include/pageindex.h:135-144 | The entry of an address's page is the deepest node spanning the page; a zero entry means no node contains the address when top-level ranges are page-aligned |
| `BigallocLookups.FindDeepest` | src/pageindex.c:1212-1242 | Descending from the page's entry reaches the deepest node containing the address in the whole forest |
| `BigallocLookups.LeafAllocatorFor` | include/pageindex.h:166-237 | The inline loop reaches that same deepest node, and answers with its suballocator if it has one and with the allocator that made it if not; with no entry for the page there is no node and the answer is 0 |
| `BigallocLookups.LeafIsFound` | include/pageindex.h:166-237 | Searching by the allocator so answered, among suballocators or among makers as the answer was, finds a node around the address with that same allocator, at or above the deepest |
| `BigallocLookups.FindBigallocRecursive` | src/pageindex.c:1124-1194 | Below a node, the shallowest node containing the address whose suballocator, or whose maker, is the given allocator |
| `BigallocLookups.FindBigallocFromRoot` | src/pageindex.c:1124-1204 | Searching down from the mapping that contains the address gives the shallowest such node in the whole forest, and its suballocator or its maker is the given allocator; when nothing is found no node around the address has it |
| `BigallocLookups.FindBigallocUnderPageindex` | src/pageindex.c:1195-1200 | The same search, starting at the page's entry |
| `BigallocLookups.LookupTopLevel` | src/pageindex.c:1368-1383 | The mapping that contains the address, or nothing when none does |
| `ForestRuns.DescentEnds` | src/pageindex.c:1212-1242 | A node that contains an address, none of whose children does, is the deepest in the whole forest |
| `ForestRuns.SearchFromRoot` | src/pageindex.c:1201-1204 | The shallowest match below the containing mapping is the shallowest match anywhere |
| `BigallocRanges.FindMappingAtOrAbove` | src/pageindex.c:865-879 | The result is the true lowest mapping at or above the address if and only if some mapping begins below the address or there is none; when none begins below, nothing is returned |
| `BigallocRanges.FindMappingBelow` | src/pageindex.c:880-895 | The true highest mapping entirely below the address, for every address |
| `BigallocRanges.NewBigalloc` | src/pageindex.c:645-736 | A new node goes under the parent the caller names, or else under the deepest node that contains both of its ends, and none is made when the ends have different deepest nodes, when it would be a top-level range that is not page-aligned, or when no record is free |
| `BigallocRanges.DeleteBigallocAt` | src/pageindex.c:1244-1257 | Deletes exactly the subtree of the shallowest node of the given allocator containing the address, if there is one |
| `BigallocRanges.DeleteAllOverlappingRange` | src/pageindex.c:1259-1307 | Deletes exactly the trees whose root overlaps the range, ends, and keeps the index right, unless the last page is stepped over, when nothing is deleted |
| `ForestSweep.SkipLosesTree` | src/pageindex.c:1259-1307 | Whenever the last page is stepped over there was a tree to delete; so the deletion is right exactly when the page is not stepped over |
| `BigallocRanges.SweptRange` | src/pageindex.c:1259-1307 | For a range that begins at a page boundary, no page of the range has a non-zero entry afterwards |
| `Layout.PartInside` | include/liballocs.h:431-592 | In a well-laid-out type every part lies inside the whole |
| `Layout.ElementsTile` | include/liballocs.h:336-356 | The elements of an array cover its extent and nothing else |
| `SubobjectSearch.BisectMembers` | include/liballocs.h:431-517 | Bisection and the step back find the first member at the largest offset not above the target, or that there is none |
| `SubobjectSearch.FirstSubobjectSpanning` | include/liballocs.h:431-517 | The part stepped into is the element or the first candidate member at the target; nothing is returned only when there is no step |
| `SubobjectSearch.SearchIsSound` | include/liballocs.h:519-592 | Whatever the search settles on is a part of the type at the target offset, in the flat sense |
| `SubobjectSearch.SearchIsComplete` | include/liballocs.h:519-592 | Every part that occupies space is found, although only one offset is followed at each level |
| `SubobjectSearch.SearchIsExact` | include/liballocs.h:519-592 | A search for a type that occupies space succeeds if and only if the flat set of parts has that type at that offset |
| `SubobjectSearch.UntypedSearchIsExact` | include/liballocs.h:519-592 | A search without a type succeeds if and only if some part begins at the offset, when all parts occupy space |
| `SubobjectMisses.ZeroSizedMissed` | include/liballocs.h:519-592 | Every type of size zero is a part of some well-laid-out type in which it is not found |
| `SubobjectMisses.ExactIffSized` | include/liballocs.h:519-592 | The search for a type is exact in every well-laid-out type and at every offset if and only if the type occupies space |
| `SubobjectMisses.ExactIff` | include/liballocs.h:519-592 | For every type, every offset and every type searched for or none, the search is exact if and only if nothing is passed over, a condition that can be evaluated on the layout |
| `SubobjectMisses.BeginsIff` | include/liballocs.h:519-592 | What that condition is made of, a recursive test for something beginning at an offset, is the flat relation |
| `SubobjectMisses.ArrayEndMissed` | include/liballocs.h:519-592 | An array of structs that end in a zero-length array, of any length, has a part at its end that is not found |
| `SubobjectTries.FindMatchingSubobject` | include/liballocs.h:519-592 | The code decides exactly that search, and the part it names is one the search succeeds in, number 0 for an array; the last candidate and the offset added up that it reports are those of the account of everything tried |
| `SubobjectTries.TriesAreParts` | include/liballocs.h:553-554 | Everything tried, and so the last candidate reported, is a part of the type that begins as far before the target as the offset reported with it |
| `SubobjectTries.Accounts` | include/liballocs.h:552 | On success what was added up and the offsets of array elements passed make up the target offset and what failed branches added |
| `SubobjectTries.SumIsRightIff` | include/liballocs.h:552 | The offset added up is the target offset, less array elements, if and only if failed branches added nothing |
| `SubobjectTries.CountedTwice` | include/liballocs.h:552 | For every four-byte type but one, a union in which its offset is counted twice |
| `SubobjectSearch.InnerType` | src/query.c:128-137 | The result is where taking the step there is to take, as long as there is one, ends: a part with nothing to step into, and the part that the last step was out of, or none when there was no step |
| `SubobjectWalk.WalkSubobjectsSpanning` | include/liballocs.h:321-421 | The calls made, and the value returned, are those of going along the list of visits, which the rows below determine, until a callback does not return 0, whatever the callback makes of the calls so far |
| `SubobjectWalk.CallsAll` | include/liballocs.h:321-421 | The calls are a prefix of the list, all of it when 0 is returned, and otherwise up to the one whose result is returned |
| `SubobjectWalk.VisitedExactly` | include/liballocs.h:321-421 | A type is visited at a position, a depth and a path of member and element indices if and only if that path leads to it there, is that long, and at every step takes the element the offset falls in, or a member at the largest offset not above it of a composite the offset falls in |
| `SubobjectWalk.VisitsAscend` | include/liballocs.h:321-421 | The paths of the visits ascend strictly in lexicographic order with a path before its extensions: a container before its parts, an earlier member with all its parts before a later one |
| `Paths.BeforeIsStrict` | include/liballocs.h:321-421 | What comes before something in that order is different from it and does not also come after it, so that nothing is visited twice |
| `SubobjectWalk.SpanningIsVisited` | include/liballocs.h:321-421 | Every proper part whose extent includes the offset is visited with its true position, depth and path |
| `SubobjectWalk.VisitedIsPart` | include/liballocs.h:321-421 | Everything visited is a part in the flat sense at the position the visit says, and begins at or below the offset |
| `Layout.PartHasPath` | include/liballocs.h:321-421 | A path leads to every part, so what these say about paths leaves no part out |
| `Layout.PathIsPart` | include/liballocs.h:321-421 | What a path leads to is a part |
| `MemrangeCaches.MemrangeCache.CheckSanity` | include/liballocs_cil_inlines.h:216-248 | Walked from the head the list is the slots in order, walked from the tail it is their reverse, and they are exactly the valid slots; every check succeeds |
| `MemrangeCaches.MemrangeCache.Unlink` | include/liballocs_cil_inlines.h:250-267 | The slot leaves the list, the others keep their order, and it is the next victim |
| `MemrangeCaches.MemrangeCache.PushHeadMru` | include/liballocs_cil_inlines.h:269-285 | The slot joins the list at the front |
| `MemrangeCaches.MemrangeCache.BumpVictim` | include/liballocs_cil_inlines.h:287-300 | The slot is not the next victim, if there is another slot |
| `MemrangeCaches.MemrangeCache.BumpMru` | include/liballocs_cil_inlines.h:302-312 | The list is moved to front at the slot, whether or not it was on it |
| `MemrangeCaches.MemrangeCache.Lookup` | include/liballocs_cil_inlines.h:314-352 | The entry returned has the type asked for, and the object is inside it, at its beginning or a whole number of its periods in, of the period asked for if one was; it is the first such in most-recently-used order and is moved to front; when nothing is returned no entry is such, and nothing changes |
| `MemrangeCaches.MemrangeCache.LookupNoType` | include/liballocs_cil_inlines.h:354-390 | The same without regard to the type, except that an entry of another period than the one asked for does not serve for its beginning either |
| `MemrangeCaches.HitServes` | include/liballocs_cil_inlines.h:314-352 | The test by remainder holds exactly of the entries that serve: inside the range, at the beginning or some whole number of periods in |
| `MemrangeCaches.HitServesUntyped` | include/liballocs_cil_inlines.h:354-390 | So does the test without a type |
| `MemrangeCaches.MemrangeCache.CachedIsFound` | include/liballocs_cil_inlines.h:314-440 | After an entry is cached, looking up any object a whole number of its periods into its range with its type gives that entry, and looking up a type that nothing cached has gives nothing |
| `MemrangeCaches.MemrangeCache.CachedIsFoundUntyped` | include/liballocs_cil_inlines.h:354-440 | So it does without a type |
| `MemrangeCaches.MemrangeCache.CacheWithType` | include/liballocs_cil_inlines.h:407-440 | The new entry has the fields given and is first in order; a free slot is filled if there is one, and otherwise the least recently used entry is the one replaced; the others keep their order and contents |
| `MemrangeCaches.MemrangeCache.UncacheAll` | src/cache.c:13-33 | An entry stays exactly when its base is below the range or at or above its end, and those that stay keep their order |
| `HeapIndexes.HiddenIsBelow` | include/generic_malloc_index.h:593-620 | The cut derived from the biggest size seen never hides the beginning of the chunk an address is in |
| `HeapIndexes.HiddenSearchIsWhole` | include/generic_malloc_index.h:593-620 | Inside a live chunk the search with the hidden prefix, the search of the whole bitmap and the chunk's beginning are the same |
| `HeapIndexes.HeapIndex.EnsureHasBitmapTo` | include/generic_malloc_index.h:302-329 | The bitmap grows by clear bits to exactly the words that cover the given end, and still describes the live chunks |
| `HeapIndexes.BitExistsIff` | include/generic_malloc_index.h:331-345 | After growing for a chunk, the bitmap has a bit for its beginning if and only if something was requested, or the chunk does not begin at the edge of a word, or the bitmap reached it before |
| `HeapIndexes.EmptyRequestMissed` | include/generic_malloc_index.h:331-345 | The first chunk of any heap, requested with no bytes, has no bit |
| `HeapIndexes.HeapIndex.Insert` | include/generic_malloc_index.h:331-430 | When the chunk has a bit the live chunks gain exactly it, the biggest size becomes the larger of the old one and the chunk's, and bitmap and cache stay true; it has one exactly under the condition above |
| `HeapIndexes.HeapIndex.Delete` | include/generic_malloc_index.h:432-528 | The live chunks lose exactly the one deleted, and bitmap and cache stay true of the rest |
| `HeapIndexes.HeapIndex.LookupViaBitmap` | include/generic_malloc_index.h:580-630 | For an address in a live chunk the answer is that chunk, as a search of the whole bitmap would give |
| `HeapIndexes.HeapIndex.GetBase` | src/query.c:28-50 | In every interleaving of insertions, deletions and queries the cached answer is the uncached one, and for an address in a live chunk it is that chunk's beginning |
| `Walks.WalkAllocationsDf` | src/walk.c:299-326 | The recursive walk makes the calls of a walk along the flat pre-order that passes over deeper visits when told to skip; the reply to skip never escapes |
| `Walks.WalkAllocations` | src/walk.c:188-211 | Siblings are walked in order until a walk of one asks to stop, as along the pre-order |
| `Walks.WalkOne` | src/walk.c:228-298 | One thing and what it contains are walked as along its pre-order |
| `Walks.FlatTree` | src/walk.c:228-326 | Walking one thing, a reply of 0 goes on into its parts, a reply of -1 ends its walk with 0 and no further call, and any other reply ends it with that reply |
| `Walks.CutWalk` | src/walk.c:228-298 | With a client that skips at certain nodes and otherwise carries on, the calls are the pre-order of the tree with everything below those nodes left out |
| `Walks.FlatOutcome` | src/walk.c:228-298 | The walk stops at the first reply that is neither to carry on nor to skip, and returns that reply |
| `Walks.ForestInvited` | src/walk.c:228-298 | Nothing is called unless everything around it was called before and replied to carry on |
| `Walks.ForestAccounted` | src/walk.c:228-298 | A walk that was not stopped has called everything except what lies in subtrees it was told to skip |
| `Walks.PreorderIsExact` | src/walk.c:228-298 | A node is visited with a path if and only if following the path's coordinates leads to that node with true depths on the way |
| `Walks.DepthIsLength` | src/walk.c:228-298 | The depth a visit says is the number of coordinates of its path |
| `Walks.PreorderAscends` | src/walk.c:228-298 | The paths visited ascend strictly in lexicographic order with a path before its extensions: a thing before its parts, an earlier thing with all its parts before a later one |
| `Walks.PreorderOnce` | src/walk.c:228-298 | No path is visited twice |
| `EndLabels.KeptIsShallow` | examples/emit-asm.c:135-150 | Since the queue ascends in depth, looking at its last entry only keeps exactly the entries less deep than the given depth |
| `EndLabels.EndQueue.Drain` | examples/emit-asm.c:135-150 | What is at or below the depth is printed, last first, and leaves the queue, which still ascends |
| `EndLabels.EndQueue.Emit` | examples/emit-asm.c:249-251 | A visit drains, prints its own text and queues its end label, growing the array if needed, and the queue still ascends strictly |
| `EndLabels.OutputIsNest` | examples/emit-asm.h:15-18 | Over any run of visits each end label is printed once, after everything deeper that follows its visit directly and before anything else |
| `EndLabels.NestOfPreorder` | examples/emit-asm.h:15-18 | Over the pre-order of a tree with subtrees cut off, that output is properly nested by the shape of what is left |
| `EndLabels.BracketsPrint` | examples/emit-asm.h:15-18 | That output has the text of every node walked once, in the order of the walk, and every end label once |
| `EndLabels.TreePrints` | examples/emit-asm.h:15-18 | Of all the lines of a thing and its parts its own text is the first and its end label the last |
| `EndLabels.EmitAll` | examples/emit-asm.c:630-645 | The queue in its growing array produces that output for any run of visits |
| `EndLabels.EmitMemoryAsm` | examples/emit-asm.c:499-539 | For any choice of nodes below which the callback cuts the walk, a whole walk and the last drain print the text of the cut tree properly nested; a cut node keeps its own text and its end label |
| `NodeQueues.NodeQueue.PushTail` | include/uniqtype-bfs.h:14-27 | The record joins the end of the linked list, whose head, tail and links stay right |
| `NodeQueues.NodeQueue.PopHead` | include/uniqtype-bfs.h:29-41 | The first record leaves the linked list with its own link cleared, and nothing is returned only from an empty list |
| `Bfs.AdvanceKeeps` | src/uniqtype-bfs.c:220-267 | Every step keeps the invariant: colours say who is done and who has been enqueued, levels in the queue rise by at most one, what the finished ones point to has been met, and nothing is enqueued twice |
| `Bfs.DoneIsExact` | src/uniqtype-bfs.c:220-267 | When the queue is empty the objects found are exactly those reachable from the objects it began with |
| `Bfs.FirstIsShortest` | src/uniqtype-bfs.c:220-267 | The first time an object is taken out, its level is its distance from the nearest of them |
| `Bfs.OnceIff` | src/uniqtype-bfs.c:220-267 | Every object is taken out once if and only if the queue had no object twice and none that one before it points to |
| `Bfs.BlackenedTwice` | src/uniqtype-bfs.c:220-267 | A walk from two objects, the first pointing to the second, blackens one of them twice |
| `Bfs.EnqueueWhite` | src/uniqtype-bfs.c:239-258 | The records of white objects move from one linked queue to the other, and the rest are let go |
| `Bfs.ProcessBfsQueue` | src/uniqtype-bfs.c:211-268 | From any queue of objects the loop ends on any finite object graph, and all of the above holds of what it blackened |
| `Bfs.WalkBfsFromObject` | src/uniqtype-bfs.c:290-321 | Each reachable object is blackened exactly once, in non-decreasing order of shortest distance; from null nothing is |
| `DwarfMachine.StackSection.Get` | tools/dwarf-machine.hpp:70-80 | Indexing across sections is indexing one flat stack, and fails exactly past its end |
| `DwarfMachine.StackSection.Set` | tools/dwarf-machine.hpp:70-80 | Assigning across sections changes exactly that word of the flat stack |
| `DwarfMachine.StackSection.DropN` | tools/dwarf-machine.hpp:81-96 | Dropping across sections drops that many words of the flat stack, and fails exactly when there are fewer |
| `DwarfMachine.DivisionIsC` | tools/dwarf-machine.hpp:513-528 | The remainder used is C's: with a quotient rounded towards zero it makes up the dividend |
| `DwarfMachine.Combine` | tools/dwarf-machine.hpp:513-560 | It succeeds exactly when there are two words and the result is one that C defines; then the top two words of the flat stack are replaced by their sum, their product, or what is left of the second after division by the top |
| `DwarfMachine.Eval` | tools/dwarf-machine.hpp:481-576 | Every straight-line program gives the result of a machine with one flat stack, whose steps the rows below determine, however its sections lie |
| `DwarfMachine.Invoke` | tools/dwarf-machine.hpp:585-605 | The same from up to two arguments, the first on top |
| `DwarfMachine.StepMeans` | tools/dwarf-machine.hpp:513-560 | Each operation on two words has a result exactly when C defines one, and then it is the sum, the product, or what is left over, in place of the two |
| `DwarfMachine.LeftOverUnique` | tools/dwarf-machine.hpp:513-528 | Taking whole divisors away from the dividend leaves only one number that is nearer to zero than the divisor and on the dividend's side of zero |
| `DwarfMachine.PushesMean` | tools/dwarf-machine.hpp:481-576 | The other operations push 2, push the top again and fail exactly on an empty stack, or do nothing |
| `DwarfMachine.DoublingIsTimesTwo` | tools/dwarf-machine.hpp:481-576 | Adding a word to itself and multiplying it by 2 are the same program on every stack, and give twice the word exactly when that fits |
| `DwarfMachine.OrderIsIrrelevant` | tools/dwarf-machine.hpp:513-560 | Sums and products do not depend on the order of the arguments |
| `DwarfMachine.RemainderOfTwo` | tools/dwarf-machine.hpp:513-528 | What is left after division by 2 is 0 exactly for even words, and otherwise 1 with the sign of the word |
| `DwarfMachine.NopIsNothing` | tools/dwarf-machine.hpp:481-576 | Doing nothing may be left out of a program anywhere |
| `Allocsites.BsearchLeq` | src/allocsites.c:111-118 | Bisection finds the last key at or below the target, or that there is none |
| `Allocsites.Spine.InitAllocsitesInfo` | src/allocsites.c:57-92 | A file's ids begin where the last file's counted ids end, its count is its length cut to 16 bits; the program is stopped exactly when the slot is beyond the guard or no 16-bit id is left to begin with, and the slot is past the end exactly for one file more than there are slots |
| `Allocsites.FullWithIdsLeft` | src/allocsites.c:71-73 | All slots can be in use with ids left, so that one file does get past the guard |
| `Allocsites.FullIdsDiffer` | src/allocsites.c:46-52 | No two sites that are counted have the same number |
| `Allocsites.TablesCollideIff` | src/allocsites.c:84-90 | A table and a non-empty one after it share a number if and only if the first has 65536 sites or more |
| `Allocsites.AddressUndone` | src/allocsites.c:103-121 | A site's own address leads back to it if and only if it is among those counted |
| `Allocsites.SiteOfIsKnown` | src/allocsites.c:133-148 | Every number below the total resolves to a site that exists: the ranges leave no gap |
| `Allocsites.IdUndone` | src/allocsites.c:123-148 | Resolving undoes taking a site's id if and only if the site's number has at most 16 bits |
| `Allocsites.LastSiteMistaken` | src/allocsites.c:123-148 | Two files of 65535 and 2 sites, the last of which is resolved as the first |
| `Allocsites.ResolvingUndone` | src/allocsites.c:123-148 | Taking the id undoes resolving, for every id given out |
| `Allocsites.Spine.FindAllocsiteEntryAt` | src/allocsites.c:103-121 | The site at or last before an address in its file, or nothing |
| `Allocsites.Spine.AllocsiteId` | src/allocsites.c:123-131 | The 16-bit id of that site; the last id when there is no site, and 0 when there is no file |
| `Allocsites.Spine.AllocsiteEntryById` | src/allocsites.c:133-148 | The site that an id stands for, for every id given out |
| `Allocsites.Spine.AddressRoundTrip` | src/allocsites.c:123-155 | From a site's address to its id and back gives the same address, while at most 65535 ids are given out, and the id is never the one for no site |
| `Allocsites.Spine.IdRoundTrip` | src/allocsites.c:123-155 | From an id to its site's address and back gives the same id |

## Left out

- Locks, lazy mapping and growth of the page index, signals, debug output and environment lookups (`src/pageindex.c`).
- The early-boot retry path and notification of unindexed addresses (`src/pageindex.c`): taken to find nothing, as when no such path is set up.
- Metadata of bigallocs, its sharing after a split and its release callbacks.
- The search for the lowest common parent (`src/pageindex.c`): it steps one of its two nodes only, and is not a sound basis for a theorem.
- Operands that the callers of the page index promise: new ranges do not overlap siblings, no child straddles a split or lies in a part cut off, the first record is never deleted, and a resize stays inside the parent. They are preconditions, and free records are not.
- BigallocTables.BigallocTable.MemsetBigalloc: the range lies inside the index; the source ends the program on sizes it does not expect. An old number of -1, which turns the check off and which nothing passes, is left out.
- The other assertions of a build that has them (`src/pageindex.c`): the links and bounds they look at are part of what is proved of every table; that beginnings have their allocator's alignment is not.
- BigallocRanges.DeleteAllOverlappingRange: the source reads one entry past the range before it stops there; the model stops first, and what is read makes no difference.
- BigallocLookups.FindBigallocFromRoot: when the page has no entry the source goes on with record 0, which no allocator made and which has no children; the model returns nothing at once.
- SubobjectTries.FindMatchingSubobject: for an array the source adds a field that belongs to members; it is taken to be 0.
- SubobjectWalk.WalkSubobjectsSpanning: array elements of size zero are excluded, since the source divides by the element size. A callback is given the path; the container, its position and the place in it that the source also passes are those that the path less its last index leads to.
- HeapIndexes.HeapIndex.Insert: chunks above 128 KiB, which become bigallocs, are left out; where the source writes past the bitmap the model reports failure.
- HeapIndexes.HeapIndex.GetBase: sizes reported to callers are left out, since the trailer is subtracted twice; heaps begin at 128 KiB or higher, as the subtraction of the biggest size from an address needs.
- The build-time variants of the cache that search it linearly or replace in turn (`include/liballocs_cil_inlines.h`).
- Cached queries other than the base query (`src/query.c`): they fill the same cache through the same members.
- Walks.WalkAllocations: the branch for bigallocs with imposed children is left out, and a suballocator's walk is a list of children.
- EndLabels.EndQueue.Emit: the text printed for each visit, and which visits cut the walk off, are parameters.
- Bfs.WalkBfsFromObject: what an object points to is a parameter, one list for each object, and objects have one type each; the distance and predecessor maps hold neither distances nor predecessors and are left out, and the tree map of colours is a map.
- DwarfMachine.Eval: branches are left out, since seeking the target drops the instruction aimed at; where C leaves a result undefined there is no result.
- Allocsites.Spine.InitAllocsitesInfo: where the source writes past the array the model reports it; the file an address is in is a parameter.
- Allocsites.Spine.AllocsiteEntryById: for an id that was not given out the source computes an address past a table, and the contract says only which table.
- Allocsites.BsearchLeq, and searching and setting bits in HeapIndexes: the helper library is not part of this model; each has a small implementation with the evident contract.
- `include/metavec.h`, `include/memtable.h`, `src/lifetime_policies.c`, the DWARF tools, the compiler wrappers, the hooks and the loading of metadata objects.

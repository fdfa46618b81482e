# Verified models of PostgreSQL contrib index and checker code

The repository carries a copy of PostgreSQL. This project models the parts of its
`contrib` directory whose correctness is hardest to see, and proves what they
promise, in four groups.

**The bloom index.** `SignWord`, `BloomSignature`: the signature arithmetic, from
the Park-Miller generator on 32-bit integers to the claim that a row equal to the
keys is never missed. `BloomPage`: space on a page, and compaction in place.
`BloomProtocol`, `BloomRuns`: a state machine in which any number of inserts, one
vacuum and one scan each advance one page lock at a time, over one metapage, data
pages and a set of free blocks; proved over every interleaving are the structural
invariant, conservation of tuples, that scans find what stays, and that vacuum
removes what it claims. `BloomIndex`: the access method's entry points with their
loops, as an object with fields; each is shown to be an uninterrupted run of the
protocol and has an exact contract of its own. `BloomCount`: what their counts count.

**GiST keys.** `GistTree`: search in a tree for any kind of key, and the conditions
under which pruning loses nothing. `VarKey`, `VarSplit`, `VarTree`: bytea keys cut to
their common prefix, and trees of them. `NumKey`: numeric ranges. `Cube`, `CubeTree`, `CubeDistance`: boxes of
mixed dimensions, Guttman's split, and distances. `Offsets` holds what the splits share.

**Corruption checkers.** `HeapChain`: update chains on a heap page. `ToastCheck`: chunks
of an out-of-line value. `XidWiden`: 32-bit transaction ids made 64 bits wide.
`BtreeWalk`, `BtreeDescent`, `BtreeEndless`, `BtreeReturn`: the walk along B-tree levels,
the descent from one to the next, and when a walk does not end or its check does not return. `BtreeOrder`, `BtreeLevelOrder`,
`BtreeShape`: the order of keys on a page, across a level, and which levels it is decided for.
The theorems have the form "nothing is reported if and only if the structure is
sound", over arbitrary page contents.

**hstore.** `HStoreFormat`, `HStoreBuild`, `HStore`: the packed form as bytes in
memory, built, finished, read and filtered.

`CInt` holds the parts of C integer arithmetic that differ from Dafny's, `Pigeonhole` the
counting argument that both checkers' termination and cycle theorems use.

Seven properties one might expect are false of the code. Each has a concrete
counterexample and the exact condition under which it holds:

- splitting a page of bytea node keys keeps every value findable, at once and at every height above: `VarSplit.SplitCanMiss`, `VarTree.TwoSplitsCanMiss`, `VarTree.LastingIff`;
- contained-by search for cubes finds every box: `Cube.ContainedByCanMiss`, `Cube.ContainedByIff`;
- bit numbers drawn for a value lie in the signature: `BloomSignature.DeadHash`, `BloomSignature.BitIndexInRangeIff`;
- a heap page without reports has no cycle of update links: `HeapChain.CycleIsNotReported`, `HeapChain.CycleIff`;
- the walk along a B-tree level with its order check returns: `BtreeEndless.HalfDeadForever`, `BtreeReturn.RingNeverReturns`, `BtreeReturn.ReturnsIff`;
- a level walked without complaint ascends: `BtreeShape.EmptyPageHides`, `BtreeShape.GapIff`;
- a descent without complaint reaches the leaves: `BtreeDescent.ZeroDownlinkStops`, `BtreeDescent.WholeDescentDepth`.

What the code gets from outside is a parameter: hash values, the vacuum callback (a
set of heap pointers), the result of sorting (any order that lists each entry once),
box sizes and waste, the outcome of checking one heap tuple, and what shared memory
and the commit log say. Numbers that are floating point in the source are reals.
`dafny verify dfyconfig.toml` checks the whole project.

## Model

| member | source | states |
|---|---|---|
| `BloomSignature.SeededNonzeroIff` | postgres/contrib/bloom/blutils.c:248-254 | seeding leaves a nonzero state for every 32-bit seed except exactly 0x80000001 and 0xFFFFFFFF |
| `BloomSignature.NextNonzero` | postgres/contrib/bloom/blutils.c:221-246 | a nonzero state is never followed by zero: 16807 is invertible modulo 2^31 - 1 |
| `BloomSignature.StatesNonzero` | postgres/contrib/bloom/blutils.c:221-246 | all later states of a nonzero one lie in [1, 2^31 - 2], however many draws |
| `BloomSignature.StatesFromZero` | postgres/contrib/bloom/blutils.c:221-246 | a zero state stays zero for ever |
| `BloomSignature.SchrageCongruence` | postgres/contrib/bloom/blutils.c:224-243 | the overflow-free form with quotient 127773 and remainder 2836 is congruent to 16807 times the state |
| `BloomSignature.Generator.Srand` | postgres/contrib/bloom/blutils.c:248-254 | the static state becomes the seed converted to signed, reduced by the truncating remainder, plus one |
| `BloomSignature.Generator.Rand` | postgres/contrib/bloom/blutils.c:221-246 | on 32-bit arithmetic with truncating division, checked step by step not to overflow, the new state is 16807 times the old modulo 2^31 - 1; the result is in [0, 2^31 - 3], or -1 from state zero |
| `BloomSignature.BitIndexInRangeIff` | postgres/contrib/bloom/blutils.c:256-287 | all bit numbers drawn for a value lie inside the signature if and only if its seed is not one of the two dead ones; for those every draw is bit -1 |
| `BloomSignature.DeadHashes` | postgres/contrib/bloom/blutils.c:263-279 | in every column exactly two hash values lead to a dead seed: the dead seeds xor the column's first draw |
| `BloomSignature.DeadHash` | postgres/contrib/bloom/blutils.c:263-279 | one of them in the first column, whose first draw is 16806 |
| `BloomSignature.StatesArePowers` | postgres/contrib/bloom/blutils.c:221-246 | after k draws the state is the k-th power of 16807 times the seeded one, modulo 2^31 - 1 |
| `BloomSignature.ValueBitsIff` | postgres/contrib/bloom/blutils.c:256-287 | for a live seed a bit is among a value's if and only if it is a power of 16807, of exponent 1 to the column's number of bits, times what the hash xor the column's draw seeds, modulo 2^31 - 1, less one, modulo the signature's length in bits |
| `BloomSignature.SignBitsIff` | postgres/contrib/bloom/blutils.c:30-33 | position b of a signature is binary digit b mod 16 of word b div 16 |
| `SignWord.XorBit` | postgres/contrib/bloom/blutils.c:268-279 | the mixing of hash and draw is exclusive or, digit by digit |
| `BloomSignature.SignValue` | postgres/contrib/bloom/blutils.c:256-287 | the word array gains exactly the bits of the value for its column and keeps all it had |
| `BloomSignature.DrawBits` | postgres/contrib/bloom/blutils.c:281-286 | the loop sets exactly the first n drawn bits |
| `BloomSignature.SetBitInPlace` | postgres/contrib/bloom/blutils.c:283-285 | setting a bit in its word adds that bit number to the signature and nothing else |
| `BloomSignature.FormTuple` | postgres/contrib/bloom/blutils.c:289-311 | the tuple's bits are the union of its non-null columns' bits |
| `BloomSignature.RowBitsIff` | postgres/contrib/bloom/blutils.c:289-311 | a bit is a row's if and only if it is that of some column that is not null |
| `BloomSignature.ScanSignature` | postgres/contrib/bloom/blscan.c:90-116 | no signature if and only if some key is null; otherwise its bits are the union of the keys' bits |
| `BloomSignature.KeyBitsIff` | postgres/contrib/bloom/blscan.c:90-116 | a bit is the keys' if and only if it is that of some key, on the key's own column |
| `BloomSignature.TestSignature` | postgres/contrib/bloom/blscan.c:141-153 | the word-by-word test with early exit holds if and only if every bit of the scan is a bit of the tuple |
| `BloomSignature.MatchingRowIncluded` | postgres/contrib/bloom/blscan.c:90-153 | a row whose keyed columns hash equal to all keys has a signature that includes the scan's: no false negatives |
| `BloomPage.TryAdd` | postgres/contrib/bloom/blinsert.c:241-264 | under a page lock: success appends exactly the tuple to what readers see, on a page whose count, pd_lower and space agree; a new or deleted page always has room |
| `BloomPage.AddItem` | postgres/contrib/bloom/blutils.c:313-345 | fails exactly when the page is at capacity; otherwise one tuple more, pd_lower moved to match and still inside the page |
| `BloomPage.InitPage` | postgres/contrib/bloom/blutils.c:395-408 | an initialised page is valid, not deleted and empty |
| `BloomPage.FitsIff` | postgres/contrib/bloom/bloom.h:152-155 | the free space is the block less header, opaque data and tuple count times tuple size, and it takes another tuple if and only if fewer than the page's capacity are on it |
| `BloomPage.CapacityIs` | postgres/contrib/bloom/bloom.h:152-155 | a page takes 8160 divided by the tuple size tuples |
| `BloomPage.FreshPageHasRoom` | postgres/contrib/bloom/blinsert.c:337-345 | for every permitted signature length an empty page takes a tuple, so the error branch is dead |
| `BloomPage.VacuumPage` | postgres/contrib/bloom/blvacuum.c:71-139 | the page vacuum leaves is valid and its readers see exactly the tuples the callback did not claim, in order |
| `BloomPage.SurvivorsCount` | postgres/contrib/bloom/blvacuum.c:84-110 | claimed tuples are gone, every other one occurs as often as before |
| `BloomPage.SurvivorsInOrder` | postgres/contrib/bloom/blvacuum.c:84-107 | survivors keep their order |
| `BloomPage.VacuumPageIs` | postgres/contrib/bloom/blvacuum.c:71-139 | a page without claimed tuples is left as it is, and a page in use becomes a deleted one if and only if it had tuples and all are claimed |
| `BloomPage.Compact` | postgres/contrib/bloom/blvacuum.c:84-110 | the two-pointer loop in place: the kept tuples move to the front in order, the count drops by the number removed, bytes past them stay |
| `BloomProtocol.StructuredStep` | postgres/contrib/bloom/blinsert.c:225-361 | every step of any number of inserts, one vacuum and one scan keeps: nStart <= nEnd <= 2004, listed and free blocks are data blocks of the file, page counts and pd_lower agree, locks have one holder |
| `BloomProtocol.HintStructured` | postgres/contrib/bloom/blinsert.c:227-272 | the first try, made without the metapage on a possibly stale hint, keeps that structure |
| `BloomProtocol.RetryStructured` | postgres/contrib/bloom/blinsert.c:287-334 | so does a turn of the retry loop under the metapage lock |
| `BloomProtocol.AllocateStructured` | postgres/contrib/bloom/blinsert.c:336-356 | so does putting the tuple on a recycled or new page, which never fails |
| `BloomProtocol.DeleteStructured` | postgres/contrib/bloom/blvacuum.c:58-139 | so does vacuuming one page |
| `BloomRuns.GoodStep` | postgres/contrib/bloom/blinsert.c:197-364 | conservation: after every step each tuple occurs in the index once per completed insert of it, less what vacuum removed |
| `BloomRuns.DeleteConserved` | postgres/contrib/bloom/blvacuum.c:84-139 | vacuuming a page moves exactly the claimed tuples from the index to the removed ones |
| `BloomRuns.AddConserved` | postgres/contrib/bloom/blinsert.c:247-253 | completing an insert adds exactly its tuple |
| `BloomRuns.GotoConserved` | postgres/contrib/bloom/blinsert.c:261-263 | a try that is aborted adds nothing |
| `BloomRuns.RunIsGood` | postgres/contrib/bloom/blinsert.c:197-364 | structure and conservation hold in every state of every interleaving |
| `BloomRuns.RunExtends` | postgres/contrib/bloom/blinsert.c:197-364 | whatever step is possible next can be taken: nothing it relies on is ever missing |
| `BloomRuns.EntryStays` | postgres/contrib/bloom/blvacuum.c:84-110 | a step keeps each tuple on its page, unless it is vacuum's and claims the tuple |
| `BloomRuns.EntryKeepsPage` | postgres/contrib/bloom/blutils.c:352-393 | a tuple still in the index after a step is still on its page: pages with tuples are never reinitialised |
| `BloomRuns.RemovedIsGone` | postgres/contrib/bloom/blvacuum.c:92-97 | what vacuum removed is not in the index, then or later |
| `BloomRuns.ScanComplete` | postgres/contrib/bloom/blscan.c:118-168 | over every run that begins with the beginning of a scan and stays in it to where the scan may end, however inserts and vacuum interleave, every entry in the index throughout that includes the signature has been returned |
| `BloomRuns.ScanSound` | postgres/contrib/bloom/blscan.c:118-168 | over such a run nothing else is returned but pointers of matching entries it met |
| `BloomRuns.DeleteComplete` | postgres/contrib/bloom/blvacuum.c:53-139 | over every run that begins a bulk deletion and stays in it to where it may write its list, no claimed entry that was there at the start is left |
| `BloomRuns.DeleteSpares` | postgres/contrib/bloom/blvacuum.c:53-139 | and every entry that is not claimed stays on its page |
| `BloomRuns.CleanComplete` | postgres/contrib/bloom/blvacuum.c:189-212 | a cleanup that may end has recorded as free every block that was new or deleted throughout and that no insert took |
| `BloomIndex.Index.Build` | postgres/contrib/bloom/blinsert.c:120-158 | each row occurs as often as it was scanned; all data pages but the last are full, and the list and the free map are empty |
| `BloomIndex.BuildPages` | postgres/contrib/bloom/blinsert.c:46-157 | the cached-page loop: full pages are flushed, the last one unless empty, and no row is lost or doubled |
| `BloomIndex.Index.Insert` | postgres/contrib/bloom/blinsert.c:197-364 | a run of the protocol that adds one tuple: on the first listed page with room, which becomes the start of the list; if all listed pages are full, on a free block that is new or deleted, which leaves the map and becomes the whole list; and on a new block only if no free block is either |
| `BloomIndex.Index.FirstTry` | postgres/contrib/bloom/blinsert.c:225-278 | the hinted page gets the tuple if it has room; otherwise nothing changes and the page is full |
| `BloomIndex.Index.RetryPages` | postgres/contrib/bloom/blinsert.c:280-334 | under the metapage lock the first listed page with room gets the tuple and becomes the start of the list, or nothing changes and all are full |
| `BloomIndex.Index.NewPage` | postgres/contrib/bloom/blutils.c:352-393 | a reusable block of the free map is taken, others on the way are dropped from it; the file grows only if there is none |
| `BloomIndex.Index.UseBlock` | postgres/contrib/bloom/blinsert.c:339-353 | the tuple goes on the freshly initialised block, which becomes the whole list |
| `BloomIndex.Index.BulkDelete` | postgres/contrib/bloom/blvacuum.c:33-155 | a run of the protocol after which every page holds its unclaimed tuples in order, pages without claimed ones are unchanged, emptied ones deleted, the count is that of the claimed places, and the list holds in order the first pages with tuples and room |
| `BloomIndex.Index.DeletePages` | postgres/contrib/bloom/blvacuum.c:58-139 | the loop over pages makes each page what vacuum makes of it, lists roomy blocks in order and counts removals |
| `BloomIndex.Index.CompactPage` | postgres/contrib/bloom/blvacuum.c:84-139 | compaction in place, the deleted flag on an emptied page, and no write when nothing was claimed |
| `BloomIndex.Index.Cleanup` | postgres/contrib/bloom/blvacuum.c:167-217 | a block is free afterwards if and only if it was before or is a new or deleted data block; the counts are of those blocks and of the places that hold a tuple |
| `BloomIndex.Index.GetBitmap` | postgres/contrib/bloom/blscan.c:80-172 | none if a key is null; otherwise exactly the pointers of tuples that include the keys' bits, as a scan of the protocol returns them, and their number of places |
| `BloomIndex.Index.ScanPages` | postgres/contrib/bloom/blscan.c:125-168 | the loop over blocks collects the matches of all pages |
| `BloomIndex.Index.ScanPage` | postgres/contrib/bloom/blscan.c:132-163 | the loop over offsets collects the matches of one page |
| `BloomIndex.AllMatchingIff` | postgres/contrib/bloom/blscan.c:125-163 | a heap pointer is returned if and only if a tuple in the index has it and includes the signature |
| `BloomIndex.RowIsReturned` | postgres/contrib/bloom/blscan.c:90-163 | a surviving row whose keyed columns hash equal to the keys is among the results |
| `BloomIndex.RoomyListOk` | postgres/contrib/bloom/blvacuum.c:113-120 | what the rebuilt list contains, and when it is complete |
| `BloomIndex.RoomyListFirst` | postgres/contrib/bloom/blvacuum.c:115-122 | the rebuilt list is ascending and holds the first pages with tuples and room |
| `BloomIndex.RoomyIff` | postgres/contrib/bloom/blvacuum.c:115-122 | a page with tuples and room has at least one tuple and fewer than 8160 divided by the tuple size |
| `BloomCount.TotalIsSize` | postgres/contrib/bloom/blscan.c:127-163 | a running count over pages is the number of places, block and offset, whose tuple passes |
| `BloomCount.OccurrencesIs` | postgres/contrib/bloom/blscan.c:127-163 | a tuple occurs as often as there are places that hold it |
| `GistTree.KeyCovers` | postgres/contrib/btree_gist/btree_utils_var.c:321-357 | for any kind of key whose unions keep coverage, a key at any height covers every value below it |
| `GistTree.SearchIsExact` | postgres/contrib/btree_gist/btree_utils_var.c:553-612 | if moreover the consistent method accepts covering keys and is exact at leaves, the pruned search returns exactly the answers, in order |
| `GistTree.AnswersIff` | postgres/contrib/btree_gist/btree_utils_var.c:553-612 | the answers are the values stored below that satisfy the operator |
| `GistTree.AnswersCount` | postgres/contrib/btree_gist/btree_utils_var.c:553-612 | each as often as it is stored |
| `VarKey.NodeCpLen` | postgres/contrib/btree_gist/btree_utils_var.c:117-161 | the byte loop returns the length of the longest common prefix |
| `VarKey.BinUnion` | postgres/contrib/btree_gist/btree_utils_var.c:232-277 | widens the key so far by the entry, or starts from it |
| `VarKey.Union` | postgres/contrib/btree_gist/btree_utils_var.c:321-357 | the fold over the entries followed by truncation one byte past the prefix plus one |
| `VarKey.HullBounds` | postgres/contrib/btree_gist/btree_utils_var.c:335-339 | the folded bounds enclose every entry |
| `VarKey.HullAttained` | postgres/contrib/btree_gist/btree_utils_var.c:335-339 | and each of them is some entry's |
| `VarKey.UnionKeyIs` | postgres/contrib/btree_gist/btree_utils_var.c:344-354 | each bound of the union is the folded one, cut to two bytes past the common prefix |
| `VarKey.HullCovers` | postgres/contrib/btree_gist/btree_utils_var.c:199-229 | truncating a hull to its common prefix plus two bytes keeps every value an entry covers, by its bounds or as an extension of its upper bound |
| `VarKey.UnionCovers` | postgres/contrib/btree_gist/btree_utils_var.c:321-357 | a truncated union covers whatever one of its entries, itself perhaps truncated, covers |
| `VarKey.CoveredIsAccepted` | postgres/contrib/btree_gist/btree_utils_var.c:553-612 | the non-leaf test turns away no query that a covered value answers, for all six operators |
| `VarKey.AcceptedIff` | postgres/contrib/btree_gist/btree_utils_var.c:553-612 | a key is turned away exactly when no value between its bounds, or extending one of them, satisfies the operator or is the query; for inequality exactly when both bounds are the query |
| `VarKey.LeIs` | postgres/contrib/btree_gist/btree_bytea.c:49-71 | the order: the first different byte decides and a proper prefix comes first |
| `VarTree.NestedUnionCovers` | postgres/contrib/btree_gist/btree_utils_var.c:321-357 | in a tree of any height, of unions and of leaf and inner splits without an overshooting entry, every key covers every value below it |
| `VarTree.NestedHolds` | postgres/contrib/btree_gist/btree_utils_var.c:321-357 | in a tree of any height, of unions and of leaf and inner splits that lose no entry, every key holds every value below it: it covers it, or has a lower bound of zero bytes that the value extends |
| `VarTree.NestedUnionAccepts` | postgres/contrib/btree_gist/btree_utils_var.c:553-612 | whenever a value below a node of such a tree satisfies the operator, the node's key is accepted |
| `VarTree.SearchExact` | postgres/contrib/btree_gist/btree_utils_var.c:553-612 | search over any such tree, its leaf and inner pages split however often, returns exactly the values that satisfy the operator |
| `VarSplit.PickSplit` | postgres/contrib/btree_gist/btree_utils_var.c:457-547 | two nonempty halves of the sorted page, each entry in exactly one, with keys cut at the longer of the two common prefixes |
| `VarSplit.Halve` | postgres/contrib/btree_gist/btree_utils_var.c:510-524 | the loop fills both offset arrays within bounds and folds the two hulls |
| `VarSplit.SideKeysAre` | postgres/contrib/btree_gist/btree_utils_var.c:526-544 | each bound of a side is its hull's, cut to two bytes past the longer of the two common prefixes |
| `VarSplit.KeepsIff` | postgres/contrib/btree_gist/btree_utils_var.c:526-544 | a side cut past its prefix covers everything its entries cover if and only if no entry overshoots: an entry with a truncated upper bound that the side's upper bound extends by bytes not all 255 |
| `VarTree.LastingIff` | postgres/contrib/btree_gist/btree_utils_var.c:526-544 | everything a side's entries cover stays findable from the side's key up through any number of unions and splits if and only if no entry is lost: one that overshoots, unless its upper bound extends a lower bound of zero bytes |
| `VarTree.SplitSummarises` | postgres/contrib/btree_gist/btree_utils_var.c:526-544 | a half of a split page of which no entry is lost may stand in a tree whose search is exact |
| `VarTree.LostAbove` | postgres/contrib/btree_gist/btree_utils_var.c:526-612 | a value past a key whose lower bound is not all zero is turned away by a key one level up, whose own split loses nothing |
| `VarSplit.SafeIff` | postgres/contrib/btree_gist/btree_utils_var.c:526-544 | of one level only: a side's own key lets through every value its entries stand for if and only if no entry escapes, that is overshoots without extending the side's lower bound |
| `VarSplit.SplitSafeIff` | postgres/contrib/btree_gist/btree_utils_var.c:526-544 | that condition for both halves of a split page |
| `VarSplit.LeafSplitSafe` | postgres/contrib/btree_gist/btree_utils_var.c:480-544 | a page of leaf entries always splits safely |
| `VarTree.LeafSplitSummarises` | postgres/contrib/btree_gist/btree_utils_var.c:480-544 | both keys of a split leaf page may stand above it in a tree whose search is exact, whatever the values |
| `VarSplit.EscapeIsMissed` | postgres/contrib/btree_gist/btree_utils_var.c:526-544 | an escaping entry stands for a value that an equality query for it misses |
| `VarSplit.SplitCanMiss` | postgres/contrib/btree_gist/btree_utils_var.c:526-544 | a page of node keys in sorted order, two of them unions of two values each, whose split turns away a query for a stored value |
| `VarTree.TwoSplitsCanMiss` | postgres/contrib/btree_gist/btree_utils_var.c:526-544 | a page whose left key lets through every value of its entries, and the page above it, whose split turns away a query for one of them |
| `NumKey.Key.Widen` | postgres/contrib/btree_gist/btree_utils_num.c:188-198 | each bound is overwritten only by a wider one |
| `NumKey.Key.Union` | postgres/contrib/btree_gist/btree_utils_num.c:171-204 | the key becomes the least range around all entries |
| `NumKey.HullIsLeast` | postgres/contrib/btree_gist/btree_utils_num.c:171-204 | no other range around the entries is smaller |
| `NumKey.BinUnion` | postgres/contrib/btree_gist/btree_utils_num.c:227-253 | starts a key from its first entry or widens it in place |
| `NumKey.PickSplit` | postgres/contrib/btree_gist/btree_utils_num.c:338-384 | two nonempty halves, each entry in exactly one, each key the least range around its half |
| `NumKey.SearchExact` | postgres/contrib/btree_gist/btree_utils_num.c:262-308 | search over any tree of such keys returns exactly the values that satisfy the operator, for all six |
| `NumKey.AcceptedIff` | postgres/contrib/btree_gist/btree_utils_num.c:262-308 | an inner key is accepted exactly when some number in its range satisfies the operator or is the query |
| `NumKey.DistanceLowerBound` | postgres/contrib/btree_gist/btree_utils_num.c:315-335 | an inner key's distance is never more than that of a value below, and a leaf's is the plain difference |
| `NumKey.DistanceIsAttained` | postgres/contrib/btree_gist/btree_utils_num.c:315-335 | a key's distance is that of the nearest number in its range |
| `Offsets.Partition` | postgres/contrib/btree_gist/btree_utils_num.c:366-381 | however a sorted order is cut, each entry is on exactly one side |
| `Cube.Union` | postgres/contrib/cube/cube.c:747-805 | the least box around both in all dimensions either has, a missing dimension read as [0, 0]; flagged a point exactly when it is one |
| `Cube.Merge` | postgres/contrib/cube/cube.c:766-802 | the two coordinate loops and the point flag |
| `Cube.IsPointInternal` | postgres/contrib/cube/cube.c:1529-1551 | true if and only if both corners agree in every dimension |
| `Cube.ContainsV0` | postgres/contrib/cube/cube.c:1123-1159 | the loops decide containment; dimensions only the first box has do not matter, those only the second has must be zero |
| `Cube.ContainsIff` | postgres/contrib/cube/cube.c:1123-1159 | with missing dimensions zero, containment in every dimension of the contained box |
| `Cube.OverlapV0` | postgres/contrib/cube/cube.c:1193-1229 | true if and only if the intervals meet in every dimension either box has |
| `Cube.OverlapsIff` | postgres/contrib/cube/cube.c:1193-1229 | two boxes overlap if and only if some point is in both |
| `Cube.CmpV0` | postgres/contrib/cube/cube.c:936-1014 | the sign of the first difference among shared lower bounds, shared upper bounds, extra lower, extra upper, and then of the dimensions |
| `Cube.SwapCompares` | postgres/contrib/cube/cube.c:936-1014 | comparing the other way round gives the opposite sign |
| `Cube.ComparesIff` | postgres/contrib/cube/cube.c:936-1014 | the result is determined, and is zero if and only if dimensions and bounds are the same |
| `Cube.LessFirst` | postgres/contrib/cube/cube.c:936-1014 | what makes a box less: the first different shared lower bound, then shared upper, extra lower, extra upper, then fewer dimensions |
| `Cube.LeafConsistent` | postgres/contrib/cube/cube.c:678-704 | decides the operator on a stored box |
| `Cube.InternalConsistent` | postgres/contrib/cube/cube.c:707-731 | decides the inner test |
| `Cube.OperatorsAre` | postgres/contrib/cube/cube.c:678-705 | each operator in terms of the intervals of box and query |
| `Cube.InternalIsTight` | postgres/contrib/cube/cube.c:707-731 | an inner key is accepted only if some box under it would satisfy the operator, or for sameness contain the query |
| `Cube.CoveredIsAccepted` | postgres/contrib/cube/cube.c:707-731 | the inner test accepts a key that covers an answer; for contained-by provided the query spans zero in the dimensions the answer lacks |
| `Cube.ContainedByIff` | postgres/contrib/cube/cube.c:722-725 | for contained-by every covering key is accepted if and only if the query spans zero in the dimensions the stored box lacks |
| `Cube.ContainedByCanMiss` | postgres/contrib/cube/cube.c:722-725 | a one-dimensional point contained in a two-dimensional query whose own key is turned away |
| `CubeTree.GistUnion` | postgres/contrib/cube/cube.c:424-449 | the page's union covers every entry and each of its bounds is some entry's; no key comes out if and only if there is one entry |
| `CubeTree.HullIsLeast` | postgres/contrib/cube/cube.c:424-449 | every box around the entries covers their hull |
| `CubeTree.PickSeeds` | postgres/contrib/cube/cube.c:546-578 | the pair with the most waste among all but the last entry |
| `CubeTree.PickSplit` | postgres/contrib/cube/cube.c:510-655 | whatever the sizes: each offset in exactly one of two nonempty ascending lists, all writes and the sentinel inside the arrays, each box the least around its side |
| `CubeTree.SideIsUnion` | postgres/contrib/cube/cube.c:640-652 | a side's box is what the union method gives for the side, so split pages satisfy the tree theorems |
| `CubeTree.NestedUnionCovers` | postgres/contrib/cube/cube.c:747-805 | a key over any nesting of unions spans every box below in every dimension |
| `CubeTree.NestedUnionAccepts` | postgres/contrib/cube/cube.c:678-731 | and is accepted whenever a box below is an answer |
| `CubeTree.SearchExact` | postgres/contrib/cube/cube.c:678-731 | search returns exactly the answers for overlap, same and contains, boxes of mixed dimensions included |
| `CubeTree.ContainedBySearchExact` | postgres/contrib/cube/cube.c:678-731 | search for contained-by is exact whenever the query spans zero in the dimensions its answers lack, in particular when it has none they lack |
| `CubeDistance.Distance1DIsGap` | postgres/contrib/cube/cube.c:1502-1515 | the one-dimensional formula is the gap between the intervals, also against a missing dimension |
| `CubeDistance.GapIsLeast` | postgres/contrib/cube/cube.c:1502-1515 | the gap is the least distance between numbers of the two intervals |
| `CubeDistance.Taxicab` | postgres/contrib/cube/cube.c:1301-1342 | the sum of the gaps over all dimensions either box has |
| `CubeDistance.SquaredEuclid` | postgres/contrib/cube/cube.c:1252-1298 | the sum of the squared gaps |
| `CubeDistance.Chebyshev` | postgres/contrib/cube/cube.c:1345-1394 | the largest gap |
| `CubeDistance.SumsChange` | postgres/contrib/cube/cube.c:1252-1342 | moving the query in one dimension changes the sum by the change of that dimension's gap, and the sum of squares by that of its square |
| `CubeDistance.ZeroIff` | postgres/contrib/cube/cube.c:1252-1394 | all three are zero if and only if the boxes overlap |
| `CubeDistance.ChebyshevIsLargest` | postgres/contrib/cube/cube.c:1345-1394 | the third is at least every gap and is one of them or zero |
| `CubeDistance.ThreeFourFive` | postgres/contrib/cube/cube.c:1252-1394 | from (3,4) to the origin: 7, 25 before the root, and 4 |
| `CubeDistance.LeafCoordinate` | postgres/contrib/cube/cube.c:1419-1450 | at a leaf, odd coordinates read lower and even ones upper bounds, zero past the last dimension, negated for negative coordinates; the least 32-bit integer, which stays itself when negated, reads zero |
| `CubeDistance.InnerCoordinate` | postgres/contrib/cube/cube.c:1451-1473 | at an inner key the lower bound, or for negative coordinates the negated upper one; zero for the least 32-bit integer |
| `CubeDistance.DistanceLowerBound` | postgres/contrib/cube/cube.c:1397-1499 | no inner key is farther than a box below it, by taxicab, squared Euclid, Chebyshev and signed coordinate, across mixed dimensions |
| `HeapChain.CheckLine` | postgres/contrib/amcheck/verify_heapam.c:444-573 | reports nothing if and only if the line pointer is good; records whether it can be followed, where it leads and the status of xmin |
| `HeapChain.CheckLink` | postgres/contrib/amcheck/verify_heapam.c:605-741 | chains the two exactly when they are old and new version and no other came first; reports nothing exactly when the link is as it should be |
| `HeapChain.CheckStatuses` | postgres/contrib/amcheck/verify_heapam.c:699-741 | reports exactly the impossible pairs of xmin statuses |
| `HeapChain.PageCheck.ScanLines` | postgres/contrib/amcheck/verify_heapam.c:444-573 | the first pass fills the arrays and reports nothing if and only if every line pointer is good |
| `HeapChain.PageCheck.CheckLinks` | postgres/contrib/amcheck/verify_heapam.c:575-743 | the second pass leaves in `predecessor` the first offset linked to each, and reports exactly the links that meet another or disagree |
| `HeapChain.PageCheck.CheckRoots` | postgres/contrib/amcheck/verify_heapam.c:746-776 | the third pass reports exactly the heap-only tuples with committed or in-progress xmin and no predecessor |
| `HeapChain.PageCheck.Check` | postgres/contrib/amcheck/verify_heapam.c:444-776 | nothing is reported if and only if the page is sound: links injective, redirects to heap-only tuples, HOT flags and statuses in agreement, no heap-only root; then `predecessor` is the exact inverse of the links |
| `HeapChain.CleanIffSound` | postgres/contrib/amcheck/verify_heapam.c:575-776 | the three passes together decide soundness |
| `HeapChain.ChainsNeverMeet` | postgres/contrib/amcheck/verify_heapam.c:627-672 | on a page without reports, of two chains of any length that end alike one is the tail of the other |
| `HeapChain.OneRedirectRoot` | postgres/contrib/amcheck/verify_heapam.c:607-641 | so each tuple is reached from at most one redirect, along one chain |
| `HeapChain.HeapOnlyAlong` | postgres/contrib/amcheck/verify_heapam.c:675-697 | along any chain a tuple is heap-only exactly when what precedes it is a redirect or HOT-updated |
| `HeapChain.StatusesAlong` | postgres/contrib/amcheck/verify_heapam.c:699-741 | along a link of a page without reports an aborted xmin is followed by no committed or in-progress one, and a running one by none committed |
| `HeapChain.RootIsNotHeapOnly` | postgres/contrib/amcheck/verify_heapam.c:746-776 | a tuple nothing links to with a known committed or in-progress xmin is not heap-only |
| `HeapChain.SoundLines` | postgres/contrib/amcheck/verify_heapam.c:444-573 | every line pointer of such a page is free, dead, a redirect to a tuple, or a tuple aligned and within the page |
| `HeapChain.LinkedIff` | postgres/contrib/amcheck/verify_heapam.c:575-634 | what a link is, in the fields of the two line pointers |
| `HeapChain.CycleIff` | postgres/contrib/amcheck/verify_heapam.c:575-776 | a page without reports may still hold cycles of update links: an offset is on one if and only if no chain from an offset nothing links to ends there |
| `HeapChain.RootChainDistinct` | postgres/contrib/amcheck/verify_heapam.c:575-776 | a chain that starts where nothing links never comes back to an offset |
| `HeapChain.RootWithinPage` | postgres/contrib/amcheck/verify_heapam.c:575-776 | so the root, if there is one, is found by following predecessors back fewer steps than there are line pointers |
| `HeapChain.RedirectIsRoot` | postgres/contrib/amcheck/verify_heapam.c:471-507 | nothing links to a redirect, so none is on a cycle |
| `HeapChain.CycleIsNotReported` | postgres/contrib/amcheck/verify_heapam.c:575-776 | the instance: two tuples naming each other as next version pass |
| `ToastCheck.CheckToastTuple` | postgres/contrib/amcheck/verify_heapam.c:1457-1541 | reports nothing if and only if the chunk has the expected number, does not follow the last and has the canonical size |
| `ToastCheck.CheckToastedAttribute` | postgres/contrib/amcheck/verify_heapam.c:1763-1814 | reports nothing if and only if the chunks are numbered from 0 to the last in order with canonical sizes |
| `ToastCheck.Remainder` | postgres/contrib/amcheck/verify_heapam.c:1531-1533 | the mixed-width subtraction for the last chunk gives what is left of the value, a stored size of zero counting as 2^32 |
| `ToastCheck.SizesSum` | postgres/contrib/amcheck/verify_heapam.c:1457-1541 | the sizes of a value that passes add up to its stored size |
| `XidWiden.WidenExact` | postgres/contrib/amcheck/verify_heapam.c:1880-1918 | widening gives the one full id within 2^31 of the next one that has this low word, and the first normal id when there is none |
| `XidWiden.AtMostOne` | postgres/contrib/amcheck/verify_heapam.c:1897-1898 | no two ids in that window share a low word |
| `XidWiden.WidenUndoesTruncation` | postgres/contrib/amcheck/verify_heapam.c:1880-1918 | widening the low word of an id gives the id back if and only if it is within 2^31 of the next one |
| `XidWiden.VerdictIsTrue` | postgres/contrib/amcheck/verify_heapam.c:2032-2049 | judged by low words, an id is in the future, before the cluster's horizon, before the relation's, or in bounds exactly when it is so as a 64-bit id, all three ids taken in the window |
| `XidWiden.Context.UpdateCachedXidRange` | postgres/contrib/amcheck/verify_heapam.c:1920-1935 | the cached range becomes that of shared memory, its oldest id widened |
| `XidWiden.Context.GetXidStatus` | postgres/contrib/amcheck/verify_heapam.c:2014-2082 | the range is refreshed exactly when the id falls outside it; each verdict is given exactly when 64-bit comparison with the range then cached says so; the status is the cached one, committed before the log's horizon, or what shared memory and the log say, in that order; the cache holds the last xid asked for |
| `BtreeWalk.NoRepeat` | postgres/contrib/amcheck/verify_nbtree.c:822-849 | links that agree from a leftmost page on never visit a block twice, whatever else the pages hold, if each half-dead page among them is the right link of one page at most and of none if the level starts there |
| `BtreeWalk.SiblingsBounded` | postgres/contrib/amcheck/verify_nbtree.c:822-849 | so a level has no more pages than the file |
| `BtreeWalk.VisitIff` | postgres/contrib/amcheck/verify_nbtree.c:715-848 | over every file, a turn of the loop raises nothing if and only if the page extends a sound list, in which half-dead pages may stand |
| `BtreeWalk.CheckLevel` | postgres/contrib/amcheck/verify_nbtree.c:685-902 | over any file whose half-dead pages are entered once, with any check of single pages that answers, the walk ends; it raises nothing if and only if the level is sound, and the blocks it visits are distinct |
| `BtreeWalk.StuckIsUnsound` | postgres/contrib/amcheck/verify_nbtree.c:715-848 | a walk that raises something stands on a level that no list of pages makes sound |
| `BtreeWalk.LevelStarts` | postgres/contrib/amcheck/verify_nbtree.c:760-813 | a sound level starts with a page that is not half-dead, which names the level handed on |
| `BtreeWalk.LevelPages` | postgres/contrib/amcheck/verify_nbtree.c:715-848 | the pages of a sound level in their own fields: links, level number, leaf flag, and the root flag of the first |
| `BtreeWalk.HandedOn` | postgres/contrib/amcheck/verify_nbtree.c:786-813 | the level handed on starts at the first page's first item below, one level down; under leaves there is none |
| `BtreeDescent.DownStartsLevel` | postgres/contrib/amcheck/verify_nbtree.c:786-813 | the level handed on is one lower and starts at the first downlink of a leftmost page, or there is none |
| `BtreeDescent.CheckEveryLevel` | postgres/contrib/amcheck/verify_nbtree.c:578-597 | the descent ends for every file whose half-dead pages are entered once, each level being the one the level above hands on; it raises nothing if and only if there is a whole descent, and then it counts the root's level number plus one levels if and only if the last is one of leaves |
| `BtreeDescent.StuckDescent` | postgres/contrib/amcheck/verify_nbtree.c:578-612 | a descent stuck at a level that is not sound, or at no valid block, is part of no whole descent |
| `BtreeDescent.DescentUnique` | postgres/contrib/amcheck/verify_nbtree.c:578-612 | there is at most one whole descent, and every descent is its beginning |
| `BtreeDescent.StartsAtRoot` | postgres/contrib/amcheck/verify_nbtree.c:578-597 | a descent starts at the root block, flagged root, leftmost and at the root's level |
| `BtreeDescent.WholeDescentDepth` | postgres/contrib/amcheck/verify_nbtree.c:578-612 | levels are numbered down by one; a whole descent has one level for each number and ends in leaves if and only if no level of it starts with an internal page whose first downlink is block 0 |
| `BtreeDescent.ZeroDownlinkStops` | postgres/contrib/amcheck/verify_nbtree.c:578-612 | the instance: a root whose first downlink is block 0 ends the descent with nothing raised and no leaf looked at |
| `BtreeEndless.NeverEndsIff` | postgres/contrib/amcheck/verify_nbtree.c:685-902 | over every file, with any check of single pages that answers, the walk goes on for ever if and only if it gets past some half-dead block twice, within one turn more than the file has blocks |
| `BtreeReturn.ReturnsIff` | postgres/contrib/amcheck/verify_nbtree.c:685-902 | over every file, the walk with its order check never returns if and only if it gets past some half-dead block twice or comes, within as many turns as there are blocks, to a page in use whose items are in order and from which stepping right never lands |
| `BtreeReturn.OnceReturns` | postgres/contrib/amcheck/verify_nbtree.c:685-902 | it returns if every half-dead or deleted block is the right link of at most one page, and of none if the level starts there |
| `BtreeReturn.OnceLands` | postgres/contrib/amcheck/verify_nbtree.c:1613-1640 | from a page in use of such a file stepping right lands |
| `BtreeReturn.VisitPage` | postgres/contrib/amcheck/verify_nbtree.c:715-848 | a turn of the loop, with the order check of the page called where the source calls it |
| `BtreeReturn.CheckLevelInOrder` | postgres/contrib/amcheck/verify_nbtree.c:685-902 | the walk that makes the order check itself returns on such a file; it raises nothing if and only if the level is sound and its pages in use are in order, and visits no block twice |
| `BtreeReturn.RingNeverReturns` | postgres/contrib/amcheck/verify_nbtree.c:1613-1640 | the instance: two deleted leaves that name each other, right of a leaf in use; no page is half-dead and the walk never returns |
| `BtreeEndless.FirstRepeat` | postgres/contrib/amcheck/verify_nbtree.c:724-849 | going back from a block walked past twice, the first such block is half-dead |
| `BtreeEndless.HalfDeadForever` | postgres/contrib/amcheck/verify_nbtree.c:724-758 | the instance: two half-dead leaves naming each other are walked for ever |
| `BtreeOrder.TargetPageCheck` | postgres/contrib/amcheck/verify_nbtree.c:1119-1526 | passes if and only if the page's real items ascend, respect the high key, strictly on internal pages, and its last one precedes the first of the page to the right |
| `BtreeOrder.InOrderIff` | postgres/contrib/amcheck/verify_nbtree.c:1119-1526 | what passing means line by line: the high key, equal allowed on leaves only, the next item, and the right page's first |
| `BtreeOrder.RightPageKey` | postgres/contrib/amcheck/verify_nbtree.c:1572-1772 | stepping right over half-dead and deleted pages, the first real item of the first other page, if that page can be read and has one |
| `BtreeOrder.LandsWithinFile` | postgres/contrib/amcheck/verify_nbtree.c:1613-1640 | steps to the right that ever reach such a page do so within as many steps as there are blocks, and reach the same one |
| `BtreeOrder.RightBlockIs` | postgres/contrib/amcheck/verify_nbtree.c:1613-1640 | the steps stop at a page in use, a rightmost or an unreadable one, and otherwise go on |
| `BtreeLevelOrder.WalkIsRow` | postgres/contrib/amcheck/verify_nbtree.c:685-902 | the pages of a walked level that are not half-dead are exactly those found one from the other by the check's own steps to the right |
| `BtreeLevelOrder.OrderIff` | postgres/contrib/amcheck/verify_nbtree.c:1119-1526 | on a level where no empty page stands between two others, all pages pass if and only if the keys of the whole level strictly ascend across pages and respect their high keys |
| `BtreeLevelOrder.WalkAscends` | postgres/contrib/amcheck/verify_nbtree.c:685-902 | a walk that raises nothing over such a level has walked an ascending one |
| `BtreeShape.GapIff` | postgres/contrib/amcheck/verify_nbtree.c:1471-1505 | for a level of any shape, links, flags and line counts given: every choice of keys that passes the walk ascends if and only if no empty page stands between two others |
| `BtreeShape.PaintedLevel` | postgres/contrib/amcheck/verify_nbtree.c:1471-1505 | around such an empty page, keys of the same shape that the walk passes |
| `BtreeShape.PaintedDisorder` | postgres/contrib/amcheck/verify_nbtree.c:1471-1505 | and that do not ascend |
| `BtreeShape.EmptyPageHides` | postgres/contrib/amcheck/verify_nbtree.c:1471-1505 | the instance: three leaves, the middle one empty, with 5 before 3 |
| `HStoreFormat.EntryParts` | postgres/contrib/hstore/hstore.h:23-34 | end position and both flag bits read back from an entry as they were put in |
| `HStoreFormat.Positions` | postgres/contrib/hstore/hstore.h:28-34 | the offset and length macros give each key's and value's place |
| `HStoreFormat.RoundTrip` | postgres/contrib/hstore/hstore.h:75-84 | reading a packed hstore gives back exactly its pairs: keys, values and nulls |
| `HStoreFormat.EncodingIsUnique` | postgres/contrib/hstore/hstore.h:23-84 | a list of pairs has one packed form, byte for byte |
| `HStoreFormat.TwoPairsEncode` | postgres/contrib/hstore/hstore.h:23-84 | the layout of two pairs, one with a null value, byte by byte |
| `HStoreBuild.Builder.AddItem` | postgres/contrib/hstore/hstore.h:112-126 | adds one pair after those before it, which stay as they were |
| `HStoreBuild.Builder.CopyItem` | postgres/contrib/hstore/hstore.h:99-107 | copying a pair's bytes at once does the same |
| `HStoreBuild.CopiedIsAdded` | postgres/contrib/hstore/hstore.h:99-126 | the two macros leave the same memory |
| `HStoreBuild.Builder.Finalize` | postgres/contrib/hstore/hstore.h:129-140 | the memory then holds the packed form of exactly the pairs added, also when fewer than allowed for and the strings must move down over the unused entries |
| `HStoreBuild.Builder.CloseGap` | postgres/contrib/hstore/hstore.h:134-138 | the shrink-and-move case |
| `HStoreBuild.MemMove` | postgres/contrib/hstore/hstore.h:137 | an overlapping move towards lower addresses copies the original bytes |
| `HStore.HStorePairs` | postgres/contrib/hstore/hstore_io.c:445-471 | packs any pairs whose bytes fit the position mask; reading the result gives them back |
| `HStore.HStoreDelete` | postgres/contrib/hstore/hstore_op.c:243-287 | the result is the packed form of exactly the pairs with another key, in order |
| `HStore.WithoutCount` | postgres/contrib/hstore/hstore_op.c:243-287 | what is kept are the pairs with another key, each as often as it was there |
| `HStore.WithoutInOrder` | postgres/contrib/hstore/hstore_op.c:243-287 | and in order |

## Left out

- Buffer manager, write-ahead log, free space map tree, memory contexts and error text: a page lock held is one step, an aborted page copy is discarded, free blocks are a set.
- Bloom options parsing, cost estimates and operator class validation: straight-line code without state.
- The scan signature is computed afresh for each scan; the source keeps it between calls of one scan.
- `serial` in a bloom tuple is not stored by the program; it names the insert that wrote the tuple so that "still in the index" has a meaning for equal tuples.
- BloomSignature.SignValue: requires a seed that does not leave state zero, because for the two that do every drawn bit number is -1; `BloomSignature.BitIndexInRangeIff` states this exactly.
- Byte layout of bytea keys (varlena headers, alignment), penalty functions, text with multibyte characters, and the bit type's separate node form.
- VarSplit.PickSplit: does not sort; it takes the sorted order as an argument.
- NumKey.PickSplit: does not sort; it takes the order as an argument.
- CubeTree.SearchExact: does not cover contained-by, which `CubeTree.ContainedBySearchExact` treats under the condition of `Cube.ContainedByIff`.
- CubeTree.PickSplit: does not say which side an entry goes to, since sizes are only a heuristic.
- CubeDistance.SquaredEuclid: stops before the square root, which is monotone and so keeps the bound.
- Rounding, infinities and NaN in cube coordinates and numeric keys.
- Cube text input and output, subsetting, enlarging and intersection; transitivity of the cube comparison across dimensions is not claimed.
- HeapChain.PageCheck.Check: says when reports are made, not their wording; the check of a single tuple is an input, and so is whether xmin is still in progress when asked again; pages skipped by the visibility map are not modelled, and the page header's line pointer count is taken to be below 2048.
- The free block an insert takes is removed from the map and its page examined in one step of `BloomProtocol`; the source takes it off before it locks the page, and cleanup may add it again in between.
- XidWiden.WidenExact: requires the next id to be more than 2^31 below 2^64, where the 64-bit subtraction cannot wrap.
- Multixact ranges, which the checker treats like xids but without widening.
- BtreeWalk.CheckLevel: readonly mode only, without the child and downlink checks, among them the child high key check with its own loop along the level below, the rechecks for concurrent splits, posting lists and old index versions; the check of one page is an argument.
- BtreeOrder.RightPageKey: requires that stepping right over half-dead and deleted pages ends, since otherwise the source's loop does not; `BtreeReturn.ReturnsIff` models that case step by step.
- BtreeOrder.TargetPageCheck: requires the same of a page that looks right, for the same reason.
- Keys of the B-tree come from the integers, which stand for any total order; truncated pivot attributes are part of that order.
- Old hstore versions, duplicate removal and the remaining hstore operators, which use the same three macros.
- HStore.HStoreDelete: takes the pairs the input packs as a ghost argument and requires its size to fit a varlena header.
- dblink, file_fdw, text search dictionaries, fuzzystrmatch and the policy generators and benchmark scripts of the repository itself: input and output, or templates.

# Verified model of index and data type extensions

This project models the hard parts of six groups of PostgreSQL extension modules, as shipped
under `contrib`, and proves what they promise.  Most of them are indexes, checkers or codecs
that must agree with something simpler, and the main theorems state that agreement for all
inputs, all runs or all reachable states.

* **btree_gist, variable-length keys** (`ByteStrings`, `BtreeGistVar`).  Node keys are cut to
  a common prefix and two bytes.  An inductive invariant, stronger than "between the bounds",
  shows that no nesting of unions and leaf splits ever loses a row.  Splitting pages of keys
  that are already cut can lose one; when a query can miss a row is decided exactly, and an
  example page is given.
* **bloom** (`BloomSignature`, `BloomPage`, `BloomProtocol`, `BloomInvariant`, `BloomRuns`,
  `BloomIndex`).  The random generator in 32-bit arithmetic, the page layout, the in-place
  compaction, and the access method twice: as methods over an index whose content is a
  multiset of tuples, and as an interleaving state machine of any number of backends with page
  locks, for which conservation, completeness of scans and completeness of vacuum are proved
  over whole runs.
* **amcheck for B-trees** (`BtreeKeys`, `BtreePages`, `BtreeLevels`, `BtreeFits`,
  `VerifyNbtree`, `BtreeVerified`, `BtreeHealthy`).  The read-only verifier as a class with the
  fields it carries from page to page.  What a run without an error guarantees: when exactly
  the items of a level are in order, and when exactly its downlinks lead along the whole of
  the next level.  And which indexes pass: all that are in order and have no half-dead page.
* **amcheck for toasted values** (`VerifyToast`).
* **hstore** (`Hstore`, `HstoreBuilder`, `HstoreText`, `HstoreGrammar`, `HstoreIo`,
  `HstoreSubs`, `HstoreCompat`, `HstoreOp`, `HstoreGist`).  The packed format down to the memory
  it is built in, the parser as exactly the language it accepts, the printer and the round
  trip, subscript assignment by merging, the upgrade
  of the old layout in place, binary search, and the signature index, exact for every way its
  keys can have come about.
* **cube** (`Cube`, `CubeDistance`, `CubeGist`).  Boxes of mixed dimension over real numbers,
  pruning, splitting, and lower bounds for nearest neighbour search, for every way the keys
  of the index can have come about.
* **The binary row formatter** (`Formatter`): an incremental decoder that is right for every
  way of cutting its input.

`GistTree` holds the scan theorem that the three GiST operator classes share; `Sequences`,
`Optional` and `CInts` hold common definitions.

Where the source mutates an object, a buffer or an array, the model is a class or a method
with the same loops, proved against functions on values; the theorems are about those
functions.  Clocks, I/O, memory contexts and write-ahead logging do not occur.  The following
come in as parameters: hash functions and CRC-32, the result of `qsort` (any sorted
permutation), the square root, the cost functions of the split algorithms, the set of dead
heap pointers given to vacuum, and in the verifier a bound on the pages a loop reads before a
pending interrupt ends the query, for which every value is covered.

Places where the code and a natural reading of its purpose, or its comments, differ are
modelled as the code is and stated exactly:

* Splitting an inner page of a btree_gist index can make a row unreachable.  The key of a side
  does so to a row below an entry if and only if its upper bound strictly extends a bound of
  the entry that was cut short before, by more than 0xFF bytes, and its lower bound is not a
  prefix of its upper one.
* Two hash values per column leave the bloom generator stuck, and then bits fall outside the
  signature.
* An hstore in the old layout is mistaken for one in the new layout if and only if it is
  smaller than 32768 bytes and its first value is null with a stored length of at least 32768.
* A cube index prunes a match for contained-by if and only if the query has dimensions the
  matching cube lacks and does not meet a key above it in them.
* A verified B-tree has downlinks that follow the next level if and only if they point to
  pages with a well-formed right link.  The items of a verified level are in order if and only
  if they are across its empty pages, which the verifier does not compare.
* A toasted value with a stored size of 0 passes if and only if its chunks are those of a value
  of 2^32 bytes.
* The row formatter compares with NaN to recognise a null float, which never succeeds, so a
  null float comes back as a NaN that is not null.

## Model

| member | source | states |
|---|---|---|
| BtreeGistVar.NodeCommonPrefix | contrib/btree_gist/btree_utils_var.c:121-162 | the loop returns the length of the longest common prefix of the two bounds |
| BtreeGistVar.BinUnion | contrib/btree_gist/btree_utils_var.c:233-277 | the lesser of the two lower bounds and the greater of the two upper bounds, or the entry itself the first time |
| BtreeGistVar.Union | contrib/btree_gist/btree_utils_var.c:322-357 | the key of a page: the span of all entries, cut to common prefix plus two bytes |
| BtreeGistVar.SplitAt | contrib/btree_gist/btree_utils_var.c:511-544 | the loop deals the sorted entries out to the two sides, each with the span of its entries |
| BtreeGistVar.PickSplit | contrib/btree_gist/btree_utils_var.c:458-547 | the sides are the two halves of the sorted offsets, and both spans are cut at the longer of the two common prefixes |
| BtreeGistVar.JoinBounds | contrib/btree_gist/btree_utils_var.c:233-277 | the span of any list of keys bounds every key of the list from both sides |
| BtreeGistVar.JoinAttained | contrib/btree_gist/btree_utils_var.c:233-277 | and its bounds are those of keys in the list, so the span is the least one |
| BtreeGistVar.CutKeepsPrefix | contrib/btree_gist/btree_utils_var.c:204-228 | cutting behind the common prefix does not change the common prefix |
| BtreeGistVar.CutCovers | contrib/btree_gist/btree_utils_var.c:204-228 | a cut span covers, in the sense of the inductive invariant, every value that an entry inside the span covers, unless the entry hides values |
| BtreeGistVar.UnionCovers | contrib/btree_gist/btree_utils_var.c:322-357 | a union covers every value that one of its entries covers, whether these are leaf or already cut keys |
| BtreeGistVar.HalvesCover | contrib/btree_gist/btree_utils_var.c:511-544 | both keys of a leaf page split cover the values of their side |
| BtreeGistVar.BuiltKeyCovers | contrib/btree_gist/btree_utils_var.c:322-357 | the invariant holds for every nesting of unions and leaf splits: lower bound below, and upper bound above or a prefix that reaches beyond the common prefix |
| BtreeGistVar.CoveredIsConsistent | contrib/btree_gist/btree_utils_var.c:554-612 | the consistent test accepts every query that a covered value satisfies, for all strategies, by comparison or by prefix match |
| BtreeGistVar.ConsistentIsPossible | contrib/btree_gist/btree_utils_var.c:554-612 | the consistent test accepts a query only if some value that the key covers satisfies it, or if the query extends one of the two bounds |
| BtreeGistVar.NoLeafLost | contrib/btree_gist/btree_utils_var.c:553-612 | no row below a built key is ever lost to truncation |
| BtreeGistVar.EachOnOneSide | contrib/btree_gist/btree_utils_var.c:514-528 | if the sorted offsets are an order of all offsets, each goes to exactly one side |
| BtreeGistVar.LeafSplitIsBuilt | contrib/btree_gist/btree_utils_var.c:458-547 | on leaf entries the two keys are those of the halves of the page that the invariant speaks of |
| BtreeGistVar.SplitKeepsIff | contrib/btree_gist/btree_utils_var.c:529-544 | a half covers, in the sense of the invariant, everything that an entry covers if and only if its cut bound does not strictly extend an already cropped bound of the entry by more than 0xFF bytes |
| BtreeGistVar.SplitLosesIff | contrib/btree_gist/btree_utils_var.c:529-544 | a half makes a value below an entry unreachable for some query if and only if its upper bound extends a cropped bound of the entry in that way and its lower bound is not a prefix of its upper one |
| BtreeGistVar.PrefixIsConsistent | contrib/btree_gist/btree_utils_var.c:191-196 | a value that has the lower bound as a prefix is always found, by prefix match or by comparison |
| BtreeGistVar.InnerSplitLosesRow | contrib/btree_gist/btree_utils_var.c:511-544 | a concrete inner page of four entries over leaf pages; the key that the split gives the left side rejects the equality query for a row below its first entry |
| BtreeGistVar.ScanIsExact | contrib/btree_gist/btree_utils_var.c:554-612 | in every tree of keys built by unions and leaf splits, a scan returns exactly the matching values, in order |
| GistTree.SearchIsExact | contrib/cube/cube.c:390-416 | for every GiST tree whose keys hide no hit, following consistent entries returns exactly the hits, in order |
| GistTree.ReachedIsExact | contrib/cube/cube.c:390-416 | for every GiST tree, the scan returns exactly the hits if and only if every key above a hit is followed |
| BloomSignature.SeededRange | contrib/bloom/blutils.c:249-254 | which states seeding leaves, negative ones included, and that exactly two seeds leave 0 |
| BloomSignature.SeededIs | contrib/bloom/blutils.c:249-254 | the state that each of the 2^32 seeds leaves, in closed form |
| BloomSignature.StepIsParkMiller | contrib/bloom/blutils.c:222-246 | one step is multiplication by 16807 modulo 2^31 - 1 with no intermediate outside 32 bits; only 0 stays 0 |
| BloomSignature.Generator.Rand | contrib/bloom/blutils.c:222-246 | the new state and the result one below it |
| BloomSignature.Generator.Srand | contrib/bloom/blutils.c:249-254 | the state after storing an unsigned seed in a signed variable |
| BloomSignature.DrawsInside | contrib/bloom/blutils.c:260-287 | every bit drawn lies inside the signature if and only if the generator is not stuck at 0 |
| BloomSignature.DrawsAre | contrib/bloom/blutils.c:260-287 | from a state that is not stuck, the positions drawn are, for j from 1 to the count, 16807 to the power j times the state modulo 2^31 - 1, minus one, modulo the number of bits |
| BloomSignature.StuckHashes | contrib/bloom/blutils.c:260-287 | per column exactly two hash values leave the generator stuck |
| BloomSignature.SaltIs | contrib/bloom/blutils.c:271-279 | the salt of a column is 16807 times its number counted from 1, minus one, so different columns have different salts |
| BloomSignature.XorBitAt | contrib/bloom/blutils.c:279-279 | a bit of the salted hash is set where hash and salt differ |
| BloomSignature.ValueBitsAre | contrib/bloom/blutils.c:260-287 | the bits of a value, spelled out from column number, hash and bit count |
| BloomSignature.SignValue | contrib/bloom/blutils.c:260-287 | the signature gains exactly the bits of the value, which depend on column and hash only; with a stuck generator only its first word changes and loses no bit |
| BloomSignature.WordsCover | contrib/bloom/blscan.c:165-173 | the word by word test is inclusion of bit sets |
| BloomPage.FitsIff | contrib/bloom/bloom.h:152-155 | the free space macro is a count of tuples, and a tuple that fits ends before the special area |
| BloomPage.EmptyPageTakesTuple | contrib/bloom/blinsert.c:342-351 | the error for an empty page without room is unreachable, for every legal block size and signature length |
| BloomPage.StoredUpdate | contrib/bloom/blutils.c:318-345 | replacing one page replaces exactly its tuples in the content of the index |
| BloomPage.PageBuffer.constructor | contrib/bloom/blinsert.c:248-249 | a working copy has the image of the page |
| BloomPage.PageBuffer.Init | contrib/bloom/blutils.c:407-416 | the image becomes an empty page that is not deleted |
| BloomPage.PageBuffer.AddItem | contrib/bloom/blutils.c:318-345 | the tuple is appended if and only if the page has room, and maxoff and pd_lower agree |
| BloomPage.PageBuffer.Compact | contrib/bloom/blvacuum.c:81-137 | in-place compaction leaves exactly the survivors in order, flags an emptied page, and counts the removed tuples |
| BloomPage.VacuumedIs | contrib/bloom/blvacuum.c:120-137 | a page in use keeps exactly its survivors, and is flagged deleted if and only if it had tuples and lost them all |
| BloomInvariant.FastPathKeepsInv | contrib/bloom/blinsert.c:231-277 | every step of the unlocked look at the first not full page keeps the invariant |
| BloomInvariant.SlowPathKeepsInv | contrib/bloom/blinsert.c:279-336 | every step under the exclusive metapage lock keeps the invariant |
| BloomInvariant.NewBufferKeepsInv | contrib/bloom/blutils.c:353-401 | every step of finding or making a page, and of filling it, keeps the invariant |
| BloomInvariant.VacuumStepKeepsInv | contrib/bloom/blvacuum.c:58-158 | every step of vacuum keeps the invariant |
| BloomInvariant.ScanKeepsInv | contrib/bloom/blscan.c:136-186 | every step of a scan keeps the invariant |
| BloomInvariant.CleanupKeepsInv | contrib/bloom/blvacuum.c:169-217 | every step of cleanup keeps the invariant |
| BloomInvariant.BeginKeepsInv | contrib/bloom/blscan.c:137-142 | the start of any call keeps the invariant; a scan begins with an account of all that is there |
| BloomInvariant.StepKeepsInv | contrib/bloom/blinsert.c:231-362 | every step of every backend keeps the invariant: mutual exclusion, empty reusable pages, metapage bounds, and the balance of each page |
| BloomRuns.RunKeepsInv | contrib/bloom/blinsert.c:231-362 | the invariant holds at every point of every interleaving |
| BloomRuns.Conservation | contrib/bloom/blinsert.c:231-362 | at every point of every run, stored tuples plus removed ones are exactly those of the inserts that returned, and reusable pages are empty |
| BloomRuns.ScanIsComplete | contrib/bloom/blscan.c:136-186 | a scan that runs among inserts and vacuums reads everything that was there when it began and not removed since, and nothing that was never inserted |
| BloomRuns.VacuumIsComplete | contrib/bloom/blvacuum.c:58-139 | when a vacuum has passed its pages no dead tuple is left in the index, if since the start of this vacuum no tuple with one of its dead pointers was being inserted |
| BloomIndex.MatchIsCovered | contrib/bloom/blscan.c:108-134 | the signature of a matching row covers the signature of the scan |
| BloomIndex.RowBitsAre | contrib/bloom/blutils.c:293-311 | a bit of a row is set if and only if some value that is not null sets it for its column |
| BloomIndex.ScanBitsAre | contrib/bloom/blscan.c:108-134 | the same for the bits of a scan |
| BloomIndex.FormTuple | contrib/bloom/blutils.c:293-311 | a tuple with the signature of the non-null columns of the row |
| BloomIndex.AddToPage | contrib/bloom/blinsert.c:248-262 | a page that may be reused is started afresh, and the tuple is added if and only if there is room |
| BloomIndex.VacuumPage | contrib/bloom/blvacuum.c:81-137 | a page in use becomes its vacuumed image, with the number of removed tuples |
| BloomIndex.StoredVacuumed | contrib/bloom/blvacuum.c:58-139 | vacuuming all pages removes exactly the tuples with dead heap pointers |
| BloomIndex.SignCovers | contrib/bloom/blscan.c:165-173 | the word loop decides inclusion of the scan signature |
| BloomIndex.ScanPage | contrib/bloom/blscan.c:155-182 | the tuple loop collects exactly the covering tuples and counts them |
| BloomIndex.Index.constructor | contrib/bloom/blinsert.c:121-158 | after a build every heap row is live and has its tuple |
| BloomIndex.Index.FlushCachedPage | contrib/bloom/blinsert.c:47-58 | the cached page becomes the last page of the index |
| BloomIndex.Index.BuildCallback | contrib/bloom/blinsert.c:74-115 | the tuple joins the cached page if that has room; otherwise the cached page is appended to the index and a new one begins with the tuple |
| BloomIndex.Index.NewBuffer | contrib/bloom/blutils.c:353-401 | a free page that was recorded, or a new page at the end if no recorded page is free; nothing stored changes |
| BloomIndex.Index.Insert | contrib/bloom/blinsert.c:199-368 | the index gains exactly the tuple of the row, and the metapage stays within its bounds |
| BloomIndex.Index.Place | contrib/bloom/blinsert.c:231-362 | the tuple goes to the first listed page that takes it, where the list then starts; only if no listed page takes it, to a fresh page that becomes the only listed one |
| BloomIndex.Index.InsertIntoNewPage | contrib/bloom/blinsert.c:338-356 | the tuple is alone on a fresh page, and the list in the metapage is reset to this page |
| BloomIndex.Index.BulkDelete | contrib/bloom/blvacuum.c:34-161 | exactly the tuples with dead heap pointers are gone, with their number, and the metapage lists the first pages with room |
| BloomIndex.Index.VacuumPages | contrib/bloom/blvacuum.c:58-139 | every page becomes its vacuumed image, and the new list holds, in order and as far as the metapage has room, exactly the pages with tuples and room for more |
| BloomIndex.RoomyIs | contrib/bloom/blvacuum.c:113-120 | a block is among the pages with room if and only if its page has tuples and room for one more |
| BloomIndex.RoomyAscends | contrib/bloom/blvacuum.c:113-120 | and they are in ascending order |
| BloomIndex.Index.VacuumCleanup | contrib/bloom/blvacuum.c:169-217 | exactly the reusable pages are recorded as free and counted, and the tuples are counted |
| BloomIndex.Index.ScanSignature | contrib/bloom/blscan.c:108-134 | the signature of the scan, or nothing if a key is null |
| BloomIndex.Index.GetBitmap | contrib/bloom/blscan.c:81-190 | exactly the rows whose signature covers that of the scan, among them every live row that matches all keys |
| BtreeKeys.LessTransitive | contrib/amcheck/verify_nbtree.c:2774-2825 | the order on possibly truncated keys is transitive |
| BtreeKeys.LessTotal | contrib/amcheck/verify_nbtree.c:2774-2825 | and total |
| BtreeKeys.InvariantsDecideOrder | contrib/amcheck/verify_nbtree.c:2774-2940 | the three comparison helpers decide that order, also for truncated keys |
| BtreePages.WholeChainUnique | contrib/amcheck/verify_nbtree.c:837-847 | right links determine the chain from a block to the end |
| BtreePages.WholeChainDistinct | contrib/amcheck/verify_nbtree.c:837-847 | no block occurs twice on a chain that ends |
| VerifyNbtree.BtreeCheckState.Palloc | contrib/amcheck/verify_nbtree.c:2957-3118 | a page that is returned has passed the sanity checks |
| VerifyNbtree.BtreeCheckState.DownlinkMissingCheck | contrib/amcheck/verify_nbtree.c:2262-2427 | no error means the page is a root, or its left neighbour is incompletely split, or a half-dead leaf down its leftmost path names it as top parent; and in these cases, if the path is sane and not too long, there is no error |
| VerifyNbtree.BtreeCheckState.LeftmostPath | contrib/amcheck/verify_nbtree.c:2336-2421 | the same for the loop down the leftmost path |
| VerifyNbtree.BtreeCheckState.ChildPageCheck | contrib/amcheck/verify_nbtree.c:1896-2062 | what is known of one child page that was passed: level, excuse, and high key equal to the pivot; and which pages pass |
| VerifyNbtree.BtreeCheckState.WalkRound | contrib/amcheck/verify_nbtree.c:1889-2081 | one page of the walk on the child level, what it adds to the picture, and that a page on a right way is passed |
| VerifyNbtree.BtreeCheckState.ChildHighkeyCheck | contrib/amcheck/verify_nbtree.c:1851-2081 | one call extends the picture of the child level by the walk to the next downlink; the last call completes it; and a call succeeds if the pages in between may be passed and the child fits |
| VerifyNbtree.BtreeCheckState.ChildCheck | contrib/amcheck/verify_nbtree.c:2097-2246 | no error means the child is not deleted and all its real items are above the downlink key; and such a child that fits raises none |
| VerifyNbtree.BtreeCheckState.RightPageCheckScankey | contrib/amcheck/verify_nbtree.c:1572-1771 | no error if and only if the pages to the right are sane up to the first live or last one, within the patience; the key returned is the first real item of that page, however many ignored pages lie between |
| VerifyNbtree.BtreeCheckState.ItemCheck | contrib/amcheck/verify_nbtree.c:1394-1533 | no error if and only if the item respects the high key, the next item and, if it is the last, the first item found to the right |
| VerifyNbtree.BtreeCheckState.OffsetCheck | contrib/amcheck/verify_nbtree.c:1118-1537 | one round of the item loop, minus infinity items included |
| VerifyNbtree.BtreeCheckState.TargetPageCheck | contrib/amcheck/verify_nbtree.c:1073-1553 | no error means the page is in order in itself and to the right, its children are bounded, and its downlinks have been followed; and a page that fits raises none |
| BtreeLevels.ReachedDownlink | contrib/amcheck/verify_nbtree.c:1896-2081 | the pages passed between two downlinks fit into the picture of the level |
| BtreeLevels.WalkFinishes | contrib/amcheck/verify_nbtree.c:1539-1552 | the final walk reaches the end of the child level |
| BtreeLevels.IgnoredRound | contrib/amcheck/verify_nbtree.c:723-755 | a half-dead page keeps what is known, except that its high key may stand in for the last separator |
| BtreeLevels.LiveRound | contrib/amcheck/verify_nbtree.c:814-883 | a live page extends what is known, and its high key becomes the low key of the next page |
| VerifyNbtree.BtreeCheckState.LevelRound | contrib/amcheck/verify_nbtree.c:714-883 | one page of the loop over a level, and that a page that fits passes |
| VerifyNbtree.BtreeCheckState.CheckLevel | contrib/amcheck/verify_nbtree.c:685-901 | no error means the pages form a whole chain, all tests hold of every live page, and the downlinks lead along the whole child level; and a level that fits raises none |
| VerifyNbtree.BtreeCheckState.CheckEveryLevel | contrib/amcheck/verify_nbtree.c:577-596 | no error means every level from the root down has been verified; and a tree that fits raises none |
| BtreeVerified.LevelSorted | contrib/amcheck/verify_nbtree.c:711-888 | in a verified level all real items are strictly increasing from the leftmost page to the rightmost if and only if they are across every gap, that is, between pages with real items that have only live pages without any between them |
| BtreeVerified.LevelMirrored | contrib/amcheck/verify_nbtree.c:711-888 | the live pages of a verified level share the level and mirror each other's links, and no block repeats |
| BtreeVerified.AcrossPages | contrib/amcheck/verify_nbtree.c:1572-1771 | the last item of a page is below the first item of the next filled page, if only ignored pages lie between |
| BtreeVerified.EmptyPageHidesDisorder | contrib/amcheck/verify_nbtree.c:1750-1763 | a concrete index that passes as a whole although an empty page hides that the items around it are out of order |
| BtreeVerified.DownlinksFollowChain | contrib/amcheck/verify_nbtree.c:1851-2081 | in a verified tree the downlinks of a level, in key order, are an in-order subsequence of the pages of the next level, skipped live pages are excused and high keys equal separators, if and only if the downlinks point to pages with a well-formed right link |
| BtreeVerified.MissingChildPasses | contrib/amcheck/verify_nbtree.c:1889-1907 | a concrete index of three levels that passes as a whole although a page has no child and the downlinks of its level do not lead along the next one |
| BtreeVerified.NoneLoose | contrib/amcheck/verify_nbtree.c:723-755 | below a level with sane downlinks no inner level has a half-dead page, so every high key passed between two downlinks there equals the separator |
| BtreeVerified.ChildWithinSeparators | contrib/amcheck/verify_nbtree.c:2097-2246 | the items of a live child lie above the downlink key and not above the next separator |
| BtreeVerified.PlacedIsSane | contrib/amcheck/verify_nbtree.c:1889-1907 | downlinks that lie on a whole chain point to pages with a well-formed right link |
| BtreeHealthy.LinkLeads | contrib/amcheck/verify_nbtree.c:1851-2081 | without half-dead pages, the walk from one downlink leads to the next one over pages that may be passed, and from the last one out of the level |
| BtreeHealthy.HealthyFits | contrib/amcheck/verify_nbtree.c:577-596 | an index in order, with sane downlinks, without half-dead pages and without a page behind the last downlink of a level that would have to match a separator fits all tests |
| BtreeHealthy.CheckHealthy | contrib/amcheck/verify_nbtree.c:577-596 | a run over such an index, with patience for as many pages as it has, ends without an error |
| BtreeHealthy.FinishedIsHealthy | contrib/amcheck/verify_nbtree.c:577-596 | it is enough that the index is in order, its downlinks are sane, and no page is half-dead or incompletely split |
| BtreeHealthy.TwoLeavesHealthy | contrib/amcheck/verify_nbtree.c:1493-1494 | a concrete index of a root over two leaves with neighbouring items is one |
| VerifyToast.HeapCheckContext.CheckToastTuple | contrib/amcheck/verify_heapam.c:1195-1278 | exactly the reports that are true of the chunk; nothing if and only if it has the expected number, valid data and the expected size |
| VerifyToast.ReportsAre | contrib/amcheck/verify_heapam.c:1195-1278 | a report is made about a chunk if and only if it is true of it, and none if and only if the chunk fits |
| VerifyToast.HeapCheckContext.CheckToastedAttribute | contrib/amcheck/verify_heapam.c:1466-1516 | nothing is reported if and only if the rows are exactly the pieces of the value, numbered from 0 without gap or repeat, where a stored size of 0 wraps around to 2^32; what is reported when there is no row, and when only the last ones are missing |
| VerifyToast.PiecesAt | contrib/amcheck/verify_heapam.c:1199-1271 | the closed form of the pieces: full chunks and the rest, as many as last_chunk_seq says |
| VerifyToast.ChunksAddUp | contrib/amcheck/verify_heapam.c:1270-1278 | the chunk sizes of a value about which nothing is reported sum to its size |
| Hstore.Difference | contrib/hstore/hstore_io.c:289-310 | the comparison of keys is by length, then by bytes |
| Hstore.Unpack | contrib/hstore/hstore.h:28-34 | the packed form decodes to exactly the pairs it was made of |
| Hstore.DescribedAt | contrib/hstore/hstore.h:31-34 | offset and length macros find key and value of each pair |
| Hstore.DescribedDecodes | contrib/hstore/hstore.h:79-83 | a datum decodes to the pairs its entries describe, whatever follows its string area |
| HstoreBuilder.Builder.constructor | contrib/hstore/hstore_io.c:397-400 | a block of the computed size with nothing written yet |
| HstoreBuilder.Builder.AddItem | contrib/hstore/hstore.h:112-126 | two entries and the bytes of the pair are appended; no write leaves the block |
| HstoreBuilder.Builder.CopyItem | contrib/hstore/hstore.h:99-106 | the same for a pair copied from a packed source |
| HstoreBuilder.Builder.Finalize | contrib/hstore/hstore.h:129-140 | the memory holds the flagged entries with the string area right behind them, also when fewer pairs were written than allowed for |
| HstoreBuilder.Builder.MoveDown | contrib/hstore/hstore.h:134-138 | the string area lies right behind the entries in use, which stay |
| HstoreBuilder.MovedDown | contrib/hstore/hstore.h:134-138 | moving the string area down over unused entries keeps both |
| HstoreBuilder.HstorePairs | contrib/hstore/hstore_io.c:388-414 | the packed form of the pairs, unless it is too large to allocate |
| HstoreSubs.Merge | contrib/hstore/hstore_subs.c:214-251 | the merge loop writes the updated pairs, never more than was allocated |
| HstoreSubs.Assign | contrib/hstore/hstore_subs.c:143-258 | the packed form of the old pairs updated at one key, for null and other containers, and exactly when each error is raised |
| HstoreSubs.Replaced | contrib/hstore/hstore_subs.c:191-254 | the packed form of the updated pairs fits what was allocated for it |
| HstoreSubs.UpdatedCanonical | contrib/hstore/hstore_subs.c:214-251 | the updated pairs are canonical again |
| HstoreSubs.UpdatedMaps | contrib/hstore/hstore_subs.c:214-251 | as a map, the result is the old map with one key set |
| HstoreSubs.WrittenRoom | contrib/hstore/hstore_subs.c:203-207 | what is written takes no more room than the old pairs and the new one |
| HstoreCompat.ValidOldFormat | contrib/hstore/hstore_compat.c:171-229 | nonzero if and only if the value is a contiguous old-layout value inside its datum |
| HstoreCompat.NoWrap | contrib/hstore/hstore_compat.c:212-223 | wrap-around of the end position cannot make an oversized value look small |
| HstoreCompat.ValidNewFormat | contrib/hstore/hstore_compat.c:119-162 | nonzero if and only if flagged or in the new layout inside its datum |
| HstoreCompat.Overwrite | contrib/hstore/hstore_compat.c:319-344 | the entry array overwritten in place holds the new entries of all old ones |
| HstoreCompat.Upgrade | contrib/hstore/hstore_compat.c:236-347 | an old value keeps its pairs if and only if it is not mistaken for a new one, then with an exact size; any other value that is accepted keeps its entries; when an error is raised |
| HstoreCompat.UnflaggedDecodes | contrib/hstore/hstore_compat.c:258-277 | a value in the new layout that only lacks the version flag keeps its pairs |
| HstoreCompat.NotTaken | contrib/hstore/hstore_compat.c:250-256 | an old value looks new if and only if it is small and its first value is null with a stored length of at least 32768 |
| HstoreCompat.TakenForNew | contrib/hstore/hstore_compat.c:250-256 | such a value loses its null |
| HstoreCompat.MistakenIsOld | contrib/hstore/hstore_compat.c:250-256 | a concrete one: the pair a => NULL in the old layout |
| HstoreCompat.UpgradeMistaken | contrib/hstore/hstore_compat.c:236-347 | the upgrade of that value does not decode to a => NULL |
| HstoreCompat.RewrittenDecodes | contrib/hstore/hstore_compat.c:319-344 | the rewritten value decodes to the same keys, values and nulls |
| HstoreText.GetValMoves | contrib/hstore/hstore_io.c:60-174 | a word ends inside the input, behind where it began |
| HstoreText.EscapedIs | contrib/hstore/hstore_io.c:1152-1163 | the printed form of a string is longer by one byte for each quote and backslash, and without any it is the string itself |
| HstoreGrammar.DocParsed | contrib/hstore/hstore_io.c:184-286 | every text of the language is parsed as the pairs it means: words in quotes or bare, with backslashes, white space around every part, a bare null in any case, a comma at the end |
| HstoreGrammar.DocInverse | contrib/hstore/hstore_io.c:184-286 | every input that is parsed into pairs is such a text |
| HstoreGrammar.ParseIsMeaning | contrib/hstore/hstore_io.c:184-286 | the parser returns a list of pairs if and only if the input is a text of the language that means this list |
| HstoreGrammar.PrintParses | contrib/hstore/hstore_io.c:184-286 | parsing printed pairs gives back exactly these pairs, nulls included |
| HstoreGrammar.PrintedSample | contrib/hstore/hstore_io.c:1167-1233 | the bytes printed for a pair with a quote and a pair with a null |
| HstoreIo.HSParser.ReadVal | contrib/hstore/hstore_io.c:60-174 | the loop is the state machine, and the word buffer is never overrun |
| HstoreIo.HSParser.ParseHstore | contrib/hstore/hstore_io.c:184-286 | the loop is the state machine over words |
| HstoreIo.UniquePairs | contrib/hstore/hstore_io.c:319-364 | the first pair of each run of equal keys, in place, and the exact length of the string area |
| HstoreIo.FirstsCanonical | contrib/hstore/hstore_io.c:319-364 | the result is strictly sorted by key |
| HstoreIo.FirstsKeepKeys | contrib/hstore/hstore_io.c:319-364 | a key survives if and only if it was there |
| HstoreIo.FirstsWereThere | contrib/hstore/hstore_io.c:319-364 | every pair that survives was there |
| HstoreIo.SortingIsUnique | contrib/hstore/hstore_io.c:289-310 | sorting leaves a canonical list as it is, whatever qsort does with ties |
| HstoreIo.HstoreIn | contrib/hstore/hstore_io.c:419-434 | the packed form of the unique pairs, or the error of the parser |
| HstoreIo.OutText.Cpw | contrib/hstore/hstore_io.c:1152-1163 | the escaped bytes are appended within twice their room |
| HstoreIo.PieceRoom | contrib/hstore/hstore_io.c:1191-1199 | the precomputed size has room for each printed pair and the final zero |
| HstoreIo.HstoreOut | contrib/hstore/hstore_io.c:1167-1233 | the printed text and its terminating zero stay inside the buffer |
| HstoreIo.TextRoundTrip | contrib/hstore/hstore_io.c:1151-1233 | for every canonical hstore without zero bytes, reading what was printed gives back the same pairs, for every way qsort may order them |
| HstoreOp.FindKey | contrib/hstore/hstore_op.c:36-70 | binary search from a cached lower bound finds the key if it is there, and the new bound is safe |
| HstoreOp.HstoreContains | contrib/hstore/hstore_op.c:967-1010 | true if and only if every pair of the template is a pair of the value |
| HstoreGist.CompressLeaf | contrib/hstore/hstore_gist.c:147-176 | the least signature that has the bit of every key and value |
| HstoreGist.LeafBits | contrib/hstore/hstore_gist.c:157-170 | a bit of a leaf key is set if and only if some key or value has it as its CRC-32 modulo the number of bits |
| HstoreGist.CompressInner | contrib/hstore/hstore_gist.c:177-197 | the same bits, flagged if and only if all are set |
| HstoreGist.Union | contrib/hstore/hstore_gist.c:303-327 | a bit is set if and only if some entry has it |
| HstoreGist.Hemdist | contrib/hstore/hstore_gist.c:274-287 | the number of bits in which two keys differ, the flag counting as all ones |
| HstoreGist.DifferCounts | contrib/hstore/hstore_gist.c:274-287 | which is the size of the set of bits in which they differ |
| HstoreGist.Seeds | contrib/hstore/hstore_gist.c:390-414 | two different offsets of greatest distance among all but the last |
| HstoreGist.Absorb | contrib/hstore/hstore_gist.c:459-469 | the signature of a side gains exactly the bits of the entry |
| HstoreGist.Deal | contrib/hstore/hstore_gist.c:438-489 | one offset joins a side, the seeds their own, and the key of the side gains exactly the bits of the entry |
| HstoreGist.PickSplit | contrib/hstore/hstore_gist.c:358-497 | every offset is on exactly one side, both sides are nonempty, and each key is the union of the entries of its side, for every order by cost |
| HstoreGist.SplitIsBuilt | contrib/hstore/hstore_gist.c:358-497 | both keys of a split of any page, leaf or inner, are built from the parts of their side, and no part is lost |
| HstoreGist.BuiltKeyCovers | contrib/hstore/hstore_gist.c:303-327 | every key that any nesting of leaf compression, inner compression, union and split can build covers every hstore below it |
| HstoreGist.BuiltKeyAdmits | contrib/hstore/hstore_gist.c:500-607 | every such key admits every query that an hstore below it satisfies |
| HstoreGist.Consistent | contrib/hstore/hstore_gist.c:501-607 | true if and only if the signature has all, or for exists-any one, of the bits the query needs |
| HstoreGist.AdmitsIff | contrib/hstore/hstore_gist.c:501-607 | a signature is admitted if and only if some hstore it covers satisfies the query |
| HstoreGist.ScanIsExact | contrib/hstore/hstore_gist.c:500-607 | in every tree of keys so built, an index scan with recheck returns exactly the hstores that satisfy the query, in order |
| Cube.IsPoint | contrib/cube/cube.c:1529-1549 | true if and only if all corners coincide |
| Cube.Union | contrib/cube/cube.c:747-804 | the least box in the larger dimension, missing dimensions read as 0, whether or not the point flag is set |
| Cube.UnionIsLeast | contrib/cube/cube.c:747-804 | the union covers both cubes and lies inside whatever covers both |
| Cube.CubeContains | contrib/cube/cube.c:1123-1158 | containment on the dimensions of the contained cube |
| Cube.ContainsIsAllPoints | contrib/cube/cube.c:1123-1158 | which is: every point of the one is in the other on these dimensions |
| Cube.CubeOverlap | contrib/cube/cube.c:1193-1228 | the intervals meet in every dimension |
| Cube.OverlapIsSharedPoint | contrib/cube/cube.c:1193-1228 | which is: there is a common point |
| Cube.CubeCmp | contrib/cube/cube.c:936-1013 | the comparison by the first difference, lower ends before upper ends, common dimensions before others, then by dimension |
| Cube.ComparisonTurned | contrib/cube/cube.c:936-1013 | comparing the other way round gives the opposite outcome |
| Cube.CommonEnds | contrib/cube/cube.c:943-961 | the first lower end that differs in a common dimension decides, and only if there is none the first upper end |
| Cube.OtherEnds | contrib/cube/cube.c:963-1009 | then, in the dimensions that only one cube has, the lower ends and after them the upper ends, against 0 |
| Cube.NoEnds | contrib/cube/cube.c:981-1012 | then the number of dimensions |
| Cube.ComparisonDecides | contrib/cube/cube.c:936-1013 | the outcome is unique and 0 if and only if both are the same cube |
| CubeGist.LeafConsistent | contrib/cube/cube.c:678-704 | the test on a leaf is the operator itself |
| CubeGist.InternalConsistent | contrib/cube/cube.c:707-731 | what the test on an inner key decides |
| CubeGist.AncestorAdmits | contrib/cube/cube.c:707-731 | a built key above a matching cube admits the query, except exactly for contained-by when key and query do not meet in dimensions the cube lacks |
| CubeGist.FewDimensionsAdmit | contrib/cube/cube.c:707-731 | so contained-by is safe when the query has no more dimensions than the cube |
| CubeGist.AdmittedIsPossible | contrib/cube/cube.c:707-731 | a key admits a query only if some cube it covers matches, except for equality with a cube that the key does not cover |
| CubeGist.ContainedByPruned | contrib/cube/cube.c:707-731 | a concrete cube and query for which contained-by is pruned |
| CubeGist.BuiltKeyCovers | contrib/cube/cube.c:424-448 | every key that any nesting of unions and splits can build covers every cube below it |
| CubeGist.ScanIsExact | contrib/cube/cube.c:390-416 | in every tree of keys so built, a scan returns exactly the matching cubes, in order; for contained-by if and only if every key meets the query in the dimensions that the matching cubes below it lack |
| CubeGist.GistUnion | contrib/cube/cube.c:424-448 | the least box around all entries, and nothing for a single entry |
| CubeGist.Seeds | contrib/cube/cube.c:548-577 | two different offsets of greatest waste among all but the last |
| CubeGist.Deal | contrib/cube/cube.c:604-647 | one offset joins a side, the seeds their own, and the key of the side becomes the least box that takes in the entry |
| CubeGist.PickSplit | contrib/cube/cube.c:510-654 | each offset on exactly one side, both sides nonempty and in increasing order, each key the least box around the entries of its side, for every cost function |
| CubeGist.SplitIsBuilt | contrib/cube/cube.c:510-654 | both keys of a split of any page, leaf or inner, are built from the parts of their side, and no part is lost |
| CubeDistance.Distance1D | contrib/cube/cube.c:1502-1514 | the gap between two intervals, whichever way round their ends are |
| CubeDistance.GapIsLeast | contrib/cube/cube.c:1502-1514 | the gap is the least distance of two coordinates, and it is attained |
| CubeDistance.DistanceTaxicab | contrib/cube/cube.c:1301-1342 | the sum of the gaps over all dimensions of either cube |
| CubeDistance.DistanceEuclid | contrib/cube/cube.c:1252-1298 | the root of the sum of the squared gaps |
| CubeDistance.DistanceChebyshev | contrib/cube/cube.c:1345-1394 | the greatest gap |
| CubeDistance.DistanceIsLeast | contrib/cube/cube.c:1252-1335 | taxicab and squared Euclidean distance are the least sum of coordinate differences, or of their squares, over the points of the two cubes, and it is attained |
| CubeDistance.ChebyshevIsGreatest | contrib/cube/cube.c:1345-1394 | the Chebyshev distance is the greatest gap over all dimensions, and 0 without dimensions |
| CubeDistance.DistanceIsLowerBound | contrib/cube/cube.c:1397-1499 | for all three metrics the distance to a key the index has built bounds from below the distance to every cube below it |
| CubeDistance.RootIsLowerBound | contrib/cube/cube.c:1397-1499 | the bound survives taking the square root, so it holds of the Euclidean distance itself |
| CubeDistance.CoordMeaning | contrib/cube/cube.c:1643-1698 | odd numbers are lower ends, even ones upper ends, negative numbers their negatives, missing dimensions 0 |
| CubeDistance.CoordIsLowerBound | contrib/cube/cube.c:1404-1473 | on a leaf the index value is that of the operator, for a key the index has built a lower bound of it, for every nonzero number |
| Formatter.LengthRoundTrip | contrib/formatter/gpformatter.c:184-185 | a length read back from its four bytes |
| Formatter.LengthIsLittleEndian | contrib/formatter/gpformatter.c:184-185 | the four bytes of a length, least significant first |
| Formatter.CellLayout | contrib/formatter/gpformatter.c:145-193 | a float is its eight bytes, a string stands behind its length, cut if its column has no limit |
| Formatter.RoomIsSum | contrib/formatter/gpformatter.c:72-107 | the buffer size is the sum of the column widths in wrapping 32-bit arithmetic |
| Formatter.Exporter.constructor | contrib/formatter/gpformatter.c:72-107 | the buffer size, in wrapping 32-bit arithmetic, at least 128 |
| Formatter.Exporter.Export | contrib/formatter/gpformatter.c:136-203 | the encoded row, refused if and only if it does not leave a byte of the buffer free |
| Formatter.Importer.Import | contrib/formatter/gpformatter.c:270-382 | one row decoded from the cursor on; the cursor moves only if the row is complete |
| Formatter.CellComesBack | contrib/formatter/gpformatter.c:302-372 | an encoded cell decodes to its normal form, and any cut of it asks for more |
| Formatter.RowComesBack | contrib/formatter/gpformatter.c:292-377 | the same for the rest of a row from any column on |
| Formatter.NextRow | contrib/formatter/gpformatter.c:292-382 | on a stream of rows one call takes exactly the next row or asks for more |
| Formatter.Importer.Feed | contrib/formatter/gpformatter.c:270-382 | feeding a chunk takes exactly the rows that are complete and leaves the rest unread |
| Formatter.Importer.ImportAll | contrib/formatter/gpformatter.c:270-382 | for every way of cutting the stream into chunks, exactly the exported rows come back in order, and nothing is left over |

## Left out

- BloomSignature.SignValue: does not say what is or-ed into the first word when the generator is stuck, because the shift count is then negative and C leaves the outcome open.
- BloomIndex.Index.GetBitmap: does not promise anything for the two hash values per column that leave the generator stuck, because the signature is then unspecified.
- BloomRuns.VacuumIsComplete: does not cover a heap pointer that is being inserted again while this vacuum is to remove it; heap locking outside the index excludes that.
- BtreeGistVar.NodeCommonPrefix: does not model multibyte encodings, because the bytea class has none; collation-aware text, the bit class and penalties are out for the same reason.
- BtreeGistVar.PickSplit: does not model the memory layout of a key with its alignment padding; keys are pairs of byte strings.
- VerifyNbtree.BtreeCheckState.ChildHighkeyCheck: does not claim anything about high keys behind the last downlink of a level, because the code compares them with a line pointer outside the page; acceptance is claimed where no page there has to match.
- BtreeVerified.DownlinksFollowChain: does not claim, on the root level only, that a high key equals the separator for pages passed between two downlinks when a half-dead page lies between the pages that hold these downlinks, because its dummy high key is compared instead; NoneLoose excludes this for all levels below.
- CubeDistance.DistanceIsLowerBound: does not model rounding, infinities and NaN; coordinates are real numbers.
- HstoreCompat.Upgrade: does not cover other byte orders or bit field layouts than the usual little-endian one; the three further layouts differ only in which bits are read.
- HstoreGist.Union: does not model signatures byte by byte; a signature is the list of its bits, as a bloom signature word is the set of its bits.
- HstoreBuilder.Builder.AddItem: does not model the byte order of an entry in memory; its four bytes are told apart by their number.
- HstoreIo.HSParser.ReadVal: does not model failing allocations, nor locales in which bytes above 127 count as spaces.
- HstoreIo.HstoreOut: does not model the allocation limit, which only turns a large output into an error.
- HstoreIo.HstoreIn: does not say which of several pairs with one key is kept, because the sort is not stable.
- Formatter.Importer.Import: does not model dropped columns and unsupported types, which end both functions before any row; a table without columns is excluded from the stream theorems, because a row then takes no bytes.
- B-tree verifier: posting lists, indexes without heap TID in the key, heap cross-checks, root descent, line pointer and tuple size checks, and runs without the stronger lock.
- BtreeHealthy.CheckHealthy: does not cover an index with half-dead pages, because their dummy high keys are compared with separators and can raise a false alarm.
- Heap verification outside toasted values: it rests on transaction status kept elsewhere.
- cube comparison as an order across dimensions: it is not transitive there; cube input, output, arithmetic and intersection would only add easy members.
- hstore concatenation, deletion, slices, record and JSON conversion, GIN support: they repeat the merge and the format without harder properties.
- GiST penalties and the choice between sides of a split: any choice is covered.
- Buffer manager, write-ahead log, memory contexts, detoasting, function manager and encoding conversion.
- Other modules under contrib: type wrappers, dictionaries, foreign data and administration code.

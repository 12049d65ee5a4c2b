# Index, storage and container algorithms of PostgreSQL's contrib modules

A Dafny model of the algorithms under `contrib/` that are hardest to get right, with proofs of what they
are for. A loop of the C code that updates variables, arrays or pages is a method with a loop, except where
processes interleave: there an iteration is a step of a state machine. What the methods compute is stated by
predicates and functions over values, and the theorems are about those.

| modules | what they model |
|---|---|
| `BtreePages`, `BtreeOrder`, `BtreeSpec`, `BtreeCheck` | the read-only B-tree verifier of `amcheck`: what it accepts, and the run itself as an object whose fields change |
| `BtreeLockstep`, `BtreeTree`, `BtreeLeaves`, `BtreeGaps` | what a run without an error says about the tree, and the indexes that show why the conditions are needed |
| `ByteStrings`, `VarKeys`, `VarSplit` | GiST keys over `bytea` whose bounds are cut short, at every height, and page splits |
| `BloomRandom`, `BloomSign`, `BloomPages`, `BloomBuild` | bloom signatures and their generator, pages in place, index build |
| `BloomProtocol`, `BloomSafety`, `BloomScan` | inserters, vacuums and scans of a bloom index as a state machine over steps taken under buffer locks |
| `HstoreLayout`, `HstorePack`, `HstoreAssign`, `HstoreUpgrade` | the packed form of hstore, built in a buffer, merged with one pair, and upgraded in place |
| `HstoreText`, `HstoreInput`, `HstoreUnique` | printing, parsing, and removal of duplicate keys |
| `HstoreSign`, `HstoreSplit` | hstore signatures in GiST |
| `HeapXids`, `HeapToast`, `HeapChains` | the heap verifier: transaction ids, TOAST chunks, update chains |
| `Cubes`, `CubeDistance` | n-dimensional boxes and ordering by distance |

`Optional`, `MachineWords` and `Pigeonhole` hold the option type, the constants and the counting argument that
they share.

How things are modelled: pages are records in a map from block number, or memory is an array of bytes or
words where the program overwrites it; a block number, offset or transaction id is an integer, and masks,
signed differences and 32-bit overflow are written out where they matter; floating-point numbers are reals.
A buffer lock is the extent of one atomic step; locks that outlive a step are part of the state. Raising an
error is an outcome of its own. A loop that ends only when the query is cancelled takes the number of iterations
until then. What `qsort` leaves behind is a parameter: any order it could leave.

Some properties that one might expect do not hold of the code. Each is shown by an example, and the exact
condition under which it holds is proved:

* The B-tree verifier takes a downlink to block 0 for the end of the level, and a right link that is
  `InvalidBlockNumber` for "nothing visited yet". Level and child level move in lockstep exactly when
  neither occurs (`Lockstep`).
* It compares the last item of a leaf with the next leaf only, so an empty leaf hides its neighbours from each
  other. The leaf level is in order exactly when it is so across the gaps that empty leaves leave (`LeafOrder`),
  and only gaps between leaves with different parents can be out of order (`LeafOrderBelow`). There they can, in
  a run that is clean from the root down (`EmptyLeafPasses`, `EmptyLeafOutOfOrder`).
* It compares items on a page by the first heap TID of a posting list, so posting lists may overlap. All
  TIDs of the leaf level are in order exactly when, besides, no list reaches into the next item on its page
  (`LeafTidOrder`, `OverlapOutOfOrder`).
* Splitting a page of `bytea` keys that were cut already can lose values, exactly when the shared cut
  length prolongs one of them (`SplitExact`, `SplitLosesValue`).
* Seeding the bloom generator leaves it in state 0 for two seeds; a value with such a seed, of which every
  column has two, cannot be signed (`SeededGood`, `TwoUnsignable`, `SignValue`).
* `hstoreUpgrade` takes a short old value whose first pair is null with a large stored value length for a
  new one, and the null is lost; all other valid old values are kept (`UpgradeExact`).
* The 64-bit form of a transaction id is the nearest one to the next id exactly when that is not past the last
  64-bit id; there it wraps to the oldest (`WidenMeaning`, `WidenWraps`).
* The update chains of a heap page may be circular without a report. On a page without report a chain starts
  with an item that may start one exactly when the walk back does not come round (`CircularOrStarted`).
* A box contained in the query may be missed by the cube index, exactly when the query excludes zero on an
  axis that the box lacks (`ContainedExact`).

## Model

| member | source | states |
|---|---|---|
| BtreeOrder.LessThanItemMeaning | contrib/amcheck/verify_nbtree.c:3207-3257 | the scan key comparison with a pivot or data item, with truncated attributes as minus infinity and the tie-break on heap TID, is the strict order on positions; the converse too unless the item is a pivot whose truncation the comparison cannot see |
| BtreeOrder.AtMostItemMeaning | contrib/amcheck/verify_nbtree.c:3270-3280 | the comparison with the high key means "not after" in that order |
| BtreeOrder.GreaterThanItemMeaning | contrib/amcheck/verify_nbtree.c:3293-3314 | the comparison with the last item of the left page means that its last TID is strictly before |
| BtreeOrder.BeforeTransitive | src/backend/access/nbtree/nbtsearch.c:682-853 | the order that `_bt_compare` induces, with descending and nulls-first columns, is transitive |
| BtreeOrder.BeforeStrict | src/backend/access/nbtree/nbtsearch.c:682-853 | that order is irreflexive and asymmetric |
| BtreeCheck.CheckLeftmost | contrib/amcheck/verify_nbtree.c:1136-1187 | true exactly when only half-dead pages that link back lie to the left; the walk always ends |
| BtreeCheck.CheckDownlinkMissing | contrib/amcheck/verify_nbtree.c:2656-2821 | silent exactly for pages whose missing downlink is excused: root, incomplete split, or an interrupted deletion found by descending first downlinks |
| BtreeCheck.BtreeCheckState.MatchHighKey | contrib/amcheck/verify_nbtree.c:2354-2457 | the separator picked among pivot, high key and low key is the one that follows the child on the parent level |
| BtreeCheck.BtreeCheckState.VisitChild | contrib/amcheck/verify_nbtree.c:2302-2457 | an error exactly when the visited child violates one of the connectivity conditions |
| BtreeCheck.BtreeCheckState.CheckChildHighKeys | contrib/amcheck/verify_nbtree.c:2244-2475 | clean exactly when a chain of acceptable pages leads from the remembered right link to the downlink or the end of the level; and what is remembered next |
| BtreeCheck.BtreeCheckState.CheckChild | contrib/amcheck/verify_nbtree.c:2491-2640 | clean exactly when the child is live enough, connected, and all its items are above the downlink's key |
| BtreeCheck.BtreeCheckState.RightPageScanKey | contrib/amcheck/verify_nbtree.c:1964-2164 | finds the one page that the walk over ignorable right siblings settles on, and its first real key; an error exactly when there is none |
| BtreeCheck.BtreeCheckState.CheckItem | contrib/amcheck/verify_nbtree.c:1424-1860 | clean exactly when attribute count, posting list, high key, next item and right neighbour agree |
| BtreeCheck.BtreeCheckState.CheckTargetPage | contrib/amcheck/verify_nbtree.c:1365-1943 | clean exactly when the page satisfies the whole specification, and the child state after it |
| BtreeCheck.BtreeCheckState.CheckLevel | contrib/amcheck/verify_nbtree.c:750-974 | clean exactly when the level is a chain of acceptable pages to its end, and which level comes next |
| BtreeCheck.BtreeCheckState.CheckEveryLevel | contrib/amcheck/verify_nbtree.c:504-729 | a clean run means every level down to the leaves is acceptable, an error that one is not; an interruption that links lead through as many pages as there were iterations |
| BtreeCheck.LongMeansCircular | contrib/amcheck/verify_nbtree.c:776-961 | a run given more iterations than there are pages is interrupted only if a chain of links is circular |
| BtreeSpec.EndingWalkDistinct | contrib/amcheck/verify_nbtree.c:776-961 | a chain of links that ends visits no page twice |
| BtreeLockstep.LevelSlots | contrib/amcheck/verify_nbtree.c:1485-1491 | a clean internal level is a check of its downlinks one after the other, page boundaries making no difference to the remembered right link and split flag |
| BtreeLockstep.Lockstep | contrib/amcheck/verify_nbtree.c:2244-2475 | after a clean internal level the downlinks are an in-order subsequence of one chain covering the whole child level, all other live pages being excused, if and only if no downlink is null and no right link of a child is `InvalidBlockNumber` |
| BtreeTree.LevelsInLockstep | contrib/amcheck/verify_nbtree.c:1925-1942 | in a run that is clean on two adjacent levels that chain is the level below itself, every page once |
| BtreeTree.ChildHighKey | contrib/amcheck/verify_nbtree.c:2354-2457 | a child's high key is the parent level's next separator unless the child is last, incompletely split or half-dead |
| BtreeTree.SeparatorBounds | contrib/amcheck/verify_nbtree.c:2597-2637 | every item of a leaf is strictly above the separator of its downlink and at most at the next separator |
| BtreeTree.SiblingItems | contrib/amcheck/verify_nbtree.c:2597-2637 | so every item of a leaf, by its last TID, lies before every item of any later leaf with the same parent page, whatever is between, unless the first leaf is incompletely split or half-dead |
| BtreeLeaves.LeafOrder | contrib/amcheck/verify_nbtree.c:1819-1860 | the data items of all live leaves, read left to right, are strictly increasing by key and first heap TID if and only if they are so across the gaps left by leaves that have become empty |
| BtreeLeaves.LeafTidOrder | contrib/amcheck/verify_nbtree.c:1715-1722 | with all TIDs of posting lists they are strictly increasing if and only if, besides, no list reaches the next item on its page |
| BtreeTree.LeafOrderBelow | contrib/amcheck/verify_nbtree.c:2597-2637 | with the level above checked too, only the gaps between leaves that are not siblings need be in order, for first and for all TIDs |
| BtreeGaps.NullDownlinkPasses | contrib/amcheck/verify_nbtree.c:2288-2300 | a root whose only downlink is block 0 passes the whole run |
| BtreeGaps.DanglingRightLinkPasses | contrib/amcheck/verify_nbtree.c:2270-2286 | a right link that is `InvalidBlockNumber` passes, and the links are not sane |
| BtreeGaps.OverlapPasses | contrib/amcheck/verify_nbtree.c:1715-1722 | a leaf with overlapping posting lists passes |
| BtreeGaps.OverlapOutOfOrder | contrib/amcheck/verify_nbtree.c:1715-1722 | and its TIDs are out of order |
| BtreeGaps.EmptyLeafPasses | contrib/amcheck/verify_nbtree.c:2122-2164 | a three-level index with an empty leaf, and with no incomplete split or half-dead page, passes the whole run |
| BtreeGaps.EmptyLeafOutOfOrder | contrib/amcheck/verify_nbtree.c:2122-2164 | and the leaves around the empty one, which have different parents, are out of order |
| ByteStrings.CompareFlips | src/backend/utils/adt/varlena.c:3983-4002 | `byteacmp` is antisymmetric, and zero only for equal strings |
| ByteStrings.LeTransitive | src/backend/utils/adt/varlena.c:3983-4002 | it is transitive, and the common prefix of the ends is the shorter of the two common prefixes |
| VarKeys.NodePrefixLength | contrib/btree_gist/btree_utils_var.c:124-173 | the loop finds the common prefix of the bounds |
| VarKeys.BinUnion | contrib/btree_gist/btree_utils_var.c:244-288 | the union so far is replaced by a key that encloses it and the new key, each bound being one of theirs |
| VarKeys.Union | contrib/btree_gist/btree_utils_var.c:333-368 | the hull of the keys, both bounds cut to two bytes more than their common prefix |
| VarKeys.LeafExact | contrib/btree_gist/btree_utils_var.c:565-623 | on leaf entries the consistent function answers all six strategies exactly |
| VarKeys.ConsistentExact | contrib/btree_gist/btree_utils_var.c:565-623 | an internal key turns away no query that a value satisfies if and only if it admits the value |
| VarKeys.UnionCovers | contrib/btree_gist/btree_utils_var.c:333-368 | one union step keeps the invariant that ties the cut to the common prefix, though the stored upper bound need not be one |
| VarKeys.BuiltCovers | contrib/btree_gist/btree_utils_var.c:333-368 | keys of any height, built by unions and by splits that prolong no key, cover every value below them |
| VarKeys.LeafSplit | contrib/btree_gist/btree_utils_var.c:469-558 | splits of leaf entries, at whatever shared length, are among them |
| VarKeys.ScanComplete | contrib/btree_gist/btree_utils_var.c:565-623 | at every height no query is turned away that some value below satisfies |
| VarSplit.PickSplit | contrib/btree_gist/btree_utils_var.c:469-558 | the sorted entries are halved, and both halves' hulls are cut at the length they share |
| VarSplit.SplitExact | contrib/btree_gist/btree_utils_var.c:541-555 | a half turns away no covered value if and only if no key of it has an upper bound that may have been cut before and is a prefix of the hull's, past which the shared cut goes on over a byte other than 255, the hull's lower bound not being a prefix of it |
| VarSplit.SplitCoversExact | contrib/btree_gist/btree_utils_var.c:541-555 | the half keeps the invariant on which the keys above rely if and only if no key of it is prolonged in this way, whatever the lower bound |
| VarSplit.DerailedLoses | contrib/btree_gist/btree_utils_var.c:541-555 | otherwise a value that the key covers is lost |
| VarSplit.LostEntry | contrib/btree_gist/btree_utils_var.c:333-368 | a concrete key, built by a union, with the value below it that a split will lose |
| VarSplit.OtherEntries | contrib/btree_gist/btree_utils_var.c:333-368 | three more keys built by unions |
| VarSplit.SplitLosesValue | contrib/btree_gist/btree_utils_var.c:469-558 | splitting a page of that and three such keys in sorted order puts it in the left half, whose key turns the query for that value away |
| BloomRandom.SeededGood | contrib/bloom/blutils.c:251-256 | the signed remainder leaves state 0 for exactly two seeds |
| BloomRandom.StepFits | contrib/bloom/blutils.c:224-248 | no intermediate result overflows 32 bits, from negative states too |
| BloomRandom.StepMultiplies | contrib/bloom/blutils.c:224-248 | a step is multiplication by 16807 modulo 2^31-1 and lands in 1 to 2^31-2 unless the state is 0 |
| BloomRandom.IterateGood | contrib/bloom/blutils.c:224-248 | over any number of steps the state stays in range and nonzero |
| BloomRandom.DrawsInRange | contrib/bloom/blutils.c:283-288 | every bit drawn from a good state lies in the signature |
| BloomRandom.DrawFromZero | contrib/bloom/blutils.c:283-288 | from state 0 every draw is -1 |
| BloomSign.SignMeaning | contrib/bloom/blutils.c:262-289 | a bit of a signature is set exactly when one of the values signed draws it: order and earlier generator state make no difference |
| BloomSign.TwoUnsignable | contrib/bloom/blutils.c:262-281 | in every column exactly two hashes, given here, have a seed that leaves the generator at 0 |
| BloomSign.UnsignableBits | contrib/bloom/blutils.c:283-288 | every bit drawn for such a value is -1 |
| BloomSign.SignValue | contrib/bloom/blutils.c:262-289 | sets exactly the bits of column, hash and options; undefined exactly for the two bad seeds |
| BloomSign.FormTuple | contrib/bloom/blutils.c:295-313 | the tuple's signature is that of its non-null columns |
| BloomSign.ScanSign | contrib/bloom/blscan.c:90-116 | the scan's signature is that of its keys |
| BloomSign.MatchingRowSubset | contrib/bloom/blscan.c:140-160 | it is a bitwise subset of the signature of every row with those hashes |
| BloomPages.PageBuffer.AddItem | contrib/bloom/blutils.c:320-347 | appends if and only if there is room for one more tuple |
| BloomPages.PageBuffer.TryInsert | contrib/bloom/blinsert.c:215-249 | new and deleted pages are reinitialised, a full page is left as it was |
| BloomPages.Compact | contrib/bloom/blvacuum.c:86-112 | the two-index compaction leaves the kept tuples in order |
| BloomPages.PageBuffer.Vacuum | contrib/bloom/blvacuum.c:81-144 | the page becomes its live tuples, and is marked deleted exactly when it became empty |
| BloomPages.KeepAndDrop | contrib/bloom/blvacuum.c:86-112 | kept and dropped tuples together are the page's, as multisets |
| BloomPages.KeepMeaning | contrib/bloom/blvacuum.c:86-112 | a tuple is kept exactly when its TID is not dead |
| BloomBuild.Build | contrib/bloom/blinsert.c:74-158 | all tuples, in order, on pages that are full but for the last, none empty |
| BloomBuild.BuiltIsSound | contrib/bloom/blinsert.c:121-158 | a built index is a sound state to start runs from |
| BloomSafety.StepKeepsStructure | contrib/bloom/blinsert.c:174-341 | every step keeps: block 0 is the metapage and nobody writes to it, all remembered blocks exist, at most one process holds the metapage, pages are not overfull, deleted pages are empty |
| BloomSafety.StepConserves | contrib/bloom/blvacuum.c:34-161 | every step conserves tuples: stored plus removed is built plus inserted |
| BloomSafety.RunSafe | contrib/bloom/blinsert.c:206-340 | both hold in every state of every interleaving, with the gap in which the metapage is unlocked, recycling of pages and aborted insertions |
| BloomSafety.FreshBlockTakesTuple | contrib/bloom/blinsert.c:313-323 | an inserter that took a block never fails for lack of room |
| BloomScan.TupleStays | contrib/bloom/blvacuum.c:81-144 | no step moves a tuple off its page unless vacuum removes it |
| BloomScan.ScanComplete | contrib/bloom/blscan.c:118-168 | beside any inserters and vacuums, a scan finds every tuple that is live when it starts, an equal one having been vacuumed before or not, that no vacuum removes meanwhile and whose signature has the scan's bits |
| BloomScan.RowFound | contrib/bloom/blscan.c:81-172 | so it returns every live row whose columns have the hashes asked for |
| BloomScan.ScanSound | contrib/bloom/blscan.c:137-163 | it returns only TIDs of matching tuples that were built in or inserted |
| HstoreLayout.DecodeHeld | contrib/hstore/hstore.h:28-83 | the accessor macros read back every pair of a packed hstore, nulls and empty strings included |
| HstorePack.AddItem | contrib/hstore/hstore.h:112-126 | one more pair: its strings behind the others, its two entries behind the others, nothing else changed |
| HstorePack.CopyItem | contrib/hstore/hstore.h:99-106 | the same for a pair copied in one piece |
| HstorePack.Finalize | contrib/hstore/hstore.h:129-140 | the first entry is flagged, and the string area moved down when fewer pairs were written than expected |
| HstorePack.PackPairs | contrib/hstore/hstore_io.c:446-472 | packs the pairs into exactly the size computed; fails only if that is too large |
| HstoreAssign.Assign | contrib/hstore/hstore_subs.c:143-258 | null subscripts are refused; otherwise the result packs the pairs with the new one put in its place or over the old one |
| HstoreAssign.Merge | contrib/hstore/hstore_subs.c:187-254 | the merge, with its memory estimate; fails exactly if that is too large |
| HstoreAssign.UpdatedSorted | contrib/hstore/hstore_subs.c:206-252 | the updated pairs are strictly sorted by length and bytes |
| HstoreAssign.UpdatedMap | contrib/hstore/hstore_subs.c:206-252 | they stand for the old map updated at the key |
| HstoreUpgrade.ValidOld | contrib/hstore/hstore_compat.c:171-229 | accepts exactly contiguous strings with keys of nondecreasing length that fit; 1 or 2 by whether space is left |
| HstoreUpgrade.ValidNew | contrib/hstore/hstore_compat.c:119-162 | accepts exactly ordered end positions and key lengths with the flag on the first entry only |
| HstoreUpgrade.Convert | contrib/hstore/hstore_compat.c:322-344 | every old entry is overwritten in place by the two new ones that share its memory |
| HstoreUpgrade.Value.Upgrade | contrib/hstore/hstore_compat.c:236-347 | which values are converted, kept or refused, and the header afterwards; a value without entries has its first one read from what lies behind |
| HstoreUpgrade.RewrittenMeaning | contrib/hstore/hstore_compat.c:322-344 | the rewritten entries decode to exactly the keys, values and nulls of the old ones |
| HstoreUpgrade.NewPairIsPairAt | contrib/hstore/hstore.h:28-83 | the pairs read from entries and string area are those that the accessor macros read from memory |
| HstoreUpgrade.ShortcutTaken | contrib/hstore/hstore_compat.c:251-257 | a valid old value takes the shortcut for new ones exactly when it is short and its first pair is null with a stored value length of 32768 or more |
| HstoreUpgrade.UpgradeExact | contrib/hstore/hstore_compat.c:236-347 | the whole upgrade keeps the pairs if and only if that is not so |
| HstoreUpgrade.MisreadExists | contrib/hstore/hstore_compat.c:251-257 | a valid old value for which it is so |
| HstoreUpgrade.HEntryGood | contrib/hstore/hstore.h:23-34 | end position and flags survive the trip through the 32-bit entry |
| HstoreText.QuotedRoundTrip | contrib/hstore/hstore_io.c:93-205 | a quoted and escaped string is read back whole, whatever follows |
| HstoreText.RoundTrip | contrib/hstore/hstore_io.c:1208-1289 | parsing what was printed gives back the pairs, for all pairs without a byte 0, null being told from the string NULL |
| HstoreText.TextFits | contrib/hstore/hstore_io.c:1249-1261 | the text and its terminator fit in the estimated buffer |
| HstoreInput.Parser.GetWord | contrib/hstore/hstore_io.c:93-205 | the word automaton, character by character, with its pointer |
| HstoreInput.Parser.ParseAll | contrib/hstore/hstore_io.c:215-323 | the pair automaton |
| HstoreInput.CopyEscaped | contrib/hstore/hstore_io.c:1208-1219 | writes exactly the escaped string |
| HstoreInput.Print | contrib/hstore/hstore_io.c:1223-1289 | writes exactly the text of the packed pairs within the buffer |
| HstoreUnique.Unique | contrib/hstore/hstore_io.c:356-402 | in place, the first of each run of equal keys remains, and the bytes counted are theirs |
| HstoreUnique.FirstsSorted | contrib/hstore/hstore_io.c:356-402 | what remains is strictly sorted by length and bytes |
| HstoreUnique.FirstsGiven | contrib/hstore/hstore_io.c:356-402 | every pair that remains is one of those given |
| HstoreUnique.FirstsKeep | contrib/hstore/hstore_io.c:326-347 | every key given remains, with a pair that need not be freed if there is one |
| HstoreUnique.BytesAreSize | contrib/hstore/hstore_io.c:446-472 | the bytes counted are exactly what packing writes |
| HstoreUnique.TextIdentity | contrib/hstore/hstore_io.c:477-496 | whatever order the sort leaves, reading back a printed hstore drops and changes nothing |
| HstoreSign.CompressLeaf | contrib/hstore/hstore_gist.c:155-186 | the bits of all keys and non-null values |
| HstoreSign.CompressInner | contrib/hstore/hstore_gist.c:187-204 | the flag replaces exactly the full signature |
| HstoreSign.Union | contrib/hstore/hstore_gist.c:297-334 | the union of the bits, the flag read as all of them |
| HstoreSign.Consistent | contrib/hstore/hstore_gist.c:509-611 | decides exactly whether the bits that the query needs are there, for all four strategies |
| HstoreSign.NoFalseNegatives | contrib/hstore/hstore_gist.c:509-611 | at every height of a tree, no key is turned down while a value below satisfies the query |
| HstoreSign.DistanceExact | contrib/hstore/hstore_gist.c:267-294 | with its shortcuts for the flag, the distance is the number of differing bits |
| HstoreSplit.ChooseSeeds | contrib/hstore/hstore_gist.c:397-423 | two entries as far apart as any two, the last one not being looked at |
| HstoreSplit.PickSplit | contrib/hstore/hstore_gist.c:366-505 | every entry goes to exactly one side, neither is empty, and each side's datum has exactly the bits of its entries |
| HeapXids.WidenMeaning | contrib/amcheck/verify_heapam.c:1883-1919 | always normal and congruent modulo 2^32, except for a clamp that needs epoch 0; within 2^31 of the next id if and only if that is not past the last 64-bit id |
| HeapXids.WidenUnique | contrib/amcheck/verify_heapam.c:1883-1919 | no other 64-bit id is congruent and as near |
| HeapXids.WidenWraps | contrib/amcheck/verify_heapam.c:1883-1919 | an id just ahead of the greatest next id comes out as the oldest |
| HeapXids.WidenStable | contrib/amcheck/verify_heapam.c:2029-2040 | an id in bounds widens to the same value until the next id has moved on by 2^31 |
| HeapXids.Context.CheckBounds | contrib/amcheck/verify_heapam.c:2017-2055 | accepts a normal id if and only if its widened form is at least both horizons and below the next id, after refreshing a stale cache; which violation is reported otherwise |
| HeapToast.CheckChunk | contrib/amcheck/verify_heapam.c:1458-1541 | silent exactly for the expected chunk with the expected size |
| HeapToast.CheckAttribute | contrib/amcheck/verify_heapam.c:1764-1814 | silent if and only if the chunks are numbered 0 to last in order with the expected sizes |
| HeapToast.WholeAddsUp | contrib/amcheck/verify_heapam.c:1764-1814 | so the chunks of a silent scan add up to the external size |
| HeapChains.ScanItems | contrib/amcheck/verify_heapam.c:444-577 | line pointers, successors and validity, with a report exactly for a bad item |
| HeapChains.LinkItems | contrib/amcheck/verify_heapam.c:583-743 | predecessors, with a report exactly for a link that is unsound or not the first to its target |
| HeapChains.CheckRoots | contrib/amcheck/verify_heapam.c:752-776 | a report exactly for a live heap-only tuple without predecessor |
| HeapChains.CheckPage | contrib/amcheck/verify_heapam.c:444-776 | the three loops are silent if and only if the page's chains are sound |
| HeapChains.PredecessorInverts | contrib/amcheck/verify_heapam.c:583-743 | on such a page the recorded predecessor is the one item that links to a tuple |
| HeapChains.ChainsSound | contrib/amcheck/verify_heapam.c:444-776 | redirects reach heap-only tuples, HOT flags agree on each link, live heap-only tuples have a predecessor |
| HeapChains.CircularOrStarted | contrib/amcheck/verify_heapam.c:444-776 | on such a page the walk back along predecessors from any item ends at one that may start a chain if and only if it does not come round to that item |
| HeapChains.CircleIsSilent | contrib/amcheck/verify_heapam.c:752-776 | two heap-only tuples that are each other's new version go unreported, and their chain has no such start |
| Cubes.Union | contrib/cube/cube.c:748-805 | the smallest box on every axis of either, zero standing in for missing axes; points stay points |
| Cubes.UnionAll | contrib/cube/cube.c:425-449 | the smallest box that covers all entries |
| Cubes.Overlaps | contrib/cube/cube.c:1194-1229 | overlap on every axis, zero-extended |
| Cubes.DoesContain | contrib/cube/cube.c:1124-1159 | containment on common axes, zero on those that only the inner box has |
| Cubes.KeyNotTurnedDown | contrib/cube/cube.c:708-732 | a key is not turned down if a box it covers overlaps, equals or contains the query |
| Cubes.ContainedExact | contrib/cube/cube.c:724-727 | for contained boxes this holds if and only if the query includes zero on the axes the box lacks |
| Cubes.ContainedLost | contrib/cube/cube.c:724-727 | a box for which it does not |
| CubeDistance.Taxicab | contrib/cube/cube.c:1302-1343 | the sum of the gaps on all axes |
| CubeDistance.EuclidSquared | contrib/cube/cube.c:1253-1299 | the sum of their squares |
| CubeDistance.Chebyshev | contrib/cube/cube.c:1346-1395 | the greatest gap |
| CubeDistance.Distance1DIsGap | contrib/cube/cube.c:1503-1515 | the four comparisons decide on which side an interval lies, and the result is never negative |
| CubeDistance.CoordBound | contrib/cube/cube.c:1398-1475 | ordering by a signed coordinate: the key's value is no greater than the leaf's |
| CubeDistance.DistanceBound | contrib/cube/cube.c:1398-1500 | a key is no farther from the query than a box it covers, in all three metrics and mixed dimensions |
| CubeDistance.TreeBounds | contrib/cube/cube.c:1398-1500 | all of this at every height of a tree |

## Left out

- BtreeCheck.BtreeCheckState.CheckEveryLevel: only the read-only mode on version 4 indexes; `bt_index_check` with concurrent writers, `rootdescend`, `heapallindexed` and the uniqueness check are not modelled.
- BtreeCheck.BtreeCheckState.CheckTargetPage: the checks on line pointers, tuple sizes and alignment are not modelled; items are taken to have passed them.
- BloomSign.SignValue: a signature word is the set of its one bits, not a 16-bit integer.
- BloomSafety.RunSafe: crash recovery and WAL are not modelled; an aborted insertion is.
- BloomScan.ScanComplete: equality of values enters through equality of their hashes; hash functions are parameters.
- HstoreUpgrade.Value.Upgrade: old entries are read as on a little-endian machine with the null flag in the lowest bit; the copy made of a read-only datum is not modelled.
- HstoreUnique.Unique: `qsort` is not modelled; the lemmas hold of every sorted permutation.
- HstoreSign.Consistent: a signature is the set of its one bits; the checksum is a parameter.
- HeapXids.Context.CheckBounds: the commit status looked up afterwards, and multixact ids, are not modelled.
- HeapChains.CheckPage: the checks inside a tuple are a parameter, the commit status they return included.
- CubeDistance.EuclidSquared: stops before the square root, which is monotone; coordinates are reals, so rounding is not modelled.
- `cube_cmp_v0` beyond the question whether it finds a difference, `cube_inter`, and `g_cube_picksplit`, which has the shape of the hstore split.
- Penalty functions, which are heuristics without a claim of correctness.
- Per-type wrappers of `btree_gist`, its fixed-length keys, multibyte text keys, and `btree_gin`.
- hstore conversion from and to JSON, arrays and records; GIN support.
- Buffer manager, memory contexts, error texts and statistics.

# JsonDb storage: a verified model

This project models the storage core of JsonDb and proves what it keeps, in Dafny. It covers

* **HBtree**, the copy-on-write paged B+tree: pages, splits, borrowing and merging with byte accounting, overflow chains,
  page numbers and their recycling, commit, abort, sync, open and crashes at any page write, cursors, and the page format;
* **JsonDbObject versions**: optimistic writes, replicated merges, ancestor histories and conflict lists;
* **secondary indexes**: forward keys and their order, keeping an index in step with the objects, and queries that scan an
  index with a cursor and stop early;
* **the query model** over several partitions and the windows of rows it fetches;
* **ephemeral notifications** and the views that follow them;
* **the JSON stream** that carries objects over a byte device.

## How it is built

The tree comes in layers, one file each.

* `Lexicographic`, `HBtreeRecords`, `OrderedNodes` – records, sizes, the key order, and the sorted node list.
* `TreeInvariant`, `TreeSteps`, `TreeShape` – what it means for a set of pages to hold a map: every page has a frame (an
  interval of keys and a level), and all conditions are local. `TreeSteps` shows each page-level step to turn a tree into a
  tree.
* `PageAccounts` – the books of page numbers: three versions of the tree (working, committed, synced), each with a role for
  every page it knows of (live, superseded by a page, residue, collectible). Steps on the books are a state machine;
  `PageRuns` has its runs, `PageConservation` what becomes of every number, `AbortedRuns` those after an abort and `SyncRuns` those after a sync within a transaction.
* `Transaction`, `Descent`, `OverflowChains`, `Splitting`, `LeafUpdates`, `Rebalancing`, `SplitArithmetic`, `SplitPaths` – the
  steps of one write transaction on books and tree together. `SplitCorner` and `BranchCorner` are trees in which a split goes
  wrong, at a leaf and at a branch.
* `Durability` – trees on disk across commit, sync and crashes.
* `HBtree` – the class with the fields of the program (dirty pages, collectible pages, residue, last page, markers) and its
  methods; each is proved against the functions above.
* `CursorSteps`, `Cursor` – cursors as a class over a fixed tree, `CursorCorner` – a tree in which they pass over entries. `PageCodec` – node and overflow pages as bytes;
  `DiskPages` joins them to what a commit leaves.

The other parts are `Versions`, `VersionStrings`, `JsonDbObjects`; `ForwardKeys`, `IndexTerms`, `IndexQueries`, `Indexes`,
`IndexPlaces`, `IndexRows`; `QueryModels`; `Ephemeral`; `JsonStreams`.

`dafny verify dfyconfig.toml` checks everything.

## How to read the model

* A key is a byte string with its place in the order of the compare function, a real from 0.0 (the empty key) up to 1.0.
  `Limits.place` gives the place of any byte string, and every key on a page is at the place of its bytes, so that a place in
  the map stands for the bytes a cursor returns. `HBtreeRecords.CompareIsRankOrder` shows that the default order has such
  places, different for different bytes; where an index needs that of its compare function it says so
  (`IndexQueries.PlacesKeys`), and `IndexPlaces.PlacesExist` gives them. Page numbers are unbounded and the invalid number is -1.
* Parent pointers are the path of the last descent; a child is found in its parent by the key searched for. When a page is
  split its nodes are shared out before the parent is told of the new page, the other way round than in the program; the two
  writes touch different pages.
* `health.fit` says that every page fits its size and `health.full` that no branch has fewer than two children and no leaf is
  empty. Of a tree whose pages fit, all pages fit after a put exactly when the pages on the way from the root to the key say so
  before it (`SplitPaths.PutFits`): the leaf has room, or its halves fit and the branch above has room for the key between them,
  or its halves fit, and so on up. That is always so when all keys have one length from 16 to 474 bytes (object uuids have 16).
  A page that is too full is not written correctly. `Commit` asks for `fit`; `Del` asks for `full`, which the program asserts
  for branches.
* Sync may come during a transaction. What it needs then is stated (`PageAccounts.SyncIsFree`); between transactions it always
  holds.
* A crash may leave any of the dirty pages of a commit written and one torn; a torn page is known by its checksum. Markers
  are written one after the other.
* The disk is a map from page numbers to pages. Merged-away clean pages stay on the books as live: they leak, and the claim
  is safety, not reclamation.
* The content hash of an object is any function of its body. Conflicts written by an optimistic write are what the code
  stores there, the history, read back as objects.
* Doubles are the reals a codec can carry, without NaN and with one zero. Texts are sequences of UTF-16 units.
* An index query reads the tree through the cursor class and splits the bytes of the cursor's key. A row is a tree entry
  whose key is a forward key; the rows are in the order of the keys, and an index that is in step with the objects has a row
  for each of its entries (`IndexRows.IndexHasRows`). What the scan is compared with is a filter of the stored field values, which are truncated.

## What turned out not to hold

Each comes with the exact condition under which the code does what is expected, and most with an input for which it does not.

* **A negated pattern loses rows.** `!=~` with a case-sensitive wildcard pattern sets its plain prefix as the lower bound of an
  ascending scan, although it matches what is below. For a query of one term the bound is safe exactly when the term is not
  such a pattern, and a lost value is given (`IndexTerms.SingleTermIsSafeIff`). For any query it is safe unless such a term set
  it last (`IndexTerms.MinIsSafeUnlessMisled`), and then exactly when the other terms alone let nothing below it through
  (`IndexTerms.MisledIsSafeIff`), as when one of them sets a bound as high (`IndexTerms.HigherBoundSaves`).
* **An abort may be unsafe.** `abort` does not roll back the residue. No later run hands out a page of a tree exactly when the
  residue is in the file and free of the committed tree and its histories (`AbortedRuns.AbortIsSafeIff`); the books stay sound
  in the same case (`PageAccounts.AbortKeepsBooks`), for example when the transaction added nothing to the residue
  (`PageAccounts.NothingAdded`). A leaf without room for its history leads to books that cannot be aborted, in the third
  transaction on a new file (`AbortedRuns.AbortedTouchIsUnsafe`).
* **A crash in the first marker is only survived with an equal second marker.** `open` does not repair marker 2
  (`HBtree.HBtree.CrashInFirstMarker`).
* **A split may leave a page that is too full.** Whether the halves fit is told by the page and the new node before the split,
  for a leaf (`SplitArithmetic.HalvesFitIff`), with the sizes of the new entry that are too big (`SplitArithmetic.WhichSizesFail`),
  and for a branch (`SplitArithmetic.BranchHalvesFitIff`); for a whole put it is told by the pages on its way
  (`HBtree.HBtree.Put`). 289 puts of four-byte keys on a new file make a root leaf that cannot take a large value
  (`SplitCorner.CornerOverfills`); 22 puts make a tree whose root cannot take one more separator of 512 bytes
  (`BranchCorner.BranchMisfits`, `BranchCorner.NextPutOverfills`).
* **A borrowed node may overfill the parent.** rebalance looks at the length of the moved key, but the parent gets the key that
  is then first in the right page. The parent fits exactly when it has room for what this key is longer than the old separator
  (`Rebalancing.NewSeparatorFitsIff`), which it may not have (`BranchCorner.BorrowMisfits`).
* **A sync during a transaction may be unsafe.** It is safe exactly when there is nothing to sync or no changed page supersedes
  a page of the committed tree (`SyncRuns.SyncIsSafeIff`); a new file comes to a sync after which a page of the synced tree is
  handed out (`SyncRuns.SyncInTransactionIsUnsafe`). The partition syncs between transactions only.
* **A cursor may pass over entries.** next and previous trust the leaf that was searched last. next comes to the next entry
  exactly when none lies between the cursor and a last leaf above it (`Cursors.Cursor.Next`), previous to the previous one exactly
  when the last leaf has an entry below the cursor or the cursor is at the first of its leaf (`Cursors.Cursor.Previous`). After
  seek, and after seekRange to the leaf on the left, this may not be so (`CursorCorner.NextPassesOver`,
  `CursorCorner.PreviousPassesOver`).
* **A first write that is a replay** is accepted and stores the version without the content
  (`JsonDbObjects.FirstReplayIsEmpty`). When an accepted write's content becomes the head's is `JsonDbObjects.ContentTakenIff`.
* **A replay that resurrects a tombstone may forget ancestors** (`JsonDbObjects.WriteKeepsAncestors`, with
  `JsonDbObjects.AncestorsAreLost`).
* **A write loses the conflicts beside it**, unless there is none but the one it resolves (`JsonDbObjects.ConflictsKeptIff`,
  with `JsonDbObjects.ConflictsAreLost` and `JsonDbObjects.OtherConflictIsLost`); the loop over the conflicts passes over the
  one after a removed one (`JsonDbObjects.ConflictIsSkipped`).
* **Merging an object with itself** changes nothing exactly when its history knows none of its conflicts
  (`JsonDbObjects.SelfMergeIff`); the result of a merge may know one (`JsonDbObjects.SelfMergeChanges`).
* **A version string comes back** exactly when the hash has no dash (`VersionStrings.TokenizeInvertsAsString`); a hash with
  one is read as part of a hash with count 1 (`VersionStrings.DashedVersion`).
* **Deindexing an object** succeeds exactly when the index can tell its values apart (`Indexes.LiveIsRemovableIff`); texts that
  differ behind the length it keeps are one to it (`Indexes.TruncatedTwins`). A change leaves the index in step with the objects
  exactly when the old version leaves no key behind that the new one does not have, and the new one's keys fit
  (`Indexes.Index.Update`); a key may stay behind (`Indexes.StrandedKey`).
* **A new object may be told of as an update**, exactly when the query matches the empty object as well
  (`Ephemeral.EventByAnswers`, with `Ephemeral.NewIsUpdate`).
* **A notification may be missed or sent twice.** The lookup by key is right for all notifications exactly when the object has a
  type before, or now if it is new, and no type looks like its uuid or the generic key (`Ephemeral.LookupIsRightIff`).
* **An ephemeral batch is not all or nothing.** It fails exactly when it has a tombstone for an object that is not there by then
  (`Ephemeral.FailsIff`); it has then stored the objects before the tombstone (`Ephemeral.FailedBatch`), and the store is as it
  was exactly when these put back what was there (`Ephemeral.FailedBatchIsUndoneIff`), which an object and a tombstone of an
  unknown uuid do not (`Ephemeral.HalfABatch`).
* **A tombstone may enter a view.** Folding the events keeps a view right exactly when no tombstone is matched whose object was
  not (`Ephemeral.WriteKeepsViewIff`), as one of another type than its object may be (`Ephemeral.TombstoneRevives`).
* **A page number may be lost** when a page that the file was extended for leaves the tree in the same transaction, and when a
  file is synced in a running transaction; in no other way before an abort or a crash (`PageConservation.RunConserves`).
* **An object sent while the device reports an error** is dropped although `send` returns true (`JsonStreams.TakeStep`).

## Model

| member | source | states |
|---|---|---|
| HBtreeRecords.CompareIsRankOrder | src/hbtree/hbtree_p.h:441-481 | the default comparison of keys is the order of a place in [0, 1): total, the empty key least, equal only for equal bytes |
| HBtreeRecords.CompareIsLexicographic | src/hbtree/hbtree_p.h:441-463 | one key is below another if it is a proper beginning of it or has the lower byte where they first differ |
| OrderedNodes.InsertIsUpdate | src/hbtree/orderedlist_p.h:152-162 | inserting into the sorted list is an update of the map the list stands for, and the list stays sorted |
| OrderedNodes.RemoveIsDeletion | src/hbtree/orderedlist_p.h:193-198 | removing a key deletes it from the map the list stands for |
| OrderedNodes.LookupIsAssoc | src/hbtree/orderedlist_p.h:164-191 | contains and value read the map the list stands for |
| OrderedNodes.OrderedList.LowerBoundOf | src/hbtree/orderedlist_p.h:142-145 | the binary search finds the first place whose key is not below the key |
| OrderedNodes.OrderedList.UpperBoundOf | src/hbtree/orderedlist_p.h:147-150 | and the first place whose key is above it |
| OrderedNodes.OrderedList.Find | src/hbtree/orderedlist_p.h:137-140 | the binary search gives the entry of the key, or the end exactly when the map has none |
| OrderedNodes.OrderedList.InsertPair | src/hbtree/orderedlist_p.h:152-162 | the list object after insert is the updated map, in order |
| OrderedNodes.OrderedList.At | src/hbtree/orderedlist_p.h:167-179 | operator[] enters a missing key with the default value and changes nothing else |
| OrderedNodes.OrderedList.RemoveKey | src/hbtree/orderedlist_p.h:193-198 | remove takes exactly the key out |
| OrderedNodes.OrderedList.Value | src/hbtree/orderedlist_p.h:187-191 | value gives the entry, or the default when there is none |
| TreeInvariant.AgreeTree | src/hbtree/hbtree.cpp:1813-1846 | a tree depends only on the contents of its own pages: any other pages may change |
| TreeSteps.TouchChild | src/hbtree/hbtree.cpp:1399-1449 | a copy under a new number in the parent's place leaves a tree with the same entries |
| TreeSteps.TouchRoot | src/hbtree/hbtree.cpp:1399-1449 | a copy of the root under a new number is the root of the same map |
| TreeSteps.LeafUpdate | src/hbtree/hbtree.cpp:1952-2046 | new contents for one leaf change the map only inside that leaf's interval |
| TreeSteps.GrowRoot | src/hbtree/hbtree.cpp:2054-2073 | a new root over the old one with the empty key is a tree for the same map |
| TreeSteps.CollapseRoot | src/hbtree/hbtree.cpp:2221-2227 | a root with one child can go; the child is the root of the same map |
| TreeSteps.EmptyRoot | src/hbtree/hbtree.cpp:2217-2220 | an empty root means the map is empty and the tree has no page but the root |
| TreeSteps.Divide | src/hbtree/hbtree.cpp:2075-2179 | sharing a page's nodes out over two pages keeps every entry; the parent is the only one that does not know yet |
| TreeSteps.LinkParent | src/hbtree/hbtree.cpp:2119-2141 | once the separator is in the parent the divided pages are a tree again |
| TreeSteps.Merge | src/hbtree/hbtree.cpp:2366-2427 | two neighbours in one page, with the other forgotten by the parent, are a tree for the same map |
| TreeSteps.Shift | src/hbtree/hbtree.cpp:2322-2364 | moving the boundary between two neighbours, with the new separator in the parent, keeps the map |
| TreeShape.LeavesAtOneDepth | src/hbtree/hbtree.cpp:1682-1755 | any two ways down from the root to a leaf are equally long |
| TreeShape.BranchShape | src/hbtree/hbtree.cpp:2204-2427 | a branch has two children or more; a child's keys lie between its separator and the next, a child branch starts with its separator, and the leftmost way starts with the empty key |
| PageAccounts.NewPageIsUnreachable | src/hbtree/hbtree.cpp:1334-1346 | a number newPage may take is not reachable from the working, committed or synced root nor from their histories |
| PageAccounts.NewPageKeepsBooks | src/hbtree/hbtree.cpp:1334-1397 | newPage keeps the books: roles stay disjoint in all three versions |
| PageAccounts.TouchKeepsBooks | src/hbtree/hbtree.cpp:1399-1449 | touching a page, with its history or residue entry, keeps the books |
| PageAccounts.TouchInSteps | src/hbtree/hbtree.cpp:1413-1444 | newPage, copy and addHistoryNode in turn are one touch on the books |
| PageAccounts.RemoveKeepsBooks | src/hbtree/hbtree.cpp:1627-1652 | removing a dirty page hands its history to the residue and keeps the books |
| PageAccounts.FreeKeepsBooks | src/hbtree/hbtree.cpp:2014-2031 | freed overflow pages become residue and the books are kept |
| PageAccounts.CollectSparesSynced | src/hbtree/hbtree.cpp:1530-1560 | what collectHistory gives away is never a page of the synced tree |
| PageAccounts.AtMostTwoKept | src/hbtree/hbtree.cpp:1530-1560 | a committed page keeps at most two old versions |
| PageAccounts.CommitKeepsBooks | src/hbtree/hbtree.cpp:995-1073 | after commit the collected pages are collectible, no tree needs them, and the books are kept |
| PageAccounts.AbortKeepsBooks | src/hbtree/hbtree.cpp:1075-1094 | an abort leaves sound books if and only if the residue is free of the committed tree and its histories |
| PageAccounts.NothingAdded | src/hbtree/hbtree.cpp:1075-1094 | a transaction that added nothing to the residue may be aborted |
| PageAccounts.UnsafeAbort | src/hbtree/hbtree.cpp:1061-1094 | with a page of the committed tree in the residue, an abort, a commit and a sync make that page one that newPage may take while the synced tree uses it |
| AbortedRuns.AbortIsSafeIff | src/hbtree/hbtree.cpp:1075-1094 | after an abort no run of steps hands out a page of the synced, committed or working tree, if and only if the residue is in the file and free of the committed tree and its histories |
| AbortedRuns.LiveResidue | src/hbtree/hbtree.cpp:1061-1094 | a residue page of the committed tree: the run by which it is handed out while the durable tree uses it |
| AbortedRuns.OldResidue | src/hbtree/hbtree.cpp:1530-1560 | a residue page in a history of the committed tree: the run by which it is handed out, and collected once more from the history while it is in use |
| AbortedRuns.ResidueBeyond | src/hbtree/hbtree.cpp:262-287 | a residue page beyond the end of the file: the run through a crash by which its number is handed out twice |
| AbortedRuns.AbortedTouchIsUnsafe | src/hbtree/hbtree.cpp:2429-2450 | a new file comes, with sound books throughout, to a touch without room for history after which an abort is unsafe |
| PageAccounts.SyncKeepsBooks | src/hbtree/hbtree.cpp:927-934 | sync makes the committed version the synced one and the residue of the last commit collectible, and keeps the books, also during a transaction whose changed pages supersede no page of the committed tree |
| PageAccounts.ReopenKeepsBooks | src/hbtree/hbtree.cpp:253-287 | open after a crash starts with sound books: nothing collectible is part of the recovered tree |
| PageAccounts.RunIsSafe | src/hbtree/hbtree.cpp:1334-1449 | over every run of new, edit, touch, remove, free, commit, safe abort, safe sync (also within a transaction) and crash no number handed out is live in any version, and live, superseded, residue and collectible pages are pairwise disjoint |
| PageConservation.StepConserves | src/hbtree/hbtree.cpp:1627-1650 | a page number becomes unknown to the books in a step if and only if its page, new in the file, leaves the tree in the transaction that made it, or a running transaction had put it in the residue before a sync; every other number stays live, superseded, residue or collectible |
| PageConservation.RunConserves | src/hbtree/hbtree.cpp:1334-1449 | over every run without aborts and crashes a number is unknown at the end if and only if it was at the start or one of the steps lost it in these ways |
| SyncRuns.SyncIsSafeIff | src/hbtree/hbtree.cpp:834-961 | of any sound books, within or between transactions: after a sync no run of steps hands out a page of the synced, committed or working tree, if and only if nothing was committed since the last sync or no changed page supersedes a page of the committed tree |
| SyncRuns.SyncInTransactionIsUnsafe | src/hbtree/hbtree.cpp:834-961 | a new file comes, with sound books, to a sync within a transaction after which two commits make the synced root a page that newPage may take |
| Transaction.TouchTxn | src/hbtree/hbtree.cpp:1399-1449 | touching keeps books and tree together, with all sizes and fill conditions |
| Transaction.RemoveEntryTxn | src/hbtree/hbtree.cpp:2003-2046 | taking a node out frees its overflow chain and removes exactly that entry |
| Transaction.InsertEntryTxn | src/hbtree/hbtree.cpp:1952-2001 | putting a node in enters exactly that entry, with its new chain |
| SplitArithmetic.CutInside | src/hbtree/hbtree.cpp:2092-2107 | the byte threshold cuts an overfull leaf strictly inside, and the left half fits with its history and one history node more |
| SplitArithmetic.HalvesFitIff | src/hbtree/hbtree.cpp:2092-2179 | both halves fit if and only if the space left in the page, its history and the entries before the cut make room for the new entry, all of which is known before the split |
| SplitArithmetic.WhichSizesFail | src/hbtree/hbtree.cpp:2092-2179 | of entries that go right those above a bound given by the page do not fit; with entries that go left both halves fit |
| SplitArithmetic.HalvesFitWithin | src/hbtree/hbtree.cpp:2092-2179 | both halves fit when entry sizes stay within a derived bound |
| SplitArithmetic.UniformHalvesFit | src/hbtree/hbtree.cpp:2092-2179 | with keys of one length from 16 to 474 bytes both halves of any leaf fit |
| SplitArithmetic.UniformBranchFits | src/hbtree/hbtree.cpp:2088-2091 | with keys of one length both halves of a branch that is cut in the middle fit |
| SplitArithmetic.BranchHalvesFitIff | src/hbtree/hbtree.cpp:2088-2091 | with keys of any lengths both halves of a branch fit if and only if the bytes before its middle, the separator and the history say so before the split |
| SplitPaths.WayIsUnique | src/hbtree/hbtree.cpp:1682-1755 | there is one way from the root to the leaf that covers a key |
| SplitPaths.RetracedForPut | src/hbtree/hbtree.cpp:1682-1755 | what the touched pages on the way say of a put is what the tree before it says, and the other way round |
| SplitCorner.ThreeWayCorner | src/hbtree/hbtree.cpp:2147-2170 | a leaf of 289 four-byte keys does not divide for one large value: its right half does not fit a page |
| SplitCorner.CornerByPuts | src/hbtree/hbtree.cpp:1201-1270 | 289 puts on a new file make this leaf the root of a tree whose pages all fit |
| SplitCorner.CornerMisfits | src/hbtree/hbtree.cpp:2147-2170 | and the tree before the put of the large value says that not all pages will fit |
| SplitCorner.CornerOverfills | src/hbtree/hbtree.cpp:2147-2170 | with that put a new file has a page that is too full |
| BranchCorner.PutsMakeTree | src/hbtree/hbtree.cpp:2092-2107 | 22 puts make 14 leaves, each with its first key as separator |
| BranchCorner.BranchGrows | src/hbtree/hbtree.cpp:2119-2141 | the branch above them has room for each separator in turn |
| BranchCorner.CornerIsHealthy | src/hbtree/hbtree.cpp:2050-2202 | leaves and branch are a tree on books that a new file comes to, and every page fits |
| BranchCorner.BranchMisfits | src/hbtree/hbtree.cpp:2088-2091 | one more separator of 512 bytes finds no room, and cut in the middle the right half of the branch has 4176 bytes for 4068 |
| BranchCorner.NextPutMisfits | src/hbtree/hbtree.cpp:2088-2133 | the tree before the next put says that not all pages will fit |
| BranchCorner.NextPutOverfills | src/hbtree/hbtree.cpp:2088-2133 | and after it a page is too full |
| Splitting.RootGrows | src/hbtree/hbtree.cpp:2054-2073 | a root that is to be split gets a parent without any entry changing |
| Splitting.BranchOverfull | src/hbtree/hbtree.cpp:2119-2133 | a branch without room for a separator has so many children that both halves keep two; they fit exactly when branch and separator say so, which they do if keys have one length |
| Splitting.BranchSplits | src/hbtree/hbtree.cpp:2119-2133 | splitting the parent stands for the parent with the separator of the pages below, and its halves fit exactly when it says so before |
| Splitting.SplitDone | src/hbtree/hbtree.cpp:2143-2179 | after sharing out, both halves are tree pages and only the parent's link is missing |
| LeafUpdates.LeafHalving | src/hbtree/hbtree.cpp:2075-2086 | a full leaf with the new entry stands for the updated map |
| LeafUpdates.LeafCut | src/hbtree/hbtree.cpp:2092-2107 | the halves of a full leaf are not empty, and fit exactly when the page and the new entry say so, which they do if keys have one length |
| Rebalancing.MoveFromRight | src/hbtree/hbtree.cpp:2242-2247 | borrowing the first node of the right neighbour keeps the map and the fill, and every page but perhaps the parent fits, which fits exactly when it has room for the longer separator |
| Rebalancing.MoveFromLeft | src/hbtree/hbtree.cpp:2248-2254 | borrowing the last node of the left neighbour does likewise |
| Rebalancing.NewSeparatorFitsIff | src/hbtree/hbtree.cpp:2353-2361 | the parent with a new separator in the old one's place fits if and only if it has room for what the new one is longer |
| Rebalancing.CanUpdateIff | src/hbtree/hbtree.cpp:2264-2293 | the check of rebalance holds if and only if the parent fits with the key it looks at as the separator |
| BranchCorner.BorrowMisfits | src/hbtree/hbtree.cpp:2261-2298 | a leaf with one entry, its neighbour and the branch above pass all checks of rebalance, and the branch does not fit afterwards |
| Rebalancing.MergePair | src/hbtree/hbtree.cpp:2366-2427 | a merge keeps the map and leaves the parent to be rebalanced |
| Rebalancing.NeverStuck | src/hbtree/hbtree.cpp:2261-2315 | with keys of one length a page below the threshold can always borrow or be merged |
| Rebalancing.BorrowPossible | src/hbtree/hbtree.cpp:2261-2262 | a page below the threshold has room for any node of its neighbour |
| Rebalancing.MergePossible | src/hbtree/hbtree.cpp:2303-2311 | and if the neighbour has nothing to lend, the neighbour has room for it |
| Rebalancing.GivesUp | src/hbtree/hbtree.cpp:2313-2315 | a page that can neither borrow nor merge leaves a sound tree |
| Durability.CommittedStays | src/hbtree/hbtree.cpp:1399-1449 | whatever a transaction wrote, the pages still hold the committed tree |
| Durability.CommitTree | src/hbtree/hbtree.cpp:1008-1064 | commit writes the working tree to the file |
| Durability.CutShortIsCrashed | src/hbtree/hbtree.cpp:1008-1039 | a commit cut short after any pages, with others torn, has not touched the synced tree |
| Durability.SyncedStays | src/hbtree/hbtree.cpp:1008-1051 | the synced tree is on disk after any crash, also in the truncated file |
| HBtree.HBtree.TakeNumber | src/hbtree/hbtree.cpp:1336-1346 | a collectible number if there is one, else the next; it is free of all three trees |
| HBtree.HBtree.NewNodePage | src/hbtree/hbtree.cpp:1334-1397 | the books after newPage |
| HBtree.HBtree.AddHistoryNode | src/hbtree/hbtree.cpp:2429-2450 | the old version goes into the history if there is room, else into the residue |
| HBtree.HBtree.TouchClean | src/hbtree/hbtree.cpp:1399-1449 | the books after touching a clean page |
| HBtree.HBtree.SearchForWrite | src/hbtree/hbtree.cpp:1682-1755 | the way down to the leaf that covers the key, every page of it dirty and what the page before was when touched, no entry changed and every leaf with the nodes it had |
| HBtree.HBtree.PutDataOnOverflow | src/hbtree/hbtree.cpp:1451-1478 | a value that is not empty becomes a chain of new, distinct pages that holds exactly it |
| HBtree.HBtree.WalkOverflowPages | src/hbtree/hbtree.cpp:1491-1528 | walking a chain ends and gives the bytes of its value and exactly the pages of the chain |
| HBtree.HBtree.PrepareSplit | src/hbtree/hbtree.cpp:2054-2076 | a parent for the root if needed, a new right page, all other pages as before |
| HBtree.HBtree.FinishSplit | src/hbtree/hbtree.cpp:2113-2179 | the upward recursion ends in a tree with the same entries; pages beside the path stay as they are; all pages fit exactly when the halves and the branches above say so |
| HBtree.HBtree.SplitIndex | src/hbtree/hbtree.cpp:2100-2106 | the loop over the nodes finds the cut of the specification |
| HBtree.HBtree.SplitLeaf | src/hbtree/hbtree.cpp:2050-2202 | splitting a full leaf enters the new entry and changes no other; unless the pages on the path say that they fit, a page of the tree is then too full |
| HBtree.HBtree.InsertNode | src/hbtree/hbtree.cpp:1952-2001 | a leaf with room takes the entry |
| HBtree.HBtree.RemoveNode | src/hbtree/hbtree.cpp:2003-2046 | the entry is gone, and the residue has grown by the overflow pages of its value, all of them and no others |
| HBtree.HBtree.Put | src/hbtree/hbtree.cpp:1201-1270 | keys above 512 bytes are refused and nothing changes; otherwise the map is updated at the key and nowhere else; if all pages fit before, they all fit afterwards if and only if the pages on the way to the key say so before, and always if keys have one length |
| HBtree.HBtree.Get | src/hbtree/hbtree.cpp:1272-1287 | the entry of the map at the key, or the empty value, overflow values included |
| HBtree.HBtree.MoveNode | src/hbtree/hbtree.cpp:2261-2298 | borrowing through the checks of the code keeps every entry; pages that all fit still do exactly when the parent has room for the longer separator |
| HBtree.HBtree.MergeInto | src/hbtree/hbtree.cpp:2299-2312 | merging with either neighbour keeps every entry, the page merged away is no longer written, and one page has the range of both |
| HBtree.HBtree.Rebalance | src/hbtree/hbtree.cpp:2204-2319 | the upward recursion ends in a tree with the same entries; a page is left as it was if and only if it is filled above the threshold or can neither borrow a node nor be merged by the checks of the code, otherwise a page has the range that borrowing or merging leads to; no range below is changed, and the root goes or gives way to its only child exactly when it has no nodes or one |
| Rebalancing.RemedyIsNew | src/hbtree/hbtree.cpp:2204-2319 | a page of the leaf level that borrows or merges gets another range, which still covers the key |
| HBtree.HBtree.MergePages | src/hbtree/hbtree.cpp:2366-2430 | after a merge a page has the ranges of both, whatever the rebalancing of the parent does |
| HBtree.HBtree.Del | src/hbtree/hbtree.cpp:1289-1332 | true exactly when the key was there; the map loses that key and nothing else; the leaf it was in got another range, is the root, is filled above the threshold, or can neither borrow nor be merged |
| HBtree.HBtree.Begins | src/hbtree/hbtree.cpp:1150-1194 | between transactions the committed map is the one a new transaction starts with, and a sync is safe |
| HBtree.HBtree.GetCommitted | src/hbtree/hbtree.cpp:1654-1680 | snapshot isolation: during a transaction a read through the committed root sees the map from before it |
| HBtree.HBtree.CollectHistory | src/hbtree/hbtree.cpp:1530-1560 | the loop keeps and gives away what the specification says |
| HBtree.HBtree.WritePages | src/hbtree/hbtree.cpp:1008-1039 | stopped after any number of pages, exactly that many are written, trimmed, and no longer dirty |
| HBtree.HBtree.Commit | src/hbtree/hbtree.cpp:995-1073 | the working map becomes the committed one on disk; the synced map stays |
| HBtree.HBtree.Abort | src/hbtree/hbtree.cpp:1075-1094 | the committed map stays current, and the file is as good as between transactions if and only if the residue is in the file and free of the committed tree and its histories |
| HBtree.HBtree.Sync | src/hbtree/hbtree.cpp:834-961 | the committed map becomes the synced one and both markers say so, also during a transaction, which goes on |
| HBtree.HBtree.CrashInTransaction | src/hbtree/hbtree.cpp:253-287 | a crash between page writes loses at most the transaction |
| HBtree.HBtree.CrashInCommit | src/hbtree/hbtree.cpp:1008-1039 | a crash after any number of page writes, one of them torn, leaves the last synced map recoverable |
| HBtree.HBtree.CrashInFirstMarker | src/hbtree/hbtree.cpp:908-914 | a torn first marker is survived if and only if the second marker is that of the last sync |
| HBtree.HBtree.CrashInSecondMarker | src/hbtree/hbtree.cpp:951-956 | a torn or missing second marker leaves the newly synced map recoverable |
| HBtree.HBtree.Open | src/hbtree/hbtree.cpp:245-287 | open of a recoverable file finds exactly the synced map, and no collectible page is part of it |
| HBtree.HBtree.constructor | src/hbtree/hbtree.cpp:179-244 | a new file holds the empty map and equal markers |
| Cursors.Cursor.GetRightSibling | src/hbtree/hbtree.cpp:1757-1783 | the leaf whose interval begins where the leaf below the stacked branches ends, or none at the end |
| Cursors.Cursor.GetLeftSibling | src/hbtree/hbtree.cpp:1785-1811 | the leaf whose interval ends where this one begins, or none at the beginning |
| Cursors.Cursor.SearchPage | src/hbtree/hbtree.cpp:1682-1755 | the leaf for a key, the first or the last leaf, with its neighbours |
| Cursors.Cursor.First | src/hbtree/hbtree.cpp:2520-2535 | the cursor is at the least entry, or invalid if there is none |
| Cursors.Cursor.Last | src/hbtree/hbtree.cpp:2502-2518 | the cursor is at the greatest entry |
| Cursors.Cursor.Next | src/hbtree/hbtree.cpp:2537-2606 | the cursor is at the least entry above where it was, across leaves, if and only if no entry lies between it and a last leaf above it; it always moves up, says no only if nothing is above, and after a deletion is always right |
| Cursors.Cursor.Previous | src/hbtree/hbtree.cpp:2608-2685 | the cursor is at the greatest entry below where it was if and only if the last leaf has an entry below it or it is the first of its leaf; it always moves down, and after a deletion is always right |
| Cursors.Cursor.Seek | src/hbtree/hbtree.cpp:2687-2756 | an exact seek succeeds exactly for keys that are there, and leaves the last leaf as it was |
| Cursors.Cursor.SeekRange | src/hbtree/hbtree.cpp:2687-2756 | the least entry at or above the key, or the greatest at or below it; the last leaf is the one of the key, and next is right from there |
| Cursors.Cursor.ScanForward | src/hbtree/hbtree.cpp:2520-2606 | first and repeated next list every entry once in order and stop |
| Cursors.Cursor.ScanFrom | src/hbtree/hbtree.cpp:2537-2756 | seekRange and repeated next list exactly the entries from the key on |
| Cursors.Cursor.ScanBackward | src/hbtree/hbtree.cpp:2502-2685 | last and repeated previous list every entry once in reverse order |
| Cursors.Cursor.SettledIsNear | src/hbtree/hbtree.cpp:2537-2685 | with the last leaf at the cursor's own entry, as first, last, next and previous leave it, both directions are right |
| Cursors.Cursor.DisruptedIsNear | src/hbtree/hbtree.cpp:2537-2685 | once an entry has been deleted, next and previous are right wherever the last leaf of the cursor is |
| CursorCorner.CornerIsTree | src/hbtree/hbtree.cpp:1682-1755 | a root and two leaves, the second without the entry of its separator, are a tree a cursor may read |
| CursorCorner.PreviousPassesOver | src/hbtree/hbtree.cpp:2608-2756 | in it seekRange downwards goes to the left leaf, and previous says there is nothing before |
| CursorCorner.NextPassesOver | src/hbtree/hbtree.cpp:2537-2756 | from the last entry seek goes to the first, and next passes over the second |
| Cursors.CommittedIsReadable | src/hbtree/hbtree.cpp:1659-1664 | between transactions a cursor may read the committed tree |
| PageCodec.UpperInside | src/hbtree/hbtree.cpp:653-705 | the index from the front and the node data from the end never meet |
| PageCodec.LittleEndian | src/hbtree/hbtree.cpp:469-476 | numbers are stored with the least significant byte first, as little-endian machines have them in memory |
| PageCodec.HeaderRead | src/hbtree/hbtree_p.h:71-117 | where in a page checksum, type, number, offsets, sync id, history size, flags and commit id are |
| PageCodec.NodeRead | src/hbtree/hbtree.cpp:601-651 | key size, flags and value field of a stored node are where the reader looks for them, and it reads the node back |
| PageCodec.SerializeNodePage | src/hbtree/hbtree.cpp:653-705 | the buffer holds header, meta, history, index and every node at its place, and zeros between |
| PageCodec.DeserializeNodePage | src/hbtree/hbtree.cpp:601-651 | from such a buffer the page comes back |
| PageCodec.NodePageRoundTrip | src/hbtree/hbtree.cpp:601-705 | reading a written node page gives it back: info, meta, history and every inline, overflow and branch node |
| PageCodec.OverflowPageRoundTrip | src/hbtree/hbtree.cpp:716-755 | reading a written overflow page gives back its data and the next page |
| PageCodec.OverflowRead | src/hbtree/hbtree.cpp:736-755 | where the fields of an overflow page are; it has no flags, and the last page of a chain names none |
| DiskPages.CommittedIsEncodable | src/hbtree/hbtree.cpp:653-705 | every node page of a committed tree whose pages fit can be written: all its numbers fit their fields, its keys are at their places |
| DiskPages.ReadCommitted | src/hbtree/hbtree.cpp:601-705 | each of them comes back from its bytes |
| Versions.LessIsTotal | src/partition/jsondbobject.cpp:564-575 | the order of hashes is total |
| Versions.LessIsLexicographic | src/partition/jsondbobject.cpp:564-575 | hashes are ordered as texts, by their first difference |
| Versions.BeforeIsTotal | src/partition/jsondbobject.cpp:564-575 | versions are totally ordered by count and then hash |
| Versions.BeforeMeans | src/partition/jsondbobject.cpp:564-575 | of two versions that with fewer updates is the lower, of two with as many that with the lower hash |
| Versions.BeforeIsTransitive | src/partition/jsondbobject.cpp:564-575 | and transitively |
| Versions.AncestorIsMember | src/partition/jsondbobject.cpp:498-510 | isAncestorOf is membership in the set of versions a history stands for, for any history |
| Versions.AddAncestor | src/partition/jsondbobject.cpp:512-553 | the loops compute the history with one more version |
| Versions.WithAncestorKnows | src/partition/jsondbobject.cpp:512-553 | which stands for exactly one version more and keeps the canonical form |
| Versions.CanonicalIsUnique | src/partition/jsondbobject.cpp:512-553 | canonical histories of the same versions are equal |
| Versions.AddingCommutes | src/partition/jsondbobject.cpp:512-553 | the order in which ancestors are added does not matter |
| Versions.AddingKnown | src/partition/jsondbobject.cpp:523-541 | adding a known version changes nothing |
| VersionStrings.TokenizeInvertsAsString | src/partition/jsondbobject.cpp:386-413 | tokenizeVersion gives back count and hash if and only if the hash has no dash |
| VersionStrings.AsStringInvertsTokenize | src/partition/jsondbobject.cpp:386-413 | the version read from a string makes the string again if and only if it is the string of a version with a dash-free hash; the count of every other string is in range too |
| VersionStrings.HashOfString | src/partition/jsondbobject.cpp:386-413 | a string with exactly one dash has what follows it as hash and the number before it as count, if it is one from 1 to the largest integer and otherwise 1; any other string is its own hash with count 1 |
| VersionStrings.WrittenInDecimal | src/partition/jsondbobject.cpp:410-413 | the count is written in decimal, with a dash before the hash even if that is empty |
| VersionStrings.DashedVersion | src/partition/jsondbobject.cpp:386-413 | version 2 with the hash a-b is read back as version 1 with the hash 2-a-b |
| VersionStrings.AsStringIsInjective | src/partition/jsondbobject.cpp:410-413 | version strings differ for different versions with dash-free hashes |
| JsonDbObjects.PopulateHistory | src/partition/jsondbobject.cpp:362-384 | the loops add every version of the other history and the current one |
| JsonDbObjects.PopulateMerge | src/partition/jsondbobject.cpp:335-360 | what is collected and whether all of it is valid |
| JsonDbObjects.MergeAccounts | src/partition/jsondbobject.cpp:270-333 | every version of both sides is the head, a conflict or in the history |
| JsonDbObjects.MergeConflicts | src/partition/jsondbobject.cpp:295-315 | conflicts are strictly in order, below the head, not deleted, and no ancestor of a later document |
| JsonDbObjects.MergeTakesContent | src/partition/jsondbobject.cpp:270-333 | the head after a merge is a version that went in, with its uuid and content, and so is each conflict; a refused merge changes nothing |
| JsonDbObjects.HighestContentWins | src/partition/jsondbobject.cpp:301-305 | a version above all others that go in is the head, with its content |
| JsonDbObjects.OwnContentStays | src/partition/jsondbobject.cpp:280-291 | if the object itself has the highest version its content of it stays, whatever the other object has of that version |
| JsonDbObjects.ConflictsAreUnreplaced | src/partition/jsondbobject.cpp:295-315 | of the merged versions exactly those become conflicts that are not the head, not deleted and no ancestor of a later one |
| JsonDbObjects.MergeHistory | src/partition/jsondbobject.cpp:295-315 | the history after a merge has what the head knew and the replaced versions with what these knew, and nothing else |
| JsonDbObjects.MergeIsAuthentic | src/partition/jsondbobject.cpp:335-360 | only objects whose versions all are hashes of their contents are merged in, and the result is one if the object was |
| JsonDbObjects.MergeTakesHighest | src/partition/jsondbobject.cpp:301-305 | the head is the highest version by count and hash of all that went in |
| JsonDbObjects.RunTakesHighest | src/partition/jsondbobject.cpp:270-333 | over any run of merges the head is the highest version of everything merged |
| JsonDbObjects.RunsConverge | src/partition/jsondbobject.cpp:270-333 | runs that merge the same objects in any order and any number of times end with the same head |
| JsonDbObjects.SelfMergeIff | src/partition/jsondbobject.cpp:270-333 | a merge result merged with itself is unchanged if and only if its history knows none of its conflicts |
| JsonDbObjects.SelfMergeChanges | src/partition/jsondbobject.cpp:295-315 | a merge with a tombstone that knows a newer version: the result has a conflict it knows, and loses it when merged with itself |
| JsonDbObjects.MergeIsIdempotent | src/partition/jsondbobject.cpp:270-333 | when histories hold only older versions, merging a merge result with itself changes nothing |
| JsonDbObjects.JsonDbObject.UpdateVersionReplicating | src/partition/jsondbobject.cpp:270-333 | the loops over the documents compute the merge that the laws above are about, and an invalid source leaves the object as it is |
| JsonDbObjects.JsonDbObject.UpdateVersionOptimistic | src/partition/jsondbobject.cpp:163-263 | the branches and loops compute the write that the laws below are about |
| JsonDbObjects.WriteOnLive | src/partition/jsondbobject.cpp:209-257 | a live head changes exactly by a non-replay that names it; the count grows by one, the replaced head becomes an ancestor, and anything else leaves the object unchanged |
| JsonDbObjects.AcceptedIff | src/partition/jsondbobject.cpp:194-257 | a write is accepted if and only if it names the head or a conflict, is the first, finds a tombstone, or repeats a known version; any other write, and a repeated one, changes nothing |
| JsonDbObjects.WriteOnHead | src/partition/jsondbobject.cpp:209-217 | a first write, or one that names the head, is accepted; the head is then its document at the version reported, one count above the version it names with the hash of its content; a replay sets the version only |
| JsonDbObjects.WriteOnConflict | src/partition/jsondbobject.cpp:194-207 | a write that names a conflict leaves version and content of the head |
| JsonDbObjects.WriteHistory | src/partition/jsondbobject.cpp:236-250 | after an accepted write that is no replay the history has what the head knew and exactly the versions the write replaces, or nothing if history is not tracked |
| JsonDbObjects.WriteOnTombstone | src/partition/jsondbobject.cpp:219-251 | a write that names neither a tombstone nor a conflict resurrects it, one count above it, with its own content; no replay loses history by it |
| JsonDbObjects.ContentTakenIff | src/partition/jsondbobject.cpp:209-234 | an accepted write leaves its content in the object if and only if it is the first or names the head, and is no replay, or if it names neither the head nor a conflict and the head is a tombstone, or if the head has the same content; else the head keeps its own |
| JsonDbObjects.FirstReplayIsEmpty | src/partition/jsondbobject.cpp:209-217 | a first write whose version is that of its content stores the version and no content |
| JsonDbObjects.WriteKeepsAncestors | src/partition/jsondbobject.cpp:219-251 | a write keeps all ancestors unless it is a replay that resurrects a tombstone, and then exactly if its own history names them; the version an accepted write reports is the head or an ancestor |
| JsonDbObjects.AncestorsAreLost | src/partition/jsondbobject.cpp:219-234 | the replay of an old version over a tombstone drops the tombstone and what it knew |
| JsonDbObjects.NoLostUpdate | src/partition/jsondbobject.cpp:163-263 | over any run of writes, also from an empty object, the version each accepted write reported and every earlier head is ever after the head or an ancestor of it, and counts grow |
| JsonDbObjects.EmptyIsPlain | src/partition/jsondbobject.cpp:172-253 | an object that was never written is one such a run may start from |
| JsonDbObjects.ConflictsKeptIff | src/partition/jsondbobject.cpp:194-245 | an accepted write that is no replay keeps the conflicts it does not resolve if and only if the loop leaves none, that is if there is none or only the one it resolves; otherwise it stores a list of empty objects, not empty for a head with a version |
| JsonDbObjects.ConflictsAreLost | src/partition/jsondbobject.cpp:236-245 | a write that names a head with two conflicts loses both |
| JsonDbObjects.OtherConflictIsLost | src/partition/jsondbobject.cpp:194-245 | a write that resolves one of two conflicts loses the other |
| JsonDbObjects.ConflictIsSkipped | src/partition/jsondbobject.cpp:194-207 | of two conflicts of one version the loop leaves the second |
| ForwardKeys.FieldValueHasType | src/partition/jsondbindex.cpp:791-849 | every indexable value becomes one of the index's type, and values of that type stay as they are |
| ForwardKeys.IndexedIff | src/partition/jsondbindex.cpp:802-849 | a property has a field value if and only if it is null, a boolean, a number or a text, which in an index of numbers must read as one, or an array of one such element |
| ForwardKeys.IndexedAsText | src/partition/jsondbindex.cpp:802-817 | in an index of texts it is the text, the word null, true or false, or a text that reads as the number |
| ForwardKeys.IndexedAsNumber | src/partition/jsondbindex.cpp:818-843 | in an index of numbers it is the number, the one the text reads as, 1 for true, and 0 for false and null |
| ForwardKeys.TruncateIsPrefix | src/partition/jsondbindex.cpp:791-800 | a text keeps its beginning, as much as the index takes, and other values stay |
| ForwardKeys.CompareKeysIsOrder | src/partition/jsondbindex.cpp:650-711 | the order by type, value and uuid is total and only equal for equal keys |
| ForwardKeys.CompareValuesMeans | src/partition/jsondbindex.cpp:650-711 | null is least, then false, true, numbers in their order and texts by their first different unit |
| ForwardKeys.CompareKeysIsTransitive | src/partition/jsondbindex.cpp:650-711 | and transitive |
| ForwardKeys.SplitInvertsMake | src/partition/jsondbindex.cpp:734-883 | forwardKeySplit gives back value and uuid of a built key |
| ForwardKeys.BigEndianAt | src/partition/jsondbindex.cpp:734-861 | types, booleans and uuids are stored with the most significant byte first |
| ForwardKeys.TextBytesAt | src/partition/jsondbindex.cpp:734-760 | the units of a text are stored as little-endian machines have them in memory |
| ForwardKeys.IndexCompareIsOrder | src/partition/jsondbindex.cpp:624-711 | on built keys the byte comparison is the order by type, value and uuid, with the empty key least |
| IndexPlaces.PlacesExist | src/partition/jsondbindex.cpp:624-711 | for any codec of doubles byte strings have places in [0, 1), different for different strings and the empty one least, in which the keys an index builds stand in its order |
| Indexes.Index.IndexObject | src/partition/jsondbindex.cpp:445-490 | the keys of the object before the first that is too long are put, and it says whether these are all |
| Indexes.Index.DeindexObject | src/partition/jsondbindex.cpp:492-531 | the keys of the object before the first that is not there are removed, and it says whether these are all |
| Indexes.LiveIsRemovableIff | src/partition/jsondbindex.cpp:515-526 | a live object can be deindexed if and only if no two of its values are one field value to the index |
| Indexes.TruncatedTwins | src/partition/jsondbindex.cpp:508-526 | two texts that differ behind the length the index keeps: their object cannot be deindexed |
| Indexes.StrandedKey | src/partition/jsondbindex.cpp:508-526 | with a third value its key stays in the index when the object is taken out |
| Indexes.RemovedInStep | src/partition/jsondbindex.cpp:492-531 | deindexing an object leaves exactly the keys of the others |
| Indexes.AddedInStep | src/partition/jsondbindex.cpp:445-490 | indexing a new object adds exactly its keys |
| Indexes.Index.Update | src/partition/jsondbpartition.cpp:1544-1571 | over any run of changes the tree holds exactly the keys of the live objects, if and only if each old version leaves no key behind that the new one does not have and the new one's keys fit |
| Indexes.SeparateLeavesNothing | src/partition/jsondbindex.cpp:492-531 | nothing stays behind of an object whose values the index tells apart |
| IndexRows.IndexHasRows | src/partition/jsondbindex.cpp:445-531 | in an index in step with the objects every entry is at the place of a key built from a field value of its type and the uuid of a live object, as queries need it |
| IndexRows.RowsAreFieldValues | src/partition/jsondbindex.cpp:445-531 | in an index in step with the objects there is a row for a value and a uuid if and only if a live object with that uuid, of a type the index is for, has a property with that field value |
| IndexTerms.MatchStartsWithPrefix | src/partition/jsondbindexquery.cpp:571-612 | what a wildcard pattern matches starts with the prefix the query takes from it |
| IndexTerms.PrefixEndsAtSpecial | src/partition/jsondbindexquery.cpp:571-612 | the prefix reaches exactly up to the first of the characters * ? [ ] and backslash |
| IndexTerms.ExactMatchIs | src/partition/jsondbindexquery.cpp:131-143 | a case-sensitive wildcard pattern matches exactly what begins with its prefix and goes on as the engine says of the rest |
| IndexTerms.LessThanIsOrder | src/partition/jsondbindexquery.cpp:666-698 | values are less or greater than others of their type only, and as in the order of the index |
| IndexTerms.DenseConstraints | src/partition/jsondbindexquery.cpp:57-137 | constraints that are not sparse match a stretch of the order without gaps |
| IndexTerms.TermMeaning | src/partition/jsondbindexquery.cpp:57-145 | for every operator the constraints of a term let through exactly the field values that stand in its relation to the term's value: below, above or equal in the order of the index, in the list, with the prefix, matched by the pattern, or not so |
| IndexTerms.QueryMeaning | src/partition/jsondbindexquery.cpp:562-630 | the constraints of a query let through exactly what meets all its terms |
| IndexTerms.UpperBoundHolds | src/partition/jsondbindexquery.cpp:569-612 | a comparison's upper bound is not below what meets it; a pattern sets both bounds alike |
| IndexTerms.BoundHolds | src/partition/jsondbindexquery.cpp:569-612 | a value that meets a term's constraint is not below the bound the term sets |
| IndexTerms.MinIsSafeUnlessMisled | src/partition/jsondbindexquery.cpp:569-630 | the lower bound of a compiled query loses nothing unless a negated pattern set it last |
| IndexTerms.SingleTermIsSafeIff | src/partition/jsondbindexquery.cpp:594-612 | for one term the bound is safe if and only if the term is no negated pattern with a prefix; else a value is lost |
| IndexTerms.MisledIsSafeIff | src/partition/jsondbindexquery.cpp:569-630 | a bound set by a negated pattern loses nothing if and only if the other terms alone let nothing below it through |
| IndexTerms.HigherBoundSaves | src/partition/jsondbindexquery.cpp:569-630 | so it does when another term sets a bound at least as high |
| IndexQueries.IndexQuery.CompileOrQueryTerm | src/partition/jsondbindexquery.cpp:569-630 | the branches add the constraints and bounds of the compiled query, whose meaning is `IndexTerms.QueryMeaning` |
| IndexQueries.IndexQuery.First | src/partition/jsondbindexquery.cpp:424-471 | the first row in scope, read from the cursor's key, that meets all constraints, types and residual query, or none if no row does |
| IndexQueries.IndexQuery.Next | src/partition/jsondbindexquery.cpp:525-561 | the next such row; the early stop loses none |
| IndexQueries.IndexQuery.StopIsSafe | src/partition/jsondbindexquery.cpp:536-541 | past the first row that fails dense constraints no row meets them |
| IndexQueries.IndexQuery.Results | src/partition/jsondbindexquery.cpp:424-561 | first and repeated next give, each once and in index order, ascending or descending, exactly the rows whose value meets every term of the query and whose object is not deleted, of an asked type and meets the rest of it, unless a negated pattern set the bound |
| IndexQueries.IndexQuery.MisledQueryLoses | src/partition/jsondbindexquery.cpp:220-284 | with such a pattern a row that matches is out of scope |
| QueryModels.SortedIsUnique | src/client/qjsondbquerymodel_p.cpp:100-131 | a sorted list of given rows is unique |
| QueryModels.SortedDirection | src/client/qjsondbmodelutils_p.cpp:122-145 | in a sorted list values rise when ascending and fall when descending, and uuids order equal values in the same direction |
| QueryModels.DescendingIsReversed | src/client/qjsondbmodelutils_p.cpp:122-145 | descending is ascending read backwards |
| QueryModels.WindowOfPart | src/client/qjsondbquerymodel_p.cpp:289-301 | the rows of a window that belong to one partition are one stretch of that partition's rows |
| QueryModels.PartOfInsert | src/client/qjsondbquerymodel_p.cpp:123-127 | inserting a row into all rows is inserting it into the rows of its partition, and into no other |
| QueryModels.PartOfRemove | src/client/qjsondbquerymodel_p.cpp:146-149 | removing likewise |
| QueryModels.FindIndexOfFinds | src/client/qjsondbquerymodel_p.cpp:238-250 | the binary search finds the place of a key |
| QueryModels.FindIndexOfMisses | src/client/qjsondbquerymodel_p.cpp:238-250 | and gives -1 when the key is not there |
| QueryModels.PlaceInPart | src/client/qjsondbquerymodel_p.cpp:291-299 | a row's place in its partition is the number of its partition's rows before it |
| QueryModels.QueryModel.AddItem | src/client/qjsondbquerymodel_p.cpp:100-131 | a known object changes nothing, a new one is entered; all rows stay the merge of the partitions' rows and the inverse of the sort values, and the row read last keeps its index |
| QueryModels.QueryModel.DeleteItem | src/client/qjsondbquerymodel_p.cpp:133-158 | the row goes; the row read last is followed, or forgotten if it was this one |
| QueryModels.QueryModel.UpdateItem | src/client/qjsondbquerymodel_p.cpp:161-236 | the row moves to its new place; the row read last is followed through moves in both directions |
| QueryModels.QueryModel.CreateObjectRequests | src/client/qjsondbquerymodel_p.cpp:261-334 | each partition is asked for one stretch that is exactly its rows of the window |
| Ephemeral.Notification.NotifyIfMatches | src/partition/jsondbnotification.cpp:81-126 | what is sent, with the effective action, for the versions before and after |
| Ephemeral.EventByAnswers | src/partition/jsondbnotification.cpp:87-106 | of a write a notification says Create if and only if the object enters the query's answer, Update if it stays and Remove if it leaves, with the new document or the old one; nothing else, but for a new object when the query matches the empty object, and a tombstone that revives |
| Ephemeral.AnswersByUuidAndType | src/partition/jsondbquery.cpp:130-222 | a query for a uuid is answered by the object of that uuid, one for a type by the objects of that type |
| Ephemeral.NoticeIsFiltered | src/partition/jsondbnotification.cpp:108-124 | it is sent if the action is asked for and the document may be read |
| Ephemeral.NewIsUpdate | src/partition/jsondbnotification.cpp:90-106 | a query for another value than 1 is told of a new object as of an update |
| Ephemeral.MissedSendsNothing | src/daemon/jsondbephemeralpartition.cpp:206-240 | a notification not filed under a key of the change would have sent nothing |
| Ephemeral.ChangesAreProper | src/daemon/jsondbephemeralpartition.cpp:104-150 | the changes of a batch of typed objects are such that the lookup by key is right for them |
| Ephemeral.ActionTells | src/daemon/jsondbephemeralpartition.cpp:104-150 | a change is called a removal if and only if it leaves a tombstone, and a creation if and only if there was nothing before |
| Ephemeral.EphemeralPartition.UpdateObjects | src/daemon/jsondbephemeralpartition.cpp:104-150 | the objects after the batch, and the changes that are passed on, none if it failed |
| Ephemeral.FailsIff | src/daemon/jsondbephemeralpartition.cpp:104-150 | a batch fails if and only if it has a tombstone whose uuid was last written by another tombstone, or was not written before in the batch and is not in the store |
| Ephemeral.FailedBatch | src/daemon/jsondbephemeralpartition.cpp:124-132 | a failed batch has stored all objects before the failing tombstone |
| Ephemeral.FailedBatchIsUndoneIff | src/daemon/jsondbephemeralpartition.cpp:124-132 | it leaves the store as it was if and only if before the first such tombstone the last write of each uuid put back what the store held |
| Ephemeral.HalfABatch | src/daemon/jsondbephemeralpartition.cpp:104-150 | an object and a tombstone of an unknown uuid: the batch fails and the object is stored |
| Ephemeral.WriteKeepsViewIff | src/partition/jsondbnotification.cpp:87-106 | the event of a write keeps a view equal to the query's answer if and only if no tombstone is matched that did not match before; it creates only what is not in the view, and updates and removes only what is, if and only if no new object is matched as no object is |
| Ephemeral.TombstoneRevives | src/partition/jsondbnotification.cpp:87-106 | a tombstone of another type than its object: those who ask for that type keep a removed object in their view |
| Ephemeral.BatchKeepsView | src/partition/jsondbnotification.cpp:81-126 | folding the events of a successful batch turns the answer before into the answer after, each event applying to the view it finds exactly if no new object comes unheralded |
| Ephemeral.EphemeralPartition.AddNotification | src/daemon/jsondbephemeralpartition.cpp:152-181 | the notification is filed once, under the key of its query |
| Ephemeral.EphemeralPartition.RemoveNotification | src/daemon/jsondbephemeralpartition.cpp:183-204 | afterwards it is filed nowhere and all others are as before |
| Ephemeral.WithoutUndoes | src/daemon/jsondbephemeralpartition.cpp:152-204 | removing a notification undoes adding it |
| Ephemeral.EphemeralPartition.ObjectsUpdated | src/daemon/jsondbephemeralpartition.cpp:206-240 | every notification is sent what it has to say once for each time its key is among those of a change; for regular changes that is exactly what a full scan would send |
| Ephemeral.LookupIsRightIff | src/daemon/jsondbephemeralpartition.cpp:206-240 | the lookup by key sends every possible notification what a full scan would if and only if the object has a type before, or now if it is new, and no type is its uuid or the generic key |
| JsonStreams.DrainTakesWholeObjects | src/jsonstream/jsonstream.cpp:132-145 | from any stretch of the stream the decoder takes exactly the objects that are there in full and keeps the rest |
| JsonStreams.EncodeStarts | src/jsonstream/jsonstream.cpp:108-152 | what is sent for an object starts with the letters qbjs, version 1 and the size of the rest |
| JsonStreams.JunkIsDropped | src/jsonstream/jsonstream.cpp:132-145 | bytes with another header are dropped with all that came with them, after the objects before them are received |
| JsonStreams.JsonStream.Send | src/jsonstream/jsonstream.cpp:89-106 | the bytes on the device and in the buffer grow by the encoding, whatever the device takes, and by nothing on an error |
| JsonStreams.JsonStream.DeviceBytesWritten | src/jsonstream/jsonstream.cpp:149-159 | no byte is lost or added when the buffer is written |
| JsonStreams.JsonStream.Decode | src/jsonstream/jsonstream.cpp:132-145 | the inner loop computes what is decoded and what is left |
| JsonStreams.JsonStream.DeviceReadyRead | src/jsonstream/jsonstream.cpp:108-146 | however the bytes arrive, the whole objects are received in order and less than one object stays in the buffer |
| JsonStreams.TakeStep | src/jsonstream/jsonstream.cpp:89-159 | every send, partial write, arrival and read keeps: received is a prefix of sent, and buffers and device hold exactly the encoding of the rest |
| JsonStreams.Run | src/jsonstream/jsonstream.cpp:89-159 | over every interleaving the receiver has a prefix of what was sent; without device errors that is what the steps sent |
| JsonStreams.AllDelivered | src/jsonstream/jsonstream.cpp:89-159 | when nothing is under way everything sent has been received |
| JsonStreams.DeliverAll | src/jsonstream/jsonstream.cpp:89-159 | from every state the program can be in, one write, one arrival and one read deliver everything that was sent |

## Left out

- HBtree.HBtree.Commit: asks that every page fits (`health.fit`); the program would write a page that is too full over itself. `HBtree.HBtree.Put` says exactly when a put leaves one, `HBtree.HBtree.MoveNode` when a borrowed node does.
- HBtree.HBtree.Del: asks that no branch has fewer than two children, which the program asserts, and that no leaf is empty (`health.full`). A put keeps both, and a del does when keys have one length; with mixed lengths a page may stay that can neither borrow nor be merged. That `fit` is kept is told for each borrowed node, not for the whole del.
- HBtree.HBtree.Put: read-only transactions and a put without a transaction, which opens and commits one, are not modelled.
- HBtree.HBtree.Sync: asks for a sync that is safe, see `SyncRuns.SyncIsSafeIff` for the other case. The list of residue pages in a marker is a set; storing it on overflow pages is not modelled, nor the flag that is never cleared.
- Cursors.Cursor.Previous: asks that the last leaf has an entry at the cursor's or above (`CanGoBack`), as it has after every operation but seek and a seekRange to the leaf on the right; otherwise the program reads behind the last entry of the leaf.
- IndexQueries.IndexQuery.Results: a negated pattern that set the bound is excluded from completeness, because rows are then lost; the filter is over stored, truncated values; every row's object is in the object table.
- IndexQueries.IndexQuery.Next: may be called only at a row that was returned, as the loops of the callers do.
- Ephemeral.EphemeralPartition.ObjectsUpdated: a notification that was destroyed but not removed, whose pointer is null, is not modelled.
- JsonStreams.JsonStream.DeviceReadyRead: read errors are not modelled; an object without members is decoded like any other.
- QueryModels.QueryModel.UpdateItem: an object stays in its partition; the page cache beside the rows is not modelled.
- DiskPages.ReadCommitted: node pages only; that an overflow page of the tree holds no more than its capacity is not kept as an invariant, `putDataOnOverflow` cuts it so.
- Page numbers, offsets and counts do not wrap around at 16 or 32 bits.
- Page fill is compared exactly, where the program divides doubles.
- The page cache and its pruning, statistics, debug output, file locks, fsync and I/O errors.
- Sibling numbers cached in pages: a cursor finds siblings from the branches above it, as the program does when they are unknown.
- Cursors used while the tree is written to.
- The checksum and the md5 hash are functions; a torn page is one whose checksum does not match.
- Queries on the uuid index, whose descending seek tests validity the wrong way round, and the offset cache of an index.
- Collation and property functions of indexes, which are foreign engines; the values they give are parameters.
- Signs and blanks in the count of a version string; counts above the integer range.
- The first load of the query model, the chunks in which a window is fetched, and skipping a request for the window that is being fetched.
- Watchers, requests, the connection's queue, access control beyond a predicate, schemas, and start-up.

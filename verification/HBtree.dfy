// The B+tree as an object over a file of pages: put, get, del, commit, abort, sync and open.
module HBtree {
  import opened HBtreeRecords
  import opened OrderedNodes
  import opened TreeInvariant
  import opened TreeSteps
  import opened PageAccounts
  import opened Transaction
  import opened SplitArithmetic
  import opened SplitPaths
  import opened Descent
  import opened OverflowChains
  import opened Splitting
  import opened LeafUpdates
  import opened Rebalancing
  import opened Durability

  lemma CollectibleIsOld(b: Books, n: PageNo)
    requires BooksOk(b) && n in b.collectible
    ensures n < b.lastPage
  {
    assert HasRole(b.work, n, Collectible);
    assert n in b.View();
  }

  /** Pages are added, none is changed. */
  ghost predicate Keeps(before: Pages, after: Pages) {
    forall p :: p in before ==> p in after && after[p] == before[p]
  }

  lemma DirtyBounds(b: Books)
    requires BooksOk(b)
    ensures b.fileEnd <= b.lastPage && forall p :: p in b.dirty ==> 2 < p < b.lastPage
  {
    hide SyncedOk, CommittedOk, WorkOk, ApartOk;
  }

  lemma KeptFront(b: Books, after: Pages, path: seq<PageNo>)
    requires |path| > 0 && AllDirty(b, path) && Keeps(b.dirty, after)
    ensures PagesOn(after, Front(path)) == PagesOn(b.dirty, Front(path))
  {
    forall j | 0 <= j < |path| - 1 ensures path[j] in after && after[path[j]] == b.dirty[path[j]] {
      var p := path[j];
      assert p in b.dirty;
    }
  }

  lemma NothingToRemove(p: Page, o: real)
    requires p.NodePage?
    ensures !Contains(p.nodes, o) ==> PageRemove(p, o) == p
  {
  }

  class HBtree {
    const lim: Limits

    // the file
    var disk: Pages
    var fileEnd: int
    var sync1: StoredMarker
    var sync2: StoredMarker

    // in memory
    var dirtyPages: Pages
    var collectiblePages: set<PageNo>
    var residueHistory: set<PageNo>
    var lastPage: int
    var lastSyncedId: nat
    var marker: Marker
    var rootPage: PageNo
    var cursorDisrupted: bool

    // the trees the roots stand for, and the roles of the page numbers in each
    ghost var work: Tree
    ghost var committed: Tree
    ghost var synced: Tree
    ghost var workVer: Version
    ghost var committedVer: Version
    ghost var syncedVer: Version
    ghost var durable: Marker
    ghost var health: Health
    ghost var committedHealth: Health
    ghost var syncedHealth: Health

    ghost function Accounts(): Books
      reads this
    {
      Books(disk, fileEnd, dirtyPages, collectiblePages, residueHistory, lastPage, lastSyncedId, marker.revision,
            marker.residueHistory, workVer, committedVer, syncedVer, durable.residueHistory, durable.size, durable.revision)
    }

    /** A running transaction: x are new pages not in the tree yet, s those whose size is not settled. */
    ghost predicate InTxn(x: set<PageNo>, s: set<PageNo>)
      reads this
    {
      && TxnOk(Accounts(), work, x, lim) && Healthy(Accounts().View(), work, s, lim.pageSize, health)
      && rootPage == work.root && lim.pageSize >= MIN_PAGE_SIZE
    }

    ghost predicate OnPath(path: seq<PageNo>, level: nat, o: real)
      reads this
    {
      DownTo(Accounts(), work, path, level, o, lim, health) && rootPage == work.root && lim.pageSize >= MIN_PAGE_SIZE
    }

    /** The tree is one leaf that the transaction has written to. */
    ghost predicate RootIsLeaf()
      reads this
    {
      rootPage in dirtyPages && dirtyPages[rootPage].NodePage? && dirtyPages[rootPage].leaf
    }

    // ---- pages -----------------------------------------------------------------------------------------------

    method GetPage(p: PageNo) returns (page: Page)
      requires p in Accounts().View()
      ensures page == Accounts().View()[p]
    {
      page := if p in dirtyPages then dirtyPages[p] else disk[p];
    }

    /** newPage: the number comes from the collectible pages if there are any. */
    method TakeNumber() returns (n: PageNo, collected: bool)
      requires BooksOk(Accounts())
      modifies `collectiblePages, `lastPage
      ensures MayTake(old(Accounts()), n) && (collected <==> n in old(collectiblePages))
      ensures collectiblePages == old(collectiblePages) - {n}
      ensures lastPage == if old(collectiblePages) == {} then old(lastPage) + 1 else old(lastPage)
    {
      collected := collectiblePages != {};
      if collected {
        Inhabited(collectiblePages);
        n :| n in collectiblePages;
        CollectibleIsOld(Accounts(), n);
        collectiblePages := collectiblePages - {n};
      } else {
        n := lastPage;
        lastPage := lastPage + 1;
      }
    }

    method NewNodePage(leaf: bool) returns (n: PageNo)
      requires BooksOk(Accounts())
      modifies `collectiblePages, `lastPage, `dirtyPages, `workVer
      ensures MayTake(old(Accounts()), n)
      ensures Accounts() == NewPage(old(Accounts()), n, BlankPage(old(Accounts()), n, leaf))
    {
      hide BooksOk;
      var collected;
      n, collected := TakeNumber();
      dirtyPages := dirtyPages[n := NodePage(leaf, [], 0, 0, [], lastSyncedId + 1, marker.revision + 1, collected)];
      workVer := Version(workVer.live + {n}, workVer.role[n := Live]);
    }

    /** addHistoryNode on page n for the version in page p that n supersedes. */
    method AddHistoryNode(n: PageNo, p: PageNo)
      requires n in dirtyPages && dirtyPages[n].NodePage? && p in Accounts().View() && Accounts().View()[p].NodePage?
      modifies `dirtyPages, `residueHistory, `workVer
      ensures Accounts() == Supersede(old(Accounts()), p, n, SpaceLeft(lim.pageSize, old(Accounts()).View()[p]) >= HISTORY_NODE_SIZE)
    {
      var was := GetPage(p);
      var fits := SpaceLeft(lim.pageSize, was) >= HISTORY_NODE_SIZE;
      if fits {
        dirtyPages := dirtyPages[n := dirtyPages[n].(history := [HistoryNode(p, was.syncId, was.commitId)] + was.history)];
      } else {
        residueHistory := residueHistory + HistoryPages(was.history) + {p};
        dirtyPages := dirtyPages[n := dirtyPages[n].(history := [])];
      }
      ghost var r := if fits then Old(n) else Residue;
      workVer := Version(workVer.live - {p}, Reroled(workVer.role, p, r)[p := r]);
    }

    /** touchNodePage on a clean page: a copy under a new number that takes the page into its history. */
    method TouchClean(p: PageNo) returns (n: PageNo)
      requires BooksOk(Accounts()) && p in workVer.live && p !in dirtyPages && p in disk && disk[p].NodePage?
      modifies `dirtyPages, `collectiblePages, `residueHistory, `lastPage, `workVer
      ensures MayTake(old(Accounts()), n)
      ensures Accounts() == TouchTop(old(Accounts()), p, n, lim.pageSize)
    {
      hide BooksOk, MayTake, Touch;
      ghost var b := Accounts();
      var page := disk[p];
      n := NewNodePage(page.leaf);
      TouchInSteps(b, p, n, SpaceLeft(lim.pageSize, page) >= HISTORY_NODE_SIZE, page.leaf);
      ghost var b1 := Accounts();
      dirtyPages := dirtyPages[n := dirtyPages[n].(nodes := page.nodes, upper := page.upper, lower := page.lower)];
      assert Accounts() == Edit(b1, n, CopyOf(b1, p, n));
      AddHistoryNode(n, p);
    }

    // ---- searchPage ------------------------------------------------------------------------------------------

    /** One step down with modify: the child on the way to the key is touched and linked in its parent. */
    method Descend(path: seq<PageNo>, ghost level: nat, key: Key) returns (n: PageNo, ghost was: PageNo)
      requires OnPath(path, level + 1, key.ord)
      modifies `dirtyPages, `collectiblePages, `residueHistory, `lastPage, `workVer, `work
      ensures OnPath(path + [n], level, key.ord)
      ensures work.entries == old(work.entries) && SameLeaves(old(Accounts().View()), old(work.frames), Accounts().View(), work.frames)
      ensures StepDown(old(Accounts()), old(work), Accounts(), work, path, level, key.ord, was, n, lim.pageSize)
    {
      hide DownTo, ChildAt, BooksOk, ChildIndex, TouchTop, MayTake, TouchBelow, SameLeaves, Renamed, StepDown;
      ghost var b, t := Accounts(), work;
      DownToChild(b, t, path, level + 1, key.ord, lim, health);
      assert Last(path) in dirtyPages && dirtyPages[Last(path)].NodePage? by {
        PathIsDirty(b, t, path, level + 1, key.ord, lim, health);
      }
      var parent := dirtyPages[Last(path)];
      var i := ChildIndex(parent.nodes, key.ord);
      var child := parent.nodes[i].value.page;
      was := child;
      if child in dirtyPages {
        n := child;
        LeavesStay(b.View(), t.frames);
        DownAsIs(b, t, path, level, key.ord, child, lim, health);
      } else {
        n := TouchClean(child);
        PathEnd(b, t, path, level + 1, key.ord, lim, health);
        LinkKeepsLeaves(b, child, n, Last(path), i, lim.pageSize, t.frames);
        DownTouched(b, t, path, level, key.ord, child, n, i, lim, health);
        TouchDown(b, t, path, level, key.ord, i, child, n, lim, health);
        assert Last(path) in dirtyPages && dirtyPages[Last(path)] == parent by {
          TouchTopElsewhere(b, child, n, lim.pageSize, Last(path));
        }
        dirtyPages := dirtyPages[Last(path) := Rewired(parent, i, n)];
        work := t.(frames := Renamed(t.frames, child, n));
        TouchBelowInSteps(b, child, n, Last(path), i, lim.pageSize);
      }
    }

    /** searchPage: the root is touched. */
    method TouchRoot(ghost o: real) returns (root: PageNo, ghost level: nat)
      requires InTxn({}, {}) && rootPage != INVALID_PAGE && 0.0 <= o < TOP
      modifies `dirtyPages, `collectiblePages, `residueHistory, `lastPage, `workVer, `work, `rootPage
      ensures old(rootPage in dirtyPages) ==> root == old(rootPage) && Accounts() == old(Accounts()) && rootPage == root && work == old(work)
      ensures OnPath([root], level, o) && RootDown(old(Accounts()), old(work), Accounts(), work, root, level, lim.pageSize)
      ensures work.entries == old(work.entries) && SameLeaves(old(Accounts().View()), old(work.frames), Accounts().View(), work.frames)
    {
      hide DownTo, BooksOk, TouchTop, MayTake, TxnOk, Healthy, SameLeaves, Renamed, RootDown;
      ghost var b, t := Accounts(), work;
      AtRoot(b, t, o, lim, health);
      level := t.frames[rootPage].level;
      if rootPage in dirtyPages {
        root := rootPage;
        LeavesStay(b.View(), t.frames);
        RootAsIs(b, t, lim);
      } else {
        root := TouchClean(rootPage);
        TouchKeepsLeaves(b, t.root, root, lim.pageSize, t.frames);
        RootTouched(b, t, root, lim);
        TouchDownTop(b, t, o, root, lim, health);
        rootPage := root;
        work := t.(root := root, frames := Renamed(t.frames, t.root, root));
      }
    }

    /** searchPage with modify: from the root down to the leaf for the key, every page on the way touched. */
    method SearchForWrite(key: Key) returns (path: seq<PageNo>, ghost way: seq<PageNo>)
      requires InTxn({}, {}) && rootPage != INVALID_PAGE && 0.0 <= key.ord < TOP
      modifies `dirtyPages, `collectiblePages, `residueHistory, `lastPage, `workVer, `work, `rootPage
      ensures OnPath(path, 0, key.ord)
      ensures old(RootIsLeaf()) ==> path == [rootPage] && rootPage == old(rootPage) && dirtyPages == old(dirtyPages) && work == old(work)
      ensures WayTo(old(work), way, key.ord) && Retraces(dirtyPages, path, old(Accounts()), way, lim.pageSize)
      ensures work.entries == old(work.entries) && SameLeaves(old(Accounts().View()), old(work.frames), Accounts().View(), work.frames)
    {
      hide DownTo, InTxn, SameLeaves, StepDown, RootDown, OnWay, Retraces, WayTo;
      ghost var b, t := Accounts(), work;
      var root;
      ghost var level;
      root, level := TouchRoot(key.ord);
      path, way := [root], [t.root];
      RootIsWay(b, t, Accounts(), work, root, level, key.ord, lim.pageSize);
      var leaf := IsLeaf(path, level, key.ord);
      while !leaf
        invariant OnPath(path, level, key.ord) && work.entries == t.entries && SameLeaves(b.View(), t.frames, Accounts().View(), work.frames)
        invariant old(RootIsLeaf()) ==> leaf && path == [rootPage] && rootPage == old(rootPage) && dirtyPages == b.dirty && work == t
        invariant OnWay(b, t, Accounts(), work, path, way, level, key.ord, lim.pageSize)
        invariant leaf <==> level == 0
        decreases level
      {
        ghost var c, u := Accounts(), work;
        var n;
        ghost var was;
        n, was := Descend(path, level - 1, key);
        LeavesOnward(b.View(), t.frames, c.View(), u.frames, Accounts().View(), work.frames);
        WayStep(b, t, c, u, Accounts(), work, path, way, level - 1, key.ord, was, n, lim.pageSize);
        way := way + [was];
        path := path + [n];
        level := level - 1;
        leaf := IsLeaf(path, level, key.ord);
      }
      WayIsDown(b, t, Accounts(), work, path, way, key.ord, lim.pageSize);
    }

    method IsLeaf(path: seq<PageNo>, ghost level: nat, ghost o: real) returns (leaf: bool)
      requires OnPath(path, level, o)
      ensures leaf <==> level == 0
      ensures |path| > 0 && Last(path) in dirtyPages && dirtyPages[Last(path)].NodePage? && leaf == dirtyPages[Last(path)].leaf
    {
      hide DownTo;
      PathIsDirty(Accounts(), work, path, level, o, lim, health);
      DownToChild(Accounts(), work, path, level, o, lim, health);
      leaf := dirtyPages[Last(path)].leaf;
    }

    // ---- overflow pages --------------------------------------------------------------------------------------

    method NewOverflowPage(chunk: Bytes) returns (n: PageNo)
      requires BooksOk(Accounts())
      modifies `collectiblePages, `lastPage, `dirtyPages, `workVer
      ensures MayTake(old(Accounts()), n)
      ensures Accounts() == NewPage(old(Accounts()), n, OverflowPage(chunk, INVALID_PAGE))
    {
      hide BooksOk;
      var collected;
      n, collected := TakeNumber();
      dirtyPages := dirtyPages[n := OverflowPage(chunk, INVALID_PAGE)];
      workVer := Version(workVer.live + {n}, workVer.role[n := Live]);
    }

    /** One more page at the end of a chain. */
    method AppendOverflowPage(prev: PageNo, chunk: Bytes, ghost x: set<PageNo>, ghost s: set<PageNo>, ghost added: Chains, ghost o: real,
                              ghost first: PageNo, ghost data: Bytes) returns (n: PageNo)
      requires InTxn(x + added.Keys, s) && Building(Accounts().View(), added, o, first, prev, data) && |chunk| > 0
      requires prev in dirtyPages && dirtyPages[prev].OverflowPage?
      modifies `dirtyPages, `collectiblePages, `lastPage, `workVer
      ensures InTxn(x + added.Keys + {n}, s) && n !in x + added.Keys && n !in old(dirtyPages)
      ensures Building(Accounts().View(), Extended(added, n, chunk, o), o, first, n, data + chunk)
      ensures n in dirtyPages && dirtyPages[n].OverflowPage?
      ensures forall p :: p in old(dirtyPages) && p != prev ==> p in dirtyPages && dirtyPages[p] == old(dirtyPages)[p]
    {
      hide BooksOk, TxnOk, Healthy, ChainsOk;
      ghost var v, x1, was := Accounts().View(), x + added.Keys, dirtyPages;
      assert v[prev] == dirtyPages[prev];
      n := AddOverflowPage(chunk, x1, s);
      EditOverflowTxn(Accounts(), work, x1 + {n}, prev, dirtyPages[prev].(next := n), lim, health, s);
      dirtyPages := dirtyPages[prev := dirtyPages[prev].(next := n)];
      assert Accounts() == Edit(Accounts().(dirty := was[n := OverflowPage(chunk, INVALID_PAGE)]), prev, was[prev].(next := n));
      BuildingPages(v, added, o, first, prev, data);
      NextPage(v, added, o, first, prev, data, n, chunk, Accounts().View());
    }

    /** putDataOnOverflow: the value cut into pages, each pointing to the next. */
    method PutDataOnOverflow(value: Bytes, ghost o: real, ghost x: set<PageNo>, ghost s: set<PageNo>)
      returns (first: PageNo, ghost added: Chains)
      requires InTxn(x, s) && |value| > 0 && lim.pageSize >= MIN_PAGE_SIZE
      modifies `dirtyPages, `collectiblePages, `lastPage, `workVer
      ensures InTxn(x + added.Keys, s) && added.Keys !! x && added.Keys !! old(dirtyPages).Keys
      ensures AddedChains(Accounts().View(), work, added.Keys, added, o)
      ensures first in added && added[first] == Chain(o, value)
      ensures old(dirtyPages).Keys <= dirtyPages.Keys && forall p :: p in old(dirtyPages) ==> dirtyPages[p] == old(dirtyPages)[p]
    {
      hide InTxn, ChainsOk, Building, Extended;
      ghost var before := dirtyPages;
      var sizePut := ChunkEnd(value, 0);
      first := AddOverflowPage(value[..sizePut], x, s);
      added := map[first := Chain(o, value[..sizePut])];
      FirstPage(Accounts().View(), first, value[..sizePut], o);
      var prev := first;
      assert x + added.Keys == x + {first};
      while sizePut < |value|
        invariant 0 < sizePut <= |value|
        invariant InTxn(x + added.Keys, s) && added.Keys !! x && added.Keys !! before.Keys
        invariant Building(Accounts().View(), added, o, first, prev, value[..sizePut])
        invariant before.Keys <= dirtyPages.Keys && forall p :: p in before ==> dirtyPages[p] == before[p]
        invariant prev in dirtyPages && dirtyPages[prev].OverflowPage? && prev !in before
      {
        var end := ChunkEnd(value, sizePut);
        var n := AppendOverflowPage(prev, value[sizePut..end], x, s, added, o, first, value[..sizePut]);
        assert value[..end] == value[..sizePut] + value[sizePut..end];
        ExtendedKeys(added, n, value[sizePut..end], o);
        assert x + added.Keys + {n} == x + (added.Keys + {n});
        added := Extended(added, n, value[sizePut..end], o);
        prev, sizePut := n, end;
      }
      assert value[..sizePut] == value;
      BuildingPages(Accounts().View(), added, o, first, prev, value);
    }

    function ChunkEnd(value: Bytes, from: nat): (end: nat)
      requires from < |value| && lim.pageSize >= MIN_PAGE_SIZE
      ensures from < end <= |value| && end - from <= OverflowCapacity(lim.pageSize)
      ensures end < |value| ==> end - from == OverflowCapacity(lim.pageSize)
    {
      if |value| - from <= OverflowCapacity(lim.pageSize) then |value| else from + OverflowCapacity(lim.pageSize)
    }

    /** A new overflow page next to the pages x. */
    method AddOverflowPage(chunk: Bytes, ghost x: set<PageNo>, ghost s: set<PageNo>) returns (n: PageNo)
      requires InTxn(x, s)
      modifies `dirtyPages, `collectiblePages, `lastPage, `workVer
      ensures InTxn(x + {n}, s) && n !in x && n != INVALID_PAGE && n !in old(dirtyPages)
      ensures dirtyPages == old(dirtyPages)[n := OverflowPage(chunk, INVALID_PAGE)]
    {
      hide BooksOk, Healthy, TreeOk, LocalsOk;
      ghost var b := Accounts();
      n := NewOverflowPage(chunk);
      NewOverflowTxn(b, work, x, n, chunk, lim, health, s);
    }

    /** walkOverflowPages: the bytes of a chain and the pages they are on. */
    method WalkOverflowPages(start: PageNo, ghost chains: Chains) returns (data: Bytes, pages: set<PageNo>)
      requires ChainsOk(Accounts().View(), chains) && start in chains
      ensures data == chains[start].rest && pages == PagesFrom(Accounts().View(), chains, start)
      ensures forall c :: c in pages ==> c in chains && chains[c].owner == chains[start].owner
    {
      data, pages := [], {};
      var p := start;
      ghost var rest := chains[start].rest;
      while p != INVALID_PAGE
        invariant p != INVALID_PAGE ==> p in chains && chains[p] == Chain(chains[start].owner, rest)
        invariant p == INVALID_PAGE ==> rest == []
        invariant data + rest == chains[start].rest
        invariant pages + (if p == INVALID_PAGE then {} else PagesFrom(Accounts().View(), chains, p)) == PagesFrom(Accounts().View(), chains, start)
        invariant forall c :: c in pages ==> c in chains && chains[c].owner == chains[start].owner
        decreases |rest|
      {
        assert ChainOk(Accounts().View()[p], chains[p], chains);
        var page := GetPage(p);
        data, pages := data + page.data, pages + {p};
        p := page.next;
        rest := if p == INVALID_PAGE then [] else chains[p].rest;
      }
    }

    // ---- split -----------------------------------------------------------------------------------------------

    /** The last page of the path stands for `copy`, which is to be split. */
    ghost predicate Splits(path: seq<PageNo>, level: nat, copy: Page, x: set<PageNo>, grown: bool)
      reads this
    {
      && Halving(Accounts(), work, path, level, copy, x, lim, health, grown)
      && rootPage == work.root && lim.pageSize >= MIN_PAGE_SIZE
    }

    /** The parent at the end of the path has yet to learn of the right half r of its child l. */
    ghost predicate Links(path: seq<PageNo>, level: nat, l: PageNo, r: PageNo, key: Key, grown: bool)
      reads this
    {
      && Linking(Accounts(), work, path, level, l, r, key, lim, health, grown)
      && rootPage == work.root && lim.pageSize >= MIN_PAGE_SIZE
    }

    /** The nodes are put into the left page, emptied before, and the new right page one by one. */
    method ShareOut(l: PageNo, r: PageNo, ns: seq<Node>, si: nat)
      requires l in dirtyPages && dirtyPages[l].NodePage? && r in dirtyPages && dirtyPages[r].NodePage?
      requires Empty(dirtyPages[r], dirtyPages[l].leaf)
      requires Sorted(ns) && si <= |ns| && l != r
      modifies `dirtyPages
      ensures Accounts() == SharedBooks(old(Accounts()), l, r, ns, si)
    {
      hide Sorted, Shares, Empty, PageInsert;
      ghost var was := dirtyPages;
      SharesEnds(was, l, r, ns, si);
      dirtyPages := dirtyPages[l := dirtyPages[l].(nodes := [], upper := 0, lower := 0)];
      var index := 0;
      while index < |ns|
        invariant 0 <= index <= |ns|
        invariant dirtyPages.Keys == was.Keys && dirtyPages == Shares(was, l, r, ns, si, index)
      {
        var p := if index < si then l else r;
        SharesStep(was, l, r, ns, si, index);
        dirtyPages := dirtyPages[p := PageInsert(dirtyPages[p], ns[index])];
        index := index + 1;
      }
      assert dirtyPages == Shares(was, l, r, ns, si, |ns|);
    }

    /** A page without parent first gets a branch above it. */
    method GrowRootPage(path: seq<PageNo>, ghost level: nat, ghost copy: Page) returns (n: PageNo)
      requires |path| == 1 && Splits(path, level, copy, {}, false)
      modifies `dirtyPages, `collectiblePages, `lastPage, `workVer, `work, `rootPage
      ensures Splits([n] + path, level, copy, {}, true) && NewRoot(n)
      ensures path[0] in old(work.frames) && path[0] in work.frames && work.frames[path[0]] == old(work.frames)[path[0]]
      ensures Keeps(old(dirtyPages), dirtyPages) && work.entries == old(work.entries)
      ensures n !in old(work.frames) && old(work.frames).Keys <= work.frames.Keys
    {
      hide BooksOk, Halving, MayTake;
      ghost var b, t := Accounts(), work;
      HalvingBooks(b, t, path, level, copy, {}, lim, health, false);
      n := NewNodePage(false);
      RootGrows(b, t, path, level, copy, lim, health, n);
      dirtyPages := dirtyPages[n := PageInsert(dirtyPages[n], RootNode(rootPage))];
      rootPage := n;
      work := Grown(t, n);
    }

    ghost predicate NewRoot(n: PageNo)
      reads this
    {
      && n in dirtyPages && dirtyPages[n].NodePage? && dirtyPages[n].history == []
      && SpaceUsed(dirtyPages[n]) == NODE_HEADER_SIZE + INDEX_SIZE
    }

    ghost predicate NewRight(r: PageNo, leaf: bool)
      reads this
    {
      r in dirtyPages && r != INVALID_PAGE && Empty(dirtyPages[r], leaf) && dirtyPages[r].NodePage? && dirtyPages[r].history == []
    }

    /** What split makes before it shares out the nodes: a parent if there is none, and the right page. */
    method PrepareSplit(path: seq<PageNo>, ghost level: nat, leaf: bool, ghost copy: Page)
      returns (path': seq<PageNo>, r: PageNo, ghost grown: bool)
      requires |path| > 0 && Splits(path, level, copy, {}, false) && leaf == copy.leaf
      modifies `dirtyPages, `collectiblePages, `lastPage, `workVer, `work, `rootPage
      ensures |path'| > 1 && Last(path') == Last(path) && Splits(path', level, copy, {r}, grown)
      ensures NewRight(r, leaf) && r != Last(path)
      ensures if grown then |path'| == 2 && |path| == 1 && NewRoot(path'[0]) else path' == path
      ensures var l := Last(path); l in old(work.frames) && l in work.frames && work.frames[l] == old(work.frames)[l]
      ensures Keeps(old(dirtyPages), dirtyPages) && work.entries == old(work.entries)
      ensures old(work.frames).Keys <= work.frames.Keys && forall q :: q in old(work.frames) && q !in path ==> q !in path'
    {
      hide BooksOk, Halving, MayTake;
      path', grown := path, |path| == 1;
      if |path| == 1 {
        var n := GrowRootPage(path, level, copy);
        path' := [n] + path;
      }
      ghost var b := Accounts();
      HalvingBooks(b, work, path', level, copy, {}, lim, health, grown);
      r := NewNodePage(leaf);
      RightPage(b, work, path', level, copy, lim, health, grown, r);
    }

    /** The nodes of the page are shared out; the parent has yet to be told. */
    method ShareHalves(path: seq<PageNo>, ghost level: nat, copy: Page, r: PageNo, si: nat, ghost fits: bool, ghost grown: bool)
      requires copy.NodePage? && |path| > 1 && Splits(path, level, copy, {r}, grown) && NewRight(r, copy.leaf) && r != Last(path)
      requires 0 < si < |copy.nodes| && (!copy.leaf ==> 2 <= si <= |copy.nodes| - 2)
      requires Last(path) in dirtyPages && dirtyPages[Last(path)].NodePage?
      requires fits ==> RoomFor(copy.nodes[..si], lim.pageSize, |dirtyPages[Last(path)].history|)
                        && RoomFor(copy.nodes[si..], lim.pageSize, 0)
      modifies `dirtyPages, `health
      ensures Links(Front(path), level + 1, Last(path), r, copy.nodes[si].key, grown)
      ensures old(NewRoot(Last(Front(path)))) ==> NewRoot(Last(Front(path)))
      ensures PagesOn(dirtyPages, Front(path)) == PagesOn(old(dirtyPages), Front(path))
      ensures health == old(health).(fit := old(health).fit && fits)
      ensures OthersStay(old(dirtyPages), work.frames.Keys, dirtyPages, work.frames, path)
      ensures var l := Last(path);
        && l in dirtyPages && r in dirtyPages && l in work.frames && l !in Front(path) && r !in Front(path)
        && (PageFits(dirtyPages[l], lim.pageSize) && PageFits(dirtyPages[r], lim.pageSize) <==>
            RoomFor(copy.nodes[..si], lim.pageSize, |old(dirtyPages)[l].history|) && RoomFor(copy.nodes[si..], lim.pageSize, 0))
    {
      hide Halving, Linking, SharedBooks, RoomFor, Empty, Sorted, SpaceUsed, PageFits, OthersStay;
      HalvesApart(Accounts(), work, path, level, copy, lim, health, grown, r, si);
      ghost var b := Accounts();
      SplitDone(b, work, path, level, copy, lim, health, grown, r, si, fits);
      FrontStays(b, work, path, level, copy, lim, health, grown, r, si);
      health := health.(fit := health.fit && fits);
      ShareOut(Last(path), r, copy.nodes, si);
    }

    /** A page of the tree that was changed does not fit. */
    ghost predicate TooFull()
      reads this
    {
      exists q :: q in work.frames && q in dirtyPages && !PageFits(dirtyPages[q], lim.pageSize)
    }

    method FinishSplit(path: seq<PageNo>, ghost level: nat, copy: Page, r: PageNo, si: nat, ghost fits: bool,
                       ghost grown: bool, ghost m: nat)
      requires copy.NodePage? && |path| > 1 && Splits(path, level, copy, {r}, grown) && NewRight(r, copy.leaf) && r != Last(path)
      requires 0 < si < |copy.nodes| && (!copy.leaf ==> 2 <= si <= |copy.nodes| - 2)
      requires Last(path) in dirtyPages && dirtyPages[Last(path)].NodePage?
      requires fits ==> RoomFor(copy.nodes[..si], lim.pageSize, |dirtyPages[Last(path)].history|)
                        && RoomFor(copy.nodes[si..], lim.pageSize, 0)
      requires if grown then NewRoot(Last(Front(path))) else |path| <= m + 1
      modifies `dirtyPages, `collectiblePages, `lastPage, `workVer, `work, `rootPage, `health
      ensures InTxn({}, {}) && work.entries == old(work.entries)
      ensures health.full == old(health.full)
      ensures fits && old(health.fit) && (Uniform(lim) || grown || TakesKey(PagesOn(old(dirtyPages), Front(path)), copy.nodes[si].key, lim.pageSize))
        ==> health.fit
      ensures OthersStay(old(dirtyPages), old(work.frames).Keys, dirtyPages, work.frames, path)
      ensures TooFull() || (RoomFor(copy.nodes[..si], lim.pageSize, |old(dirtyPages)[Last(path)].history|)
                            && RoomFor(copy.nodes[si..], lim.pageSize, 0))
      ensures TooFull() || grown || TakesKey(PagesOn(old(dirtyPages), Front(path)), copy.nodes[si].key, lim.pageSize)
      decreases m, 2
    {
      hide Splits, Links, NewRight, NewRoot, RoomFor, InTxn, PagesOn, TakesKey, PageFits;
      ghost var was, known := dirtyPages, work.frames;
      ShareHalves(path, level, copy, r, si, fits, grown);
      ghost var mid, l := dirtyPages, Last(path);
      LinkOrSplit(Front(path), level + 1, l, r, copy.nodes[si].key, grown, m);
      StayOn(was, known.Keys, mid, known, dirtyPages, work.frames, path, r);
      assert dirtyPages[l] == mid[l] && l in work.frames && dirtyPages[r] == mid[r] && r in work.frames;
    }

    /** The parent has room for the separator of the new page. */
    method LinkRight(path: seq<PageNo>, ghost level: nat, ghost l: PageNo, r: PageNo, key: Key, ghost grown: bool, ghost i: nat)
      requires |path| > 0 && Links(path, level, l, r, key, grown)
      requires ParentAt(path, l, r, i) && SpaceNeeded(key, []) < SpaceLeft(lim.pageSize, dirtyPages[Last(path)])
      modifies `dirtyPages, `work
      ensures InTxn({}, {}) && work.entries == old(work.entries)
      ensures OthersStay(old(dirtyPages), old(work.frames).Keys + {r}, dirtyPages, work.frames, path)
    {
      hide BooksOk, PathOk, AllDirty, Pending, PageInsert, NodeLocal, ChildAt, TxnOk, Healthy;
      ghost var t := work;
      var p := Last(path);
      LinkRoom(Accounts(), t, l, r, key, {}, lim, health, Untold(path, grown), p, i);
      dirtyPages := dirtyPages[p := PageInsert(dirtyPages[p], Node(key, Child(r)))];
      work := t.(frames := Divided(t.frames, l, r, key.ord));
      assert Untold(path, grown) - {p} == {};
    }

    /** Where the parent links the page that was split. */
    ghost predicate ParentAt(path: seq<PageNo>, l: PageNo, r: PageNo, i: nat)
      requires |path| > 0
      reads this
    {
      var p := Last(path);
      && p in dirtyPages && dirtyPages[p].NodePage? && !dirtyPages[p].leaf && i < |dirtyPages[p].nodes|
      && ChildAt(Accounts().View(), work.frames, p, i, l) && p != l && p != r
    }

    lemma FindParent(path: seq<PageNo>, level: nat, l: PageNo, r: PageNo, key: Key, grown: bool) returns (i: nat)
      requires |path| > 0 && Links(path, level, l, r, key, grown)
      ensures ParentAt(path, l, r, i) && |key.data| <= MAX_KEY_SIZE && lim.pageSize >= MIN_PAGE_SIZE
    {
      hide Pending, PageLocal, BranchOk, PathOk;
      i := PendingParent(Accounts(), work, l, r, key, {}, lim, health, Untold(path, grown), Last(path));
      assert Accounts().View()[path[|path| - 1]] == dirtyPages[path[|path| - 1]];
    }

    /** The parent takes the separator of the new page, or is split itself. */
    method LinkOrSplit(path: seq<PageNo>, ghost level: nat, ghost l: PageNo, r: PageNo, key: Key, ghost grown: bool, ghost m: nat)
      requires |path| > 0 && Links(path, level, l, r, key, grown)
      requires if grown then NewRoot(Last(path)) else |path| <= m
      modifies `dirtyPages, `collectiblePages, `lastPage, `workVer, `work, `rootPage, `health
      ensures InTxn({}, {}) && work.entries == old(work.entries)
      ensures health.full == old(health.full)
      ensures old(health.fit) && (Uniform(lim) || grown || TakesKey(PagesOn(old(dirtyPages), path), key, lim.pageSize)) ==> health.fit
      ensures OthersStay(old(dirtyPages), old(work.frames).Keys + {r}, dirtyPages, work.frames, path)
      ensures TooFull() || grown || TakesKey(PagesOn(old(dirtyPages), path), key, lim.pageSize)
      decreases m, 1
    {
      hide Links, InTxn, ChildAt, PagesOn, TakesKey, OthersStay, TooFull;
      ghost var i := FindParent(path, level, l, r, key, grown);
      RoomTakes(dirtyPages, path, key, lim.pageSize);
      if SpaceNeeded(key, []) >= SpaceLeft(lim.pageSize, dirtyPages[Last(path)]) {
        SplitBranch(path, level, l, r, key, i, m);
      } else {
        LinkRight(path, level, l, r, key, grown, i);
      }
    }

    /** A branch without room for the separator is split in the middle. */
    method SplitBranch(path: seq<PageNo>, ghost level: nat, ghost l: PageNo, r: PageNo, key: Key, ghost i: nat, ghost m: nat)
      requires 0 < |path| <= m && Links(path, level, l, r, key, false)
      requires ChildAt(Accounts().View(), work.frames, Last(path), i, l)
      requires Last(path) in dirtyPages && dirtyPages[Last(path)].NodePage?
      requires SpaceNeeded(key, []) >= SpaceLeft(lim.pageSize, dirtyPages[Last(path)])
      modifies `dirtyPages, `collectiblePages, `lastPage, `workVer, `work, `rootPage, `health
      ensures InTxn({}, {}) && work.entries == old(work.entries)
      ensures health.full == old(health.full)
      ensures old(health.fit) && (Uniform(lim) || TakesKey(PagesOn(old(dirtyPages), path), key, lim.pageSize)) ==> health.fit
      ensures OthersStay(old(dirtyPages), old(work.frames).Keys + {r}, dirtyPages, work.frames, path)
      ensures TooFull() || TakesKey(PagesOn(old(dirtyPages), path), key, lim.pageSize)
      decreases m, 0
    {
      hide Halving, Linking, RoomFor, InTxn, PageInsert, PagesOn, TakesKey, BranchFits, MiddleKey, Middle, TooFull;
      ghost var b, t, p := Accounts(), work, dirtyPages[Last(path)];
      var copy := PageInsert(dirtyPages[Last(path)], Node(key, Child(r)));
      BranchSplits(b, t, path, level, l, r, key, lim, health, i);
      work := t.(frames := Divided(t.frames, l, r, key.ord));
      ghost var fits := BranchFits(p, SeparatorNode(key), lim.pageSize);
      TakesBelow(dirtyPages, path, key, lim.pageSize);
      RoomTakes(dirtyPages, path, key, lim.pageSize);
      LinkingDirty(b, t, path, level, l, r, key, lim, health, false);
      var path', right;
      ghost var grown;
      path', right, grown := PrepareSplit(path, level, false, copy);
      KeptFront(b, dirtyPages, path);
      FinishSplit(path', level, copy, right, |copy.nodes| / 2, fits, grown, m - 1);
    }

    // ---- put -------------------------------------------------------------------------------------------------

    ghost predicate OpenAt(path: seq<PageNo>, level: nat, x: set<PageNo>, o: real)
      reads this
    {
      OpenTo(Accounts(), work, path, level, x, o, lim, health) && rootPage == work.root && lim.pageSize >= MIN_PAGE_SIZE
    }

    /** removeNode on a leaf: the overflow pages of the value, all of them, go to the residue. */
    method RemoveNode(path: seq<PageNo>, key: Key) returns (ghost freed: set<PageNo>)
      requires OnPath(path, 0, key.ord) && key.ord in work.entries
      modifies `dirtyPages, `residueHistory, `workVer, `work
      ensures OpenAt(path, 0, {}, key.ord) && work.entries == old(work.entries) - {key.ord}
      ensures residueHistory == old(residueHistory) + freed && work.frames == old(work.frames)
      ensures |path| > 0 && PagesOfValue(old(Accounts().View()), old(work), Last(path), key.ord, freed)
      ensures Last(path) in dirtyPages && dirtyPages[Last(path)].NodePage? && dirtyPages[Last(path)].leaf
      ensures Last(path) in old(dirtyPages) && old(dirtyPages)[Last(path)].NodePage?
      ensures dirtyPages == old(dirtyPages)[Last(path) := PageRemove(old(dirtyPages)[Last(path)], key.ord)]
    {
      hide TxnOk, PathOk, AllDirty, Healthy, DownTo, OpenTo, BooksOk, TreeOk, PageRemove, PageLocal, Sorted, Contains, ChainsOk, Remove;
      ghost var b, t := Accounts(), work;
      ghost var i := FindEntry(b, t, path, key.ord, lim, health);
      var l := Last(path);
      var page := dirtyPages[l];
      var nval := page.nodes[LowerBound(page.nodes, key.ord)].value;
      var pages := {};
      if nval.Overflow? {
        var data;
        data, pages := WalkOverflowPages(nval.first, t.chains);
      }
      freed := pages;
      assert PagesOfValue(b.View(), t, l, key.ord, freed);
      residueHistory := residueHistory + pages;
      workVer := FreeOverflow(b, pages).work;
      dirtyPages := dirtyPages[l := PageRemove(page, key.ord)];
      EntryLeaves(b, t, path, i, pages, lim, health);
      PageRemovePage(page, key.ord);
      work := t.(entries := t.entries - {key.ord}, chains := Without(t.chains, key.ord));
    }

    /** The value of a leaf node: inline, or on overflow pages. */
    method StoreValue(key: Key, value: Bytes, ghost x: set<PageNo>, ghost s: set<PageNo>)
      returns (nval: NodeValue, ghost added: Chains)
      requires InTxn(x, s) && KeyFits(key) && key.ord !in work.entries && lim.pageSize >= MIN_PAGE_SIZE
      modifies `dirtyPages, `collectiblePages, `lastPage, `workVer
      ensures InTxn(x + added.Keys, s) && added.Keys !! x && Keeps(old(dirtyPages), dirtyPages)
      ensures Enters(Accounts(), work, x + added.Keys, Node(key, nval), value, added, lim)
      ensures SpaceNeededFor(Node(key, nval)) == SpaceNeeded(key, value) && NodeLocal(true, Node(key, nval), lim)
      ensures !WillCauseOverflow(value) ==> nval == Inline(value) && dirtyPages == old(dirtyPages)
    {
      hide InTxn, Healthy, TxnOk;
      if WillCauseOverflow(value) {
        var first;
        first, added := PutDataOnOverflow(value, key.ord, x, s);
        nval := Overflow(first);
      } else {
        nval, added := Inline(value), map[];
        assert x + added.Keys == x;
      }
    }

    /** A key that put accepts: of the uniform length if the tree has one. */
    ghost predicate KeyFits(key: Key) {
      UserKey(key) && |key.data| <= MAX_KEY_SIZE && key.ord == lim.place(key.data) && (lim.keySize > 0 ==> |key.data| == lim.keySize)
    }

    method InsertNode(path: seq<PageNo>, key: Key, value: Bytes)
      requires OpenAt(path, 0, {}, key.ord) && KeyFits(key) && key.ord !in work.entries
      requires |path| > 0 && Last(path) in dirtyPages && dirtyPages[Last(path)].NodePage?
      requires SpaceNeeded(key, value) <= SpaceLeft(lim.pageSize, dirtyPages[Last(path)])
      modifies `dirtyPages, `collectiblePages, `lastPage, `workVer, `work
      ensures InTxn({}, {}) && work.entries == old(work.entries)[key.ord := value]
      ensures !WillCauseOverflow(value) ==>
        dirtyPages == old(dirtyPages)[Last(path) := PageInsert(old(dirtyPages)[Last(path)], Node(key, Inline(value)))]
    {
      hide BooksOk, TxnOk, Healthy, PathOk, AllDirty, Enters, PageInsert;
      ghost var b, t := Accounts(), work;
      var p := Last(path);
      var nval;
      ghost var added;
      nval, added := StoreValue(key, value, {}, {p});
      var nd := Node(key, nval);
      assert {} + added.Keys == added.Keys;
      OpenKept(b, Accounts(), t, path, {}, added.Keys, key.ord, lim, health);
      EntryFits(Accounts(), t, path, added.Keys, nd, value, added, lim, health);
      dirtyPages := dirtyPages[p := PageInsert(dirtyPages[p], nd)];
      work := WithEntry(t, key.ord, value, added);
    }

    /** The point at which the count of bytes reaches the threshold. */
    method SplitIndex(ns: seq<Node>, threshold: int) returns (splitIndex: nat)
      ensures splitIndex == Cut(ns, threshold)
    {
      var current := 0;
      splitIndex := 0;
      while current < threshold && splitIndex != |ns|
        invariant splitIndex <= |ns| && current == Counted(ns[..splitIndex])
        invariant forall j :: 0 <= j < splitIndex ==> Counted(ns[..j]) < threshold
      {
        current := current + SpaceNeededFor(ns[splitIndex]);
        assert ns[..splitIndex + 1][..splitIndex] == ns[..splitIndex];
        splitIndex := splitIndex + 1;
      }
    }

    /** split on a leaf. */
    method SplitLeaf(path: seq<PageNo>, key: Key, value: Bytes)
      requires OpenAt(path, 0, {}, key.ord) && KeyFits(key) && key.ord !in work.entries
      requires |path| > 0 && Last(path) in dirtyPages && dirtyPages[Last(path)].NodePage? && dirtyPages[Last(path)].leaf
      requires SpaceNeeded(key, value) > SpaceLeft(lim.pageSize, dirtyPages[Last(path)])
      modifies `dirtyPages, `collectiblePages, `lastPage, `workVer, `work, `rootPage, `health
      ensures InTxn({}, {}) && work.entries == old(work.entries)[key.ord := value]
      ensures health.full == old(health.full)
      ensures old(health.fit) && (Uniform(lim) || WayTakes(PagesOn(old(dirtyPages), path), key, value, lim.pageSize)) ==> health.fit
      ensures TooFull() || WayTakes(PagesOn(old(dirtyPages), path), key, value, lim.pageSize)
    {
      hide OpenTo, Halving, TxnOk, Healthy, Enters, PageInsert, RoomFor, NodeLocal, Unsettled, Untold, Cut, Covers, TooFull, OthersStay,
           WayTakes, PagesOn, TakesKey, AllDirty, KeyFits, SpaceNeeded;
      ghost var b, t := Accounts(), work;
      var l := Last(path);
      OpenHalving(b, t, path, key.ord, lim, health);
      var path', r;
      ghost var grown;
      path', r, grown := PrepareSplit(path, 0, true, dirtyPages[l]);
      HalvingOpen(Accounts(), work, path', {r}, lim, health, grown);
      ghost var b1, t1 := Accounts(), work;
      var nval;
      ghost var added;
      nval, added := StoreValue(key, value, {r}, Unsettled(path', grown));
      var nd := Node(key, nval);
      LeafToSplit(b1, Accounts(), t1, path', {r}, {r} + added.Keys, nd, value, added, lim, health, grown);
      LeafDecidesCut(b, t, path, nd, key, value, lim, health);
      assert {r} + added.Keys - added.Keys == {r};
      PageInsertBooks(dirtyPages[l], nd);
      var copy := PageInsert(dirtyPages[l], nd);
      work := WithEntry(t1, key.ord, value, added);
      var si := SplitIndex(copy.nodes, Threshold(lim.pageSize, dirtyPages[l]));
      KeptFront(b, dirtyPages, path);
      RoomTakes(b.dirty, path, key, lim.pageSize);
      ghost var fits := (Uniform(lim) && health.fit) || WayTakes(PagesOn(b.dirty, path), key, value, lim.pageSize);
      FinishSplit(path', 0, copy, r, si, fits, grown, |path'|);
    }

    ghost predicate LeafHasRoom(key: Key, value: Bytes)
      requires RootIsLeaf()
      reads this
    {
      SpaceNeeded(key, value) <= SpaceLeft(lim.pageSize, PageRemove(dirtyPages[rootPage], key.ord))
    }

    lemma TooFullMisfits()
      requires InTxn({}, {}) && TooFull()
      ensures !health.fit
    {
      hide TxnOk, PageFits;
      var q :| q in work.frames && q in dirtyPages && !PageFits(dirtyPages[q], lim.pageSize);
      assert Accounts().View()[q] == dirtyPages[q];
    }

    /** put: the tree stands for its map with the key updated. Keys of more than 512 bytes are refused. Of a tree whose pages all
        fit, all still fit exactly when the pages on the way to the key say so before, and always if keys have one length. */
    method Put(key: Key, value: Bytes) returns (ok: bool)
      requires InTxn({}, {}) && UserKey(key) && key.ord == lim.place(key.data) && (lim.keySize > 0 ==> |key.data| == lim.keySize)
      modifies `dirtyPages, `collectiblePages, `residueHistory, `lastPage, `workVer, `work, `rootPage, `health
      ensures ok <==> |key.data| <= MAX_KEY_SIZE
      ensures InTxn({}, {}) && work.entries == if ok then old(work.entries)[key.ord := value] else old(work.entries)
      ensures health.full == old(health.full)
      ensures old(health.fit) && (!ok || Uniform(lim)) ==> health.fit
      ensures ok && old(health.fit) ==> (health.fit <==> old(PutFits(Accounts(), work, key, value, lim.pageSize)))
      ensures ok ==> TooFull() || old(PutFits(Accounts(), work, key, value, lim.pageSize))
      ensures ok && !WillCauseOverflow(value) && old(rootPage) == INVALID_PAGE ==>
        && RootIsLeaf()
        && dirtyPages[rootPage] == PageInsert(BlankPage(old(Accounts()), rootPage, true), Node(key, Inline(value)))
      ensures ok && !WillCauseOverflow(value) && old(RootIsLeaf()) && old(LeafHasRoom(key, value)) ==>
        && RootIsLeaf()
        && dirtyPages[rootPage] == PageInsert(PageRemove(old(dirtyPages[rootPage]), key.ord), Node(key, Inline(value)))
    {
      hide InTxn, OpenTo, DownTo, Contains, PutFits, WayTakes, PagesOn, TooFull;
      if |key.data| > MAX_KEY_SIZE {
        return false;
      }
      ghost var entries := work.entries;
      var path := LeafForPut(key, value);
      assert (entries - {key.ord})[key.ord := value] == entries[key.ord := value];
      if SpaceNeeded(key, value) <= SpaceLeft(lim.pageSize, dirtyPages[Last(path)]) {
        LeafTakes(dirtyPages, path, key, value, lim.pageSize);
        InsertNode(path, key, value);
      } else {
        SplitLeaf(path, key, value);
        if TooFull() {
          TooFullMisfits();
        }
      }
      ok := true;
    }

    /** The leaf for the key, without an entry of the key. */
    method LeafForPut(key: Key, ghost value: Bytes) returns (path: seq<PageNo>)
      requires InTxn({}, {}) && UserKey(key) && |key.data| <= MAX_KEY_SIZE
      modifies `dirtyPages, `collectiblePages, `residueHistory, `lastPage, `workVer, `work, `rootPage
      ensures OpenAt(path, 0, {}, key.ord) && work.entries == old(work.entries) - {key.ord}
      ensures |path| > 0 && Last(path) in dirtyPages && dirtyPages[Last(path)].NodePage? && dirtyPages[Last(path)].leaf
      ensures old(PutFits(Accounts(), work, key, value, lim.pageSize)) <==> WayTakes(PagesOn(dirtyPages, path), key, value, lim.pageSize)
      ensures old(RootIsLeaf()) ==>
        && path == [rootPage] && rootPage == old(rootPage)
        && dirtyPages == old(dirtyPages)[rootPage := PageRemove(old(dirtyPages)[old(rootPage)], key.ord)]
      ensures old(rootPage) == INVALID_PAGE ==>
        && path == [rootPage]
        && dirtyPages == old(dirtyPages)[rootPage := BlankPage(old(Accounts()), rootPage, true)]
    {
      hide TxnOk, Healthy, OpenTo, DownTo, Contains, MayTake, BooksOk, Remove, SameLeaves, PutFits, WayTakes, PagesOn, Retraces, WayTo, PageRemove;
      ghost var b, t := Accounts(), work;
      if rootPage == INVALID_PAGE {
        TxnBooks(b, t, {}, lim);
        DirtyBounds(b);
        var n := NewNodePage(true);
        FirstLeaf(b, t, n, key.ord, lim, health);
        rootPage := n;
        work := t.(root := n, frames := map[n := Frame(0.0, TOP, 0)]);
        path := [n];
        FirstTakes(dirtyPages, n, key, value, lim.pageSize);
        FirstFits(b, t, key, value, lim.pageSize);
      } else {
        ghost var way;
        path, way := SearchForWrite(key);
        ghost var c, u := Accounts(), work;
        LeafContains(c, u, path, key.ord, lim, health);
        var l := Last(path);
        EndApart(c, u, path, 0, key.ord, lim, health);
        NothingToRemove(dirtyPages[l], key.ord);
        assert dirtyPages[l := dirtyPages[l]] == dirtyPages;
        if Contains(dirtyPages[l].nodes, key.ord) {
          ghost var freed := RemoveNode(path, key);
        }
        RetracedForPut(c.dirty, dirtyPages, path, b, t, way, key, value, lim);
      }
    }

    // ---- rebalance -------------------------------------------------------------------------------------------

    ghost predicate BesideAt(up: seq<PageNo>, level: nat, p: PageNo, i: nat)
      reads this
    {
      Beside(Accounts(), work, up, level, p, i, lim, health) && rootPage == work.root && lim.pageSize >= MIN_PAGE_SIZE
    }

    /** removeFromTree: nothing happens to a page that is not dirty. */
    method RemovePage(p: PageNo)
      requires p in dirtyPages ==> dirtyPages[p].NodePage?
      modifies `dirtyPages, `residueHistory, `workVer
      ensures Accounts() == if p in old(dirtyPages) then RemoveFromTree(old(Accounts()), p) else old(Accounts())
    {
      if p !in dirtyPages {
        return;
      }
      ghost var b := Accounts();
      var page := dirtyPages[p];
      if page.collected {
        residueHistory := residueHistory + {p};
      }
      residueHistory := residueHistory + HistoryPages(page.history);
      dirtyPages := dirtyPages - {p};
      workVer := RemoveFromTree(b, p).work;
      assert residueHistory == RemoveFromTree(b, p).residue;
    }

    /** touchNodePage on a neighbour of p. */
    method TouchNeighbour(up: seq<PageNo>, ghost level: nat, p: PageNo, ghost i: nat, qi: nat) returns (n: PageNo)
      requires |up| > 0 && BesideAt(up, level, p, i) && (qi == i || qi == i + 1)
      requires Last(up) in dirtyPages && dirtyPages[Last(up)].NodePage? && qi < |dirtyPages[Last(up)].nodes|
      requires var val := dirtyPages[Last(up)].nodes[qi].value;
        val.Child? && val.page != p && val.page in work.frames && val.page in Accounts().View()
        && Accounts().View()[val.page].NodePage?
      requires Last(up) in work.frames
      modifies `dirtyPages, `collectiblePages, `residueHistory, `lastPage, `workVer, `work
      ensures BesideAt(up, level, p, i) && work.entries == old(work.entries)
      ensures Last(up) in work.frames && work.frames[Last(up)] == old(work.frames)[Last(up)]
      ensures Last(up) in dirtyPages && dirtyPages[Last(up)].NodePage?
      ensures dirtyPages[Last(up)] == Rewired(old(dirtyPages[Last(up)]), qi, n)
      ensures p in old(dirtyPages) && p in dirtyPages && dirtyPages[p] == old(dirtyPages)[p]
      ensures var q := old(dirtyPages[Last(up)].nodes[qi].value.page);
        && n in dirtyPages && SameBytes(old(Accounts().View())[q], dirtyPages[n])
        && |dirtyPages[n].history| <= |old(Accounts().View())[q].history| + 1
        && n in work.frames && work.frames[n] == old(work.frames)[q]
      ensures p in old(work.frames) && p in work.frames && work.frames[p] == old(work.frames)[p]
      ensures SameRanges(old(work.frames), work.frames, level)
    {
      hide BooksOk, Beside, TouchBelow, TouchTop, MayTake, TxnOk, SameRanges;
      ghost var b, t := Accounts(), work;
      var parent := dirtyPages[Last(up)];
      var q := parent.nodes[qi].value.page;
      BesideTxn(b, t, up, level, p, i, lim, health);
      PairInDisk(b, t, q, lim);
      if q in dirtyPages {
        n := q;
        RewiredSame(parent, qi, q);
        SameSelf(t.frames, level);
        BesideLevels(b, t, up, level, p, i, lim, health);
      } else {
        n := TouchClean(q);
        TouchBeside(b, t, up, level, p, i, qi, q, n, lim, health);
        TouchTopElsewhere(b, q, n, lim.pageSize, Last(up));
        dirtyPages := dirtyPages[Last(up) := Rewired(parent, qi, n)];
        TouchRanges(b, t, up, level, p, i, q, n, lim, health);
        work := t.(frames := Renamed(t.frames, q, n));
        TouchBelowInSteps(b, q, n, Last(up), qi, lim.pageSize);
      }
    }

    /** The neighbour of p has more than two nodes and p has room for one of them. */
    ghost predicate Lends(up: seq<PageNo>, p: PageNo, i: nat)
      requires |up| > 0
      reads this
    {
      && Last(up) in dirtyPages && dirtyPages[Last(up)].NodePage? && p in dirtyPages && dirtyPages[p].NodePage?
      && Last(up) in work.frames && i + 1 < |dirtyPages[Last(up)].nodes|
      && var low := dirtyPages[Last(up)].nodes[i].value == Child(p);
         var val := dirtyPages[Last(up)].nodes[if low then i + 1 else i].value;
      && val.Child? && val.page != p && val.page in work.frames && val.page in Accounts().View()
      && (!low ==> dirtyPages[Last(up)].nodes[i + 1].value == Child(p))
      && var q := Accounts().View()[val.page];
      && q.NodePage? && |q.nodes| > 2
      && SpaceNeededFor(q.nodes[if low then 0 else |q.nodes| - 1]) <= SpaceLeft(lim.pageSize, dirtyPages[p])
    }

    /** The parent has room for what the new separator is longer than the old one. */
    ghost predicate SeparatorFits(up: seq<PageNo>, p: PageNo, i: nat)
      requires |up| > 0 && Lends(up, p, i)
      reads this
    {
      var parent := dirtyPages[Last(up)];
      var low := parent.nodes[i].value == Child(p);
      var q := Accounts().View()[parent.nodes[if low then i + 1 else i].value.page];
      Replaces(lim.pageSize, parent, parent.nodes[i + 1].key, NewKey(q, low))
    }

    /** The range of p after its neighbour has lent it a node. */
    ghost function LentRange(up: seq<PageNo>, p: PageNo, i: nat): Frame
      requires |up| > 0 && Lends(up, p, i) && p in work.frames
      reads this
    {
      var parent := dirtyPages[Last(up)];
      var low := parent.nodes[i].value == Child(p);
      Lent(work.frames[p], Accounts().View()[parent.nodes[if low then i + 1 else i].value.page], low)
    }

    /** moveNode: the neighbour lends p the node next to it, and the parent takes the new separator. All pages still fit
        exactly when that fits. */
    method MoveNode(up: seq<PageNo>, ghost level: nat, p: PageNo, i: nat)
      requires |up| > 0 && BesideAt(up, level, p, i) && Lends(up, p, i)
      modifies `dirtyPages, `collectiblePages, `residueHistory, `lastPage, `workVer, `work, `health
      ensures InTxn({}, {}) && work.entries == old(work.entries)
      ensures health.full && (health.fit ==> old(health.fit)) && (Uniform(lim) ==> health == old(health))
      ensures health.fit <==> old(health.fit) && old(SeparatorFits(up, p, i))
      ensures p in old(work.frames) && HasRange(work.frames, old(LentRange(up, p, i))) && SameRanges(old(work.frames), work.frames, level)
    {
      hide BesideAt, InTxn, SameRanges, Shifted, HasRange;
      ghost var fr := work.frames;
      var decending := dirtyPages[Last(up)].nodes[i].value == Child(p);
      var src := TouchNeighbour(up, level, p, i, if decending then i + 1 else i);
      if decending {
        ghost var gr, sk := work.frames, dirtyPages[src].nodes[1].key.ord;
        LevelsBeside(up, level, p, i);
        MoveFirst(up, level, src, p, i);
        ShiftedSame(gr, p, src, sk, level);
        SameOnward(fr, gr, work.frames, level, level);
      } else {
        ghost var gr, sk := work.frames, dirtyPages[src].nodes[|dirtyPages[src].nodes| - 1].key.ord;
        LevelsBeside(up, level, p, i);
        MoveLast(up, level, src, p, i);
        ShiftedSame(gr, src, p, sk, level);
        SameOnward(fr, gr, work.frames, level, level);
      }
    }

    lemma LevelsBeside(up: seq<PageNo>, level: nat, p: PageNo, i: nat)
      requires BesideAt(up, level, p, i)
      ensures |up| > 0 && Last(up) in dirtyPages && dirtyPages[Last(up)].NodePage?
      ensures var ns := dirtyPages[Last(up)].nodes;
        && i + 1 < |ns| && ns[i].value.Child? && ns[i + 1].value.Child?
        && var l, r := ns[i].value.page, ns[i + 1].value.page;
        && l in work.frames && r in work.frames && l != r && (p == l || p == r)
        && work.frames[l].level == work.frames[r].level == level
    {
      hide Beside;
      BesideLevels(Accounts(), work, up, level, p, i, lim, health);
    }

    lemma MergeRanges(fr: Frames, up: seq<PageNo>, level: nat, p: PageNo, i: nat, l: PageNo, r: PageNo, dst: PageNo)
      requires |up| > 0 && BesideAt(up, level, p, i) && Last(up) in dirtyPages && dirtyPages[Last(up)].NodePage?
      requires i + 1 < |dirtyPages[Last(up)].nodes| && (dst == l || dst == r) && SameRanges(fr, work.frames, level)
      requires dirtyPages[Last(up)].nodes[i].value == Child(l) && dirtyPages[Last(up)].nodes[i + 1].value == Child(r)
      ensures l in work.frames && r in work.frames && SameRanges(fr, Joined(work.frames, l, r, dst), level)
      ensures HasRange(Joined(work.frames, l, r, dst), Frame(work.frames[l].lo, work.frames[r].hi, level))
    {
      hide BesideAt, SameRanges, HasRange, Joined;
      LevelsBeside(up, level, p, i);
      JoinedSame(work.frames, l, r, dst, level);
      SameOnward(fr, work.frames, Joined(work.frames, l, r, dst), level, level);
    }

    /** From higher to lower: the separator of src changes to its next key. */
    method MoveFirst(up: seq<PageNo>, ghost level: nat, src: PageNo, dst: PageNo, i: nat)
      requires |up| > 0 && BesideAt(up, level, dst, i) && Last(up) in dirtyPages && dirtyPages[Last(up)].NodePage?
      requires i + 1 < |dirtyPages[Last(up)].nodes|
      requires dirtyPages[Last(up)].nodes[i].value == Child(dst) && dirtyPages[Last(up)].nodes[i + 1].value == Child(src)
      requires dst in dirtyPages && dirtyPages[dst].NodePage? && src in dirtyPages && dirtyPages[src].NodePage? && |dirtyPages[src].nodes| > 2
      requires SpaceNeededFor(dirtyPages[src].nodes[0]) <= SpaceLeft(lim.pageSize, dirtyPages[dst])
      modifies `dirtyPages, `work, `health
      ensures InTxn({}, {}) && work.entries == old(work.entries)
      ensures health.full && (health.fit ==> old(health.fit)) && (Uniform(lim) ==> health == old(health))
      ensures health.fit == old(health.fit && Replaces(lim.pageSize, dirtyPages[Last(up)], dirtyPages[Last(up)].nodes[i + 1].key, dirtyPages[src].nodes[1].key))
      ensures dst in old(work.frames) && src in old(work.frames)
      ensures work.frames == Shifted(old(work.frames), dst, src, old(dirtyPages[src].nodes[1].key.ord))
    {
      hide Beside, TxnOk, Healthy, PageInsert, PageRemove, Shifted, PageFits, Rewritten, Replaces;
      ghost var b, t := Accounts(), work;
      var parent := dirtyPages[Last(up)];
      BesideTxn(b, t, up, level, dst, i, lim, health);
      MoveFromRight(b, t, up, level, dst, i, src, lim, health);
      PageRemovePage(parent, parent.nodes[i + 1].key.ord);
      var node := dirtyPages[src].nodes[0];
      dirtyPages := dirtyPages[dst := PageInsert(dirtyPages[dst], node)];
      dirtyPages := dirtyPages[src := PageRemove(dirtyPages[src], node.key.ord)];
      var nkey := dirtyPages[src].nodes[0].key;
      var top := PageInsert(PageRemove(parent, parent.nodes[i + 1].key.ord), Node(nkey, Child(src)));
      dirtyPages := dirtyPages[Last(up) := top];
      work := t.(frames := Shifted(t.frames, dst, src, nkey.ord));
      health := health.(fit := health.fit && PageFits(top, lim.pageSize));
      RewrittenIs(b, dst, dirtyPages[dst], src, dirtyPages[src], Last(up), top);
    }

    /** From lower to higher: the separator of dst changes to the key that is moved. */
    method MoveLast(up: seq<PageNo>, ghost level: nat, src: PageNo, dst: PageNo, i: nat)
      requires |up| > 0 && BesideAt(up, level, dst, i) && Last(up) in dirtyPages && dirtyPages[Last(up)].NodePage?
      requires i + 1 < |dirtyPages[Last(up)].nodes|
      requires dirtyPages[Last(up)].nodes[i].value == Child(src) && dirtyPages[Last(up)].nodes[i + 1].value == Child(dst)
      requires dst in dirtyPages && dirtyPages[dst].NodePage? && src in dirtyPages && dirtyPages[src].NodePage? && |dirtyPages[src].nodes| > 2
      requires SpaceNeededFor(dirtyPages[src].nodes[|dirtyPages[src].nodes| - 1]) <= SpaceLeft(lim.pageSize, dirtyPages[dst])
      modifies `dirtyPages, `work, `health
      ensures InTxn({}, {}) && work.entries == old(work.entries)
      ensures health.full && (health.fit ==> old(health.fit)) && (Uniform(lim) ==> health == old(health))
      ensures health.fit == old(health.fit && Replaces(lim.pageSize, dirtyPages[Last(up)], dirtyPages[Last(up)].nodes[i + 1].key, dirtyPages[src].nodes[|dirtyPages[src].nodes| - 1].key))
      ensures dst in old(work.frames) && src in old(work.frames)
      ensures work.frames == Shifted(old(work.frames), src, dst, old(dirtyPages[src].nodes[|dirtyPages[src].nodes| - 1].key.ord))
    {
      hide Beside, TxnOk, Healthy, PageInsert, PageRemove, Shifted, PageFits, Rewritten, Replaces;
      ghost var b, t := Accounts(), work;
      var parent := dirtyPages[Last(up)];
      BesideTxn(b, t, up, level, dst, i, lim, health);
      MoveFromLeft(b, t, up, level, dst, i, src, lim, health);
      PageRemovePage(parent, parent.nodes[i + 1].key.ord);
      var node := dirtyPages[src].nodes[|dirtyPages[src].nodes| - 1];
      dirtyPages := dirtyPages[dst := PageInsert(dirtyPages[dst], node)];
      dirtyPages := dirtyPages[src := PageRemove(dirtyPages[src], node.key.ord)];
      var top := PageInsert(PageRemove(parent, parent.nodes[i + 1].key.ord), Node(node.key, Child(dst)));
      dirtyPages := dirtyPages[Last(up) := top];
      work := t.(frames := Shifted(t.frames, src, dst, node.key.ord));
      health := health.(fit := health.fit && PageFits(top, lim.pageSize));
      RewrittenIs(b, src, dirtyPages[src], dst, dirtyPages[dst], Last(up), top);
    }

    /** The nodes of a neighbour are put into page d one by one. */
    method MergeNodes(d: PageNo, more: seq<Node>, ghost above: bool)
      requires d in dirtyPages && dirtyPages[d].NodePage?
      requires NodesLocal(dirtyPages[d].leaf, dirtyPages[d].nodes, lim) && NodesLocal(dirtyPages[d].leaf, more, lim)
      requires Sorted(MergedNodes(dirtyPages[d].nodes, more, |more|, above)) && PageLocal(dirtyPages[d], lim)
      modifies `dirtyPages
      ensures Accounts() == Edit(old(Accounts()), d, With(old(dirtyPages)[d], MergedNodes(old(dirtyPages)[d].nodes, more, |more|, above)))
    {
      hide Sorted, MergedNodes, NodesLocal, PageInsert, With;
      ghost var was := dirtyPages;
      ghost var page := dirtyPages[d];
      MergeStart(page, more, above, lim);
      var k := 0;
      while k < |more|
        invariant 0 <= k <= |more|
        invariant dirtyPages == was[d := With(page, MergedNodes(page.nodes, more, k, above))]
        invariant With(page, MergedNodes(page.nodes, more, k, above)).NodePage?
      {
        MergeStep(page, more, k, above, lim);
        dirtyPages := dirtyPages[d := PageInsert(dirtyPages[d], more[k])];
        k := k + 1;
      }
    }

    /** The page to take over has room for the nodes of the other and one more history node. */
    ghost predicate Merges(up: seq<PageNo>, p: PageNo, i: nat, above: bool)
      requires |up| > 0
      reads this
    {
      && Last(up) in dirtyPages && dirtyPages[Last(up)].NodePage? && i + 1 < |dirtyPages[Last(up)].nodes|
      && var l, r := dirtyPages[Last(up)].nodes[i].value, dirtyPages[Last(up)].nodes[i + 1].value;
      && l.Child? && r.Child? && (l.page == p || r.page == p) && l.page != r.page
      && l.page in work.frames && r.page in work.frames && l.page in Accounts().View() && r.page in Accounts().View()
      && var v := Accounts().View();
      var into, from := v[if above then l.page else r.page], v[if above then r.page else l.page];
      && into.NodePage? && from.NodePage?
      && SpaceLeft(lim.pageSize, into) >= SpaceUsed(from) + HISTORY_NODE_SIZE * (|from.history| + 1)
    }

    /** The page that takes over is touched. */
    method TouchDestination(up: seq<PageNo>, ghost level: nat, p: PageNo, i: nat, above: bool) returns (dst: PageNo)
      requires |up| > 0 && BesideAt(up, level, p, i) && Last(up) in work.frames && Merges(up, p, i, above)
      modifies `dirtyPages, `collectiblePages, `residueHistory, `lastPage, `workVer, `work
      ensures BesideAt(up, level, p, i) && work.entries == old(work.entries)
      ensures Last(up) in work.frames && work.frames[Last(up)] == old(work.frames)[Last(up)]
      ensures Last(up) in dirtyPages && dirtyPages[Last(up)].NodePage? && i + 1 < |dirtyPages[Last(up)].nodes|
      ensures var ns := old(dirtyPages[Last(up)].nodes);
        var from := if above then ns[i + 1].value.page else ns[i].value.page;
        && dirtyPages[Last(up)].nodes[if above then i else i + 1].value == Child(dst)
        && dirtyPages[Last(up)].nodes[if above then i + 1 else i].value == Child(from)
        && from in Accounts().View() && Accounts().View()[from] == old(Accounts().View())[from] && Accounts().View()[from].NodePage?
        && dst in dirtyPages && dirtyPages[dst].NodePage?
        && SpaceUsed(Accounts().View()[from]) <= SpaceLeft(lim.pageSize, dirtyPages[dst])
        && from in work.frames && work.frames[from] == old(work.frames)[from]
        && dst in work.frames && work.frames[dst] == old(work.frames)[if above then ns[i].value.page else ns[i + 1].value.page]
      ensures SameRanges(old(work.frames), work.frames, level)
    {
      hide Beside, SameRanges;
      SameSelf(work.frames, level);
      BesideTxn(Accounts(), work, up, level, p, i, lim, health);
      var val := dirtyPages[Last(up)].nodes[if above then i else i + 1].value;
      if val.page == p {
        dst := p;
      } else {
        dst := TouchNeighbour(up, level, p, i, if above then i else i + 1);
      }
    }

    /** mergePages up to the page that is merged away: its nodes go to the neighbour, the parent forgets it. */
    method MergeInto(up: seq<PageNo>, ghost level: nat, p: PageNo, i: nat, above: bool, ghost o: real)
      requires |up| > 0 && BesideAt(up, level, p, i) && Last(up) in work.frames && Covers(work.frames[Last(up)], o)
      requires Merges(up, p, i, above)
      modifies `dirtyPages, `collectiblePages, `residueHistory, `lastPage, `workVer, `work
      ensures OpenAt(up, level + 1, {}, o) && work.entries == old(work.entries)
      ensures old(MergedAway(up, p, i, above)) !in dirtyPages
      ensures HasRange(work.frames, old(JoinedRange(up, p, i, above, level))) && SameRanges(old(work.frames), work.frames, level)
    {
      hide Covers, SameRanges, HasRange, Beside, OpenTo, TxnOk, Sorted, NodesLocal, UnlinkedPage, Joined, With, PageLocal, MergedNodes, Merges, HBtree.MergedAway;
      ghost var fr := work.frames;
      var from := MergedAway(up, p, i, above);
      var dst := TouchDestination(up, level, p, i, above);
      var src := GetPage(from);
      ghost var b, t, v := Accounts(), work, Accounts().View();
      ghost var l, r := if above then dst else from, if above then from else dst;
      MergeRanges(fr, up, level, p, i, l, r, dst);
      MergeInOrder(b, t, up, level, p, i, l, r, dst, lim, health);
      BesideTxn(b, t, up, level, p, i, lim, health);
      PairApart(b, t, up, level, p, i, l, r, lim, health);
      ghost var page := With(b.dirty[dst], v[l].nodes + v[r].nodes);
      var top := UnlinkedPage(dirtyPages[Last(up)], i, dst);
      MergePair(b, t, up, level, p, i, l, r, dst, page, top, o, lim, health);
      MergeNodes(dst, src.nodes, above);
      dirtyPages := dirtyPages[Last(up) := top];
      work := t.(frames := Joined(t.frames, l, r, dst));
      assert Accounts() == Edit(Edit(b, dst, page), Last(up), top);
      if from in dirtyPages {
        DropMerged(Accounts(), work, up, level + 1, o, lim, health, from);
      }
      RemovePage(from);
    }

    /** The range of the two pages together. */
    ghost function JoinedRange(up: seq<PageNo>, p: PageNo, i: nat, above: bool, level: nat): (f: Frame)
      requires |up| > 0 && Merges(up, p, i, above)
      reads this
      ensures f.level == level
    {
      var ns := dirtyPages[Last(up)].nodes;
      Frame(work.frames[ns[i].value.page].lo, work.frames[ns[i + 1].value.page].hi, level)
    }

    /** The page whose nodes the other takes over. */
    function MergedAway(up: seq<PageNo>, p: PageNo, i: nat, above: bool): (from: PageNo)
      requires |up| > 0 && Merges(up, p, i, above)
      reads this
      ensures from == dirtyPages[Last(up)].nodes[if above then i + 1 else i].value.page
    {
      dirtyPages[Last(up)].nodes[if above then i + 1 else i].value.page
    }

    /** rebalance on the root: an empty root and a branch with one child go. */
    method RebalanceRoot(path: seq<PageNo>, ghost level: nat, ghost o: real)
      requires |path| == 1 && OpenAt(path, level, {}, o) && path[0] in dirtyPages && dirtyPages[path[0]].NodePage?
      modifies `dirtyPages, `residueHistory, `workVer, `work, `rootPage
      ensures InTxn({}, {}) && work.entries == old(work.entries) && SameRanges(old(work.frames), work.frames, level)
      ensures RootSettled(old(dirtyPages[path[0]]), old(Accounts()), old(work), Accounts(), work)
    {
      hide OpenTo, TxnOk, Healthy, SameRanges;
      ghost var b, t := Accounts(), work;
      var p := path[0];
      RootRanges(b, t, path, level, o, lim, health);
      var page := dirtyPages[p];
      if |page.nodes| == 0 {
        RootEmpties(b, t, path, level, o, lim, health);
        rootPage := INVALID_PAGE;
        work := t.(root := INVALID_PAGE, frames := map[]);
        RemovePage(p);
      } else if !page.leaf && |page.nodes| == 1 {
        RootCollapses(b, t, path, level, o, lim, health);
        rootPage := page.nodes[0].value.page;
        work := t.(root := rootPage, frames := t.frames - {p});
        RemovePage(p);
      } else {
        OpenPage(b, t, path, level, {}, o, lim, health);
        Settles(b, t, path, level, o, lim, health);
        SameSelf(t.frames, level);
      }
    }

    /** rebalance: a page filled up to the threshold or less borrows a node or is merged, and so on up to the root. What is done
        about it is what `RemedyAt` says, and no range below is changed. */
    method Rebalance(path: seq<PageNo>, ghost level: nat, key: Key)
      requires |path| > 0 && OpenAt(path, level, {}, key.ord) && health.full
      modifies `dirtyPages, `collectiblePages, `residueHistory, `lastPage, `workVer, `work, `rootPage, `health
      ensures InTxn({}, {}) && work.entries == old(work.entries) && SameRanges(old(work.frames), work.frames, level)
      ensures (health.fit ==> old(health.fit)) && (Uniform(lim) ==> health == old(health))
      ensures |path| == 1 ==>
        && path[0] in old(dirtyPages) && old(dirtyPages)[path[0]].NodePage?
        && RootSettled(old(dirtyPages[path[0]]), old(Accounts()), old(work), Accounts(), work)
      ensures |path| > 1 ==>
        && old(HasNeighbour(Accounts(), work, path, key.ord))
        && Remedied(old(RemedyAt(Accounts(), work, path, key.ord, lim.pageSize)), old(Accounts()), old(work), Accounts(), work)
      decreases |path|
    {
      hide SameRanges, OpenTo, TxnOk, Healthy, Beside, PathOk, PageLocal, BranchOk, TreeOk, Sorted, BooksOk, ChildIndex, PageFull, WellFilled;
      ghost var b, t, h := Accounts(), work, health;
      var p := Last(path);
      OpenPage(b, t, path, level, {}, key.ord, lim, health);
      var page := dirtyPages[p];
      if WellFilled(lim.pageSize, page) {
        WellFilledIsFull(b, t, path, level, key.ord, lim, health);
        Settles(b, t, path, level, key.ord, lim, health);
        SameSelf(t.frames, level);
        if |path| > 1 {
          OpenHasNeighbour(b, t, path, level, key.ord, lim, health);
        } else {
          FullRootStays(page, b, t);
        }
        return;
      }
      if |path| == 1 {
        RebalanceRoot(path, level, key.ord);
        return;
      }
      RebalanceBeside(path, level, key);
    }

    method RebalanceBeside(path: seq<PageNo>, ghost level: nat, key: Key)
      requires |path| > 1 && OpenAt(path, level, {}, key.ord) && health.full
      requires Last(path) in dirtyPages && dirtyPages[Last(path)].NodePage? && !WellFilled(lim.pageSize, dirtyPages[Last(path)])
      modifies `dirtyPages, `collectiblePages, `residueHistory, `lastPage, `workVer, `work, `rootPage, `health
      ensures InTxn({}, {}) && work.entries == old(work.entries) && SameRanges(old(work.frames), work.frames, level)
      ensures (health.fit ==> old(health.fit)) && (Uniform(lim) ==> health == old(health))
      ensures old(HasNeighbour(Accounts(), work, path, key.ord))
      ensures Remedied(old(RemedyAt(Accounts(), work, path, key.ord, lim.pageSize)), old(Accounts()), old(work), Accounts(), work)
      decreases |path|, 1
    {
      hide SpaceNeededFor, RemedyAt, HasNeighbour, SameRanges, HasRange, OpenTo, TxnOk, Healthy, Beside, PathOk, PageLocal, TreeOk, Sorted, BooksOk, ChildIndex, PageFull, WellFilled, SpaceLeft, MergeReady;
      ghost var b, t := Accounts(), work;
      var p, up := Last(path), Front(path);
      OpenBeside(b, t, path, level, key.ord, lim, health);
      SameSelf(t.frames, level);
      var page, parent := dirtyPages[p], dirtyPages[Last(up)];
      var j := ChildIndex(parent.nodes, key.ord);
      var first, i := j == 0, if j == 0 then 0 else j - 1;
      PairReady(b, t, up, level, p, i, lim, health, first);
      var q := parent.nodes[if first then i + 1 else i].value.page;
      var neighbour := GetPage(q);
      RemedyIs(b, t, path, level, key.ord, lim, health, i, first, q);
      if Uniform(lim) {
        NeverStuck(b, t, up, level, p, i, lim, health, first);
      }
      if WellFilled(lim.pageSize, neighbour) && |neighbour.nodes| > 2
         && SpaceNeededFor(SourceNode(neighbour, first)) <= SpaceLeft(lim.pageSize, page)
      {
        if CanUpdate(lim.pageSize, parent, parent.nodes[i + 1].key, SourceNode(neighbour, first).key) {
          MoveNode(up, level, p, i);
        } else {
          GivesUp(b, t, path, level, key.ord, lim, health);
          health := health.(full := health.full && PageFull(page));
        }
      } else if first && SpaceLeft(lim.pageSize, page) >= SpaceUsed(neighbour) + HISTORY_NODE_SIZE * (|neighbour.history| + 1) {
        MergePages(up, level, p, i, true, key);
      } else if SpaceLeft(lim.pageSize, neighbour) >= SpaceUsed(page) + HISTORY_NODE_SIZE * (|page.history| + 1) {
        MergePages(up, level, p, i, !first, key);
      } else {
        GivesUp(b, t, path, level, key.ord, lim, health);
        health := health.(full := health.full && PageFull(page));
      }
    }

    /** mergePages: after the merge the parent is rebalanced. */
    method MergePages(up: seq<PageNo>, ghost level: nat, p: PageNo, i: nat, above: bool, key: Key)
      requires |up| > 0 && BesideAt(up, level, p, i) && Last(up) in work.frames && Covers(work.frames[Last(up)], key.ord)
      requires Merges(up, p, i, above) && health.full
      modifies `dirtyPages, `collectiblePages, `residueHistory, `lastPage, `workVer, `work, `rootPage, `health
      ensures InTxn({}, {}) && work.entries == old(work.entries) && SameRanges(old(work.frames), work.frames, level)
      ensures (health.fit ==> old(health.fit)) && (Uniform(lim) ==> health == old(health))
      ensures HasRange(work.frames, old(JoinedRange(up, p, i, above, level)))
      decreases |up| + 1, 0
    {
      hide SameRanges, HasRange, InTxn, OpenAt, BesideAt, HBtree.Merges, HBtree.JoinedRange, HasNeighbour, Remedied, RemedyAt;
      ghost var fr, joined := work.frames, JoinedRange(up, p, i, above, level);
      assert joined.level == level;
      MergeInto(up, level, p, i, above, key.ord);
      ghost var gr := work.frames;
      Rebalance(up, level + 1, key);
      SameOnward(fr, gr, work.frames, level, level + 1);
      StillThere(gr, work.frames, level + 1, joined);
    }

    /** Nothing needs to be done about a leaf, or nothing can be done. */
    ghost predicate AtRest(p: PageNo, o: real)
      reads this
    {
      p == work.root || exists path :: RestsAt(path, p, o)
    }

    ghost predicate RestsAt(path: seq<PageNo>, p: PageNo, o: real)
      reads this
    {
      |path| > 1 && Last(path) == p && HasNeighbour(Accounts(), work, path, o) && RemedyAt(Accounts(), work, path, o, lim.pageSize).LeaveIt?
    }

    /** The leaf for a key got another range, or is at rest. */
    ghost predicate Attended(before: Frames, o: real)
      reads this
    {
      forall p :: p in work.frames && work.frames[p].level == 0 && Covers(work.frames[p], o) && HasRange(before, work.frames[p]) ==>
        AtRest(p, o)
    }

    lemma AttendedByRemedy(before: Frames, b: Books, t: Tree, path: seq<PageNo>, o: real, h: Health)
      requires OpenTo(b, t, path, 0, {}, o, lim, h) && |path| > 1 && h.full && HasNeighbour(b, t, path, o)
      requires RangesOk(before) && HasRange(before, t.frames[Last(path)]) && TreeOk(Accounts().View(), work)
      requires Remedied(RemedyAt(b, t, path, o, lim.pageSize), b, t, Accounts(), work)
      ensures Attended(before, o)
    {
      hide OpenTo, HasNeighbour, RemedyAt, HasRange, Remedied;
      forall p | p in work.frames && work.frames[p].level == 0 && Covers(work.frames[p], o) && HasRange(before, work.frames[p])
        ensures AtRest(p, o)
      {
        LeftAsItIs(before, b, t, path, o, lim, h, Accounts(), work, p);
        assert RestsAt(path, p, o);
      }
    }

    lemma AttendedByRoot(before: Frames, b: Books, t: Tree, path: seq<PageNo>, o: real, h: Health)
      requires OpenTo(b, t, path, 0, {}, o, lim, h) && |path| == 1 && TreeOk(Accounts().View(), work)
      requires path[0] in b.dirty && b.dirty[path[0]].NodePage? && RootSettled(b.dirty[path[0]], b, t, Accounts(), work)
      ensures Attended(before, o)
    {
      hide HasRange, TxnOk, Healthy;
      OpenPage(b, t, path, 0, {}, o, lim, h);
      forall p | p in work.frames && work.frames[p].level == 0 && Covers(work.frames[p], o) && HasRange(before, work.frames[p])
        ensures AtRest(p, o)
      {
        if work.root != INVALID_PAGE {
          OneRange(work.frames, p, work.root, o);
        }
      }
    }

    /** del: the tree stands for its map without the key, and the leaf the entry was in has been attended to. Branches of fewer
        than two children are not expected. */
    method Del(key: Key) returns (ok: bool)
      requires InTxn({}, {}) && UserKey(key) && health.full
      modifies `dirtyPages, `collectiblePages, `residueHistory, `lastPage, `workVer, `work, `rootPage, `health, `cursorDisrupted
      ensures (ok <==> key.ord in old(work.entries)) && cursorDisrupted
      ensures InTxn({}, {}) && work.entries == old(work.entries) - {key.ord}
      ensures (health.fit ==> old(health.fit)) && (Uniform(lim) ==> health == old(health))
      ensures ok ==> Attended(old(work.frames), key.ord)
    {
      hide TxnOk, Healthy, OpenTo, DownTo, Contains, PathOk, SameLeaves, Attended, HasRange, HasNeighbour, RemedyAt, Remedied, RootSettled, SameRanges, TreeOk, RangesOk;
      ghost var a, s := Accounts(), work;
      cursorDisrupted := true;
      if rootPage == INVALID_PAGE {
        EmptyTree(Accounts(), work, lim);
        return false;
      }
      ghost var h := health;
      var path;
      ghost var way;
      path, way := SearchForWrite(key);
      LeafContains(Accounts(), work, path, key.ord, lim, health);
      SearchedRange(a, s, Accounts(), work, path, key.ord, lim, health);
      ok := Contains(dirtyPages[Last(path)].nodes, key.ord);
      if ok {
        ghost var freed := RemoveNode(path, key);
        ghost var b, t := Accounts(), work;
        Rebalance(path, 0, key);
        TxnBooks(Accounts(), work, {}, lim);
        if |path| > 1 {
          AttendedByRemedy(s.frames, b, t, path, key.ord, h);
        } else {
          AttendedByRoot(s.frames, b, t, path, key.ord, h);
        }
      } else {
        DownToTxn(Accounts(), work, path, 0, key.ord, lim, health);
      }
    }

    // ---- commit, abort, sync and open ------------------------------------------------------------------------

    /** What the file holds: the committed tree and the durable one, which the markers describe. */
    ghost predicate Stored()
      reads `disk, `committed, `committedVer, `committedHealth, `synced, `syncedVer, `syncedHealth, `marker, `durable,
            `sync1, `sync2, `lastSyncedId
    {
      && OnDisk(disk, committed, committedVer, lim, committedHealth) && committed.root == marker.root
      && OnDisk(disk, synced, syncedVer, lim, syncedHealth) && synced.root == durable.root
      && ReadSyncedMarker(sync1, sync2) == Intact(durable) && durable.syncId == lastSyncedId
      && (if marker.syncId == lastSyncedId then committed == synced else marker.syncId == lastSyncedId + 1)
      && lim.pageSize >= MIN_PAGE_SIZE
    }

    /** No transaction is running. */
    ghost predicate Idle()
      reads this
    {
      && BooksOk(Accounts()) && Stored() && dirtyPages == map[]
      && work == committed && workVer == committedVer && health == committedHealth && rootPage == marker.root
    }

    /** Idle, from its parts. */
    lemma IdleIs()
      requires BooksOk(Accounts()) && dirtyPages == map[] && lim.pageSize >= MIN_PAGE_SIZE
      requires work == committed && workVer == committedVer && health == committedHealth && rootPage == marker.root
      requires OnDisk(disk, committed, committedVer, lim, committedHealth) && committed.root == marker.root
      requires OnDisk(disk, synced, syncedVer, lim, syncedHealth) && synced.root == durable.root
      requires ReadSyncedMarker(sync1, sync2) == Intact(durable) && durable.syncId == lastSyncedId
      requires if marker.syncId == lastSyncedId then committed == synced else marker.syncId == lastSyncedId + 1
      ensures Idle()
    {
      hide BooksOk, OnDisk;
    }

    lemma Begins()
      requires Idle()
      ensures InTxn({}, {}) && SyncIsFree(Accounts())
    {
      hide BooksOk, TxnOk, Healthy, OnDisk;
      BeginTxn(Accounts(), work, lim, health);
    }

    /** Snapshot isolation: a reader on the committed root sees the map of the last commit, whatever was put or deleted
        since. */
    method GetCommitted(key: Key) returns (value: Bytes)
      requires InTxn({}, {}) && Stored() && UserKey(key)
      ensures value == if key.ord in committed.entries then committed.entries[key.ord] else []
    {
      hide OnDisk, TreeOk, TxnOk, Healthy;
      TxnBooks(Accounts(), work, {}, lim);
      CommittedStays(Accounts(), committed, lim, committedHealth);
      value := Get(marker.root, key, committed);
    }

    /** collectHistory: the versions of a page to keep, and the page numbers to collect. */
    method CollectHistory(history: seq<HistoryNode>) returns (kept: seq<HistoryNode>, pages: set<PageNo>)
      ensures kept == Kept(history, lastSyncedId, marker.revision, 0, 0)
      ensures pages == Collected(history, lastSyncedId, marker.revision, 0, 0)
    {
      kept, pages := [], {};
      var numBeforeSync, numBetweenSyncAndCommit, k := 0, 0, 0;
      while k < |history|
        invariant 0 <= k <= |history| && 0 <= numBeforeSync && 0 <= numBetweenSyncAndCommit
        invariant kept + Kept(history[k..], lastSyncedId, marker.revision, numBeforeSync, numBetweenSyncAndCommit)
               == Kept(history, lastSyncedId, marker.revision, 0, 0)
        invariant pages + Collected(history[k..], lastSyncedId, marker.revision, numBeforeSync, numBetweenSyncAndCommit)
               == Collected(history, lastSyncedId, marker.revision, 0, 0)
      {
        var e := history[k];
        assert history[k..][0] == e && history[k..][1..] == history[k + 1..];
        var canCollect := false;
        if e.syncId <= lastSyncedId {
          canCollect := numBeforeSync > 0;
          numBeforeSync := numBeforeSync + 1;
        }
        if e.syncId > lastSyncedId && e.commitId <= marker.revision {
          canCollect := canCollect || numBetweenSyncAndCommit >= COMMIT_CHAIN;
          numBetweenSyncAndCommit := numBetweenSyncAndCommit + 1;
        }
        if canCollect {
          pages := pages + {e.page};
        } else {
          kept := kept + [e];
        }
        k := k + 1;
      }
      assert history[k..] == [];
    }

    /** A dirty page as it is written, and the pages its history gives up. */
    method TrimPage(ghost b: Books, page: Page) returns (trimmed: Page, pages: set<PageNo>)
      requires b.lastSyncedId == lastSyncedId && b.revision == marker.revision
      ensures trimmed == Trimmed(b, page) && pages == FromPage(b, page)
    {
      trimmed, pages := page, {};
      if page.NodePage? {
        var kept;
        kept, pages := CollectHistory(page.history);
        trimmed := page.(history := kept);
      }
    }

    /** The loop of commit: the dirty pages are written, with their histories trimmed; all of them, or the first `stop`. */
    method WritePages(stop: int) returns (collected: set<PageNo>, ghost done: set<PageNo>)
      requires BooksOk(Accounts())
      modifies `disk, `fileEnd, `dirtyPages
      ensures var b := old(Accounts());
        && CutShort(b, done, {}, disk) && dirtyPages == b.dirty - done && collected == GatheredFrom(b, done)
        && b.fileEnd <= fileEnd <= b.lastPage && forall p :: p in done ==> p < fileEnd
      ensures stop < 0 ==> done == old(dirtyPages).Keys
      ensures stop >= 0 ==> |done| == if stop < |old(dirtyPages)| then stop else |old(dirtyPages)|
      ensures |dirtyPages| == |old(dirtyPages)| - |done|
    {
      hide BooksOk, Kept, Collected, CutShort, GatheredFrom, Trimmed, FromPage;
      ghost var b := Accounts();
      DirtyBounds(b);
      collected, done := {}, {};
      NothingDone(b);
      var n := 0;
      while dirtyPages != map[] && n != stop
        invariant CutShort(b, done, {}, disk) && done <= b.dirty.Keys && dirtyPages == b.dirty - done
        invariant collected == GatheredFrom(b, done)
        invariant b.fileEnd <= fileEnd <= b.lastPage && forall p :: p in done ==> p < fileEnd
        invariant n == |done| && |dirtyPages| + n == |b.dirty| && (stop >= 0 ==> n <= stop)
        decreases |dirtyPages|
      {
        Inhabited(dirtyPages.Keys);
        var p :| p in dirtyPages;
        CutShortStep(b, done, disk, p);
        GatheredStep(b, done, p);
        var page, pages := TrimPage(b, dirtyPages[p]);
        collected := collected + pages;
        disk := disk[p := page];
        fileEnd := if p < fileEnd then fileEnd else p + 1;
        dirtyPages := dirtyPages - {p};
        done := done + {p};
        n := n + 1;
      }
      if dirtyPages == map[] {
        DoneAll(b, done);
      }
    }

    method WriteAllPages() returns (collected: set<PageNo>)
      requires BooksOk(Accounts())
      modifies `disk, `fileEnd, `dirtyPages
      ensures disk == old(disk) + Written(old(Accounts())) && dirtyPages == map[] && collected == Gathered(old(Accounts()))
      ensures EndOk(old(Accounts()), fileEnd)
    {
      hide BooksOk, CutShort, Written, Gathered, GatheredFrom;
      ghost var b := Accounts();
      ghost var done;
      collected, done := WritePages(-1);
      AllDone(b, disk);
      GatheredAll(b);
      dirtyPages := map[];
    }

    /** The dirty pages are in the file, what their histories gave up is collectible, and the marker in memory is new. */
    method CommitPages()
      requires BooksOk(Accounts())
      modifies `disk, `fileEnd, `dirtyPages, `collectiblePages, `marker, `workVer, `committedVer
      ensures EndOk(old(Accounts()), fileEnd) && Accounts() == PageAccounts.Commit(old(Accounts()), fileEnd)
      ensures marker.root == rootPage && marker.syncId == lastSyncedId + 1 && marker.size == 0
    {
      hide BooksOk, Written, Gathered, AfterCommit, EndOk;
      ghost var b := Accounts();
      var collected := WriteAllPages();
      collectiblePages := collectiblePages + collected;
      marker := Marker(rootPage, marker.revision + 1, lastSyncedId + 1, 0, residueHistory);
      workVer, committedVer := AfterCommit(b), AfterCommit(b);
    }

    /** commit: the working tree becomes the committed one. */
    method Commit()
      requires InTxn({}, {}) && Stored() && health.fit
      modifies `disk, `fileEnd, `dirtyPages, `collectiblePages, `marker, `workVer, `committedVer, `committed, `committedHealth
      ensures Idle() && committed == old(work) && synced == old(synced) && committedHealth == old(health)
    {
      hide BooksOk, TxnOk, Healthy, TreeOk, OnDisk, Written, Gathered, AfterCommit, EndOk, Idle;
      ghost var b, t := Accounts(), work;
      TxnBooks(b, t, {}, lim);
      CommitPages();
      CommitLeaves(b, fileEnd, t, health, synced, syncedHealth, lim);
      committed, committedHealth := t, health;
      IdleIs();
    }

    /** abort: back to the committed tree. What is left is as good as before the transaction exactly when the residue is free of
        that tree. */
    method Abort()
      requires BooksOk(Accounts()) && Stored()
      modifies `dirtyPages, `rootPage, `work, `workVer, `committedVer, `health, `cursorDisrupted
      ensures Accounts() == PageAccounts.Abort(old(Accounts()), AbortedRole(old(Accounts()))) && Stored()
      ensures rootPage == marker.root && work == committed == old(committed) && synced == old(synced) && !cursorDisrupted
      ensures Idle() <==> old(ResidueIsFree(Accounts()))
    {
      hide BooksOk, OnDisk, ResidueIsFree, AbortedRole;
      ghost var b := Accounts();
      AbortKeepsBooks(b);
      dirtyPages, cursorDisrupted := map[], false;
      rootPage := marker.root;
      workVer := Version(committedVer.live, AbortedRole(b));
      committedVer := workVer;
      work, health := committed, committedHealth;
      assert Accounts() == PageAccounts.Abort(b, AbortedRole(b));
      SameVersion(disk, committed, b.committed, committedVer, lim, committedHealth);
    }

    /** The marker that sync writes. */
    function SyncMarker(): Marker
      reads `marker, `collectiblePages, `fileEnd
    {
      marker.(residueHistory := marker.residueHistory + collectiblePages, size := fileEnd)
    }

    /** sync up to its counters: the marker is written to page 1 and then to page 2. */
    method SyncPages()
      requires BooksOk(Accounts()) && SyncIsFree(Accounts())
      modifies `sync1, `sync2, `marker, `collectiblePages, `residueHistory, `lastSyncedId, `durable,
               `workVer, `committedVer, `syncedVer
      ensures Accounts() == PageAccounts.Sync(old(Accounts())) && BooksOk(Accounts())
      ensures sync1 == sync2 == Intact(durable) && durable == old(SyncMarker()) && marker == old(marker).(residueHistory := {})
    {
      hide BooksOk, Released, SyncIsFree;
      ghost var b := Accounts();
      SyncKeepsBooks(b);
      var synced0 := SyncMarker();
      sync1 := Intact(synced0);
      lastSyncedId := lastSyncedId + 1;
      collectiblePages := collectiblePages + marker.residueHistory;
      marker := marker.(residueHistory := {});
      residueHistory := {};
      sync2 := Intact(synced0);
      durable := synced0;
      workVer, committedVer, syncedVer := Released(workVer, b.markerResidue), AfterSync(b), AfterSync(b);
      assert Accounts() == PageAccounts.Sync(b);
    }

    /** sync: the committed tree becomes the durable one. Nothing is written when nothing was committed since. A running
        transaction goes on. */
    method Sync()
      requires InTxn({}, {}) && Stored() && (marker.syncId == lastSyncedId || SyncIsFree(Accounts()))
      modifies `sync1, `sync2, `marker, `collectiblePages, `residueHistory, `lastSyncedId, `durable,
               `workVer, `committedVer, `syncedVer, `synced, `syncedHealth
      ensures InTxn({}, {}) && Stored() && synced == committed && (old(Idle()) ==> Idle())
      ensures old(sync2 == Intact(durable)) ==> sync2 == Intact(durable)
      ensures old(marker.syncId != lastSyncedId) ==> sync1 == sync2 == Intact(durable)
    {
      hide BooksOk, OnDisk, TxnOk, Healthy, SyncIsFree;
      TxnBooks(Accounts(), work, {}, lim);
      if marker.syncId == lastSyncedId {
        return;
      }
      ghost var b := Accounts();
      SyncPages();
      synced, syncedHealth := committed, committedHealth;
      SameVersion(disk, committed, b.committed, committedVer, lim, committedHealth);
      SyncTxn(b, work, lim);
    }

    lemma IdleParts()
      requires Idle()
      ensures BooksOk(Accounts()) && Stored() && dirtyPages == map[] && lim.pageSize >= MIN_PAGE_SIZE
      ensures work == committed && workVer == committedVer && health == committedHealth && rootPage == marker.root
    {
      hide BooksOk, OnDisk;
    }

    // ---- crashes ---------------------------------------------------------------------------------------------

    /** The books that open makes from the file. */
    ghost function Reopened(): Books
      reads `disk, `durable, `syncedVer
    {
      Books(Upto(disk, durable.size), durable.size, map[], durable.residueHistory, {}, durable.size, durable.syncId,
            durable.revision, {}, syncedVer, syncedVer, syncedVer, durable.residueHistory, durable.size, durable.revision)
    }

    /** The file is as a crash may leave it: the marker that open will read describes the durable tree, whose pages are
        all there. */
    ghost predicate Recoverable()
      reads `disk, `sync1, `sync2, `durable, `syncedVer, `synced, `syncedHealth
    {
      && BooksOk(Reopened()) && OnDisk(Upto(disk, durable.size), synced, syncedVer, lim, syncedHealth)
      && synced.root == durable.root && ReadSyncedMarker(sync1, sync2) == Intact(durable) && lim.pageSize >= MIN_PAGE_SIZE
    }

    lemma CrashedFile(b: Books, disk': Pages)
      requires BooksOk(b) && Crashed(b, disk') && OnDisk(b.disk, synced, syncedVer, lim, syncedHealth) && disk == disk'
      requires b.synced == syncedVer && b.syncedList == durable.residueHistory && b.syncedSize == durable.size
      requires b.syncedRevision == durable.revision && b.lastSyncedId == durable.syncId
      ensures BooksOk(Reopened()) && OnDisk(Upto(disk, durable.size), synced, syncedVer, lim, syncedHealth)
    {
      hide BooksOk, OnDisk, Crashed;
      ReopenKeepsBooks(b, disk');
      SyncedStays(b, disk', synced, lim, syncedHealth);
      assert Reopened() == Reopen(b, disk');
    }

    /** A crash while a transaction is running: what is in memory is lost, the file is as it was. */
    lemma CrashInTransaction()
      requires BooksOk(Accounts()) && Stored()
      ensures Recoverable()
    {
      hide BooksOk, OnDisk, Crashed;
      NothingDone(Accounts());
      CutShortIsCrashed(Accounts(), {}, {}, disk);
      CrashedFile(Accounts(), disk);
    }

    /** A crash during commit, after any number of page writes, the last one perhaps torn. */
    method CrashInCommit(stop: nat, torn: bool)
      requires InTxn({}, {}) && Stored()
      modifies `disk, `fileEnd, `dirtyPages
      ensures Recoverable() && synced == old(synced)
      ensures torn && stop < |old(dirtyPages)| ==> exists p :: p in old(dirtyPages) && p in disk && disk[p] == Torn
    {
      hide BooksOk, TxnOk, Healthy, TreeOk, OnDisk, CutShort, Crashed, GatheredFrom;
      ghost var b := Accounts();
      TxnBooks(b, work, {}, lim);
      var collected;
      ghost var done;
      collected, done := WritePages(stop);
      ghost var half: set<PageNo> := {};
      if torn && dirtyPages != map[] {
        Inhabited(dirtyPages.Keys);
        var p :| p in dirtyPages;
        CutShortStep(b, done, disk, p);
        assert p in b.dirty;
        disk := disk[p := Torn];
        half := {p};
      }
      CutShortIsCrashed(b, done, half, disk);
      CrashedFile(b, disk);
    }

    /** A crash that tears the write of marker 1. The durable tree survives exactly when marker 2 describes it. */
    method CrashInFirstMarker()
      requires Idle()
      modifies `sync1
      ensures sync1 == TornMarker && (Recoverable() <==> sync2 == Intact(durable))
      ensures synced == old(synced)
    {
      hide BooksOk, OnDisk, Idle;
      IdleParts();
      CrashInTransaction();
      sync1 := TornMarker;
    }

    /** A crash after marker 1 is written, which perhaps tears the write of marker 2. The tree being synced survives, but
        marker 2 does not describe it. */
    method CrashInSecondMarker(torn: bool)
      requires Idle() && marker.syncId != lastSyncedId
      modifies `sync1, `sync2, `durable, `syncedVer, `synced, `syncedHealth
      ensures Recoverable() && synced == old(committed)
      ensures old(sync2 == Intact(durable)) ==> sync2 != Intact(durable)
      ensures sync1 == Intact(durable) && sync2 == if torn then TornMarker else old(sync2)
    {
      hide BooksOk, OnDisk, Idle;
      IdleParts();
      ghost var b := Accounts();
      NothingDirty(b);
      SyncKeepsBooks(b);
      var synced0 := SyncMarker();
      sync1 := Intact(synced0);
      if torn {
        sync2 := TornMarker;
      }
      durable, syncedVer := synced0, AfterSync(b);
      synced, syncedHealth := committed, committedHealth;
      SameVersion(disk, committed, b.committed, syncedVer, lim, committedHealth);
      NothingDone(PageAccounts.Sync(b));
      CutShortIsCrashed(PageAccounts.Sync(b), {}, {}, disk);
      CrashedFile(PageAccounts.Sync(b), disk);
    }

    // ---- open ------------------------------------------------------------------------------------------------

    /** What open reads from the file. */
    method Load()
      requires ReadSyncedMarker(sync1, sync2) == Intact(durable)
      modifies `disk, `fileEnd, `dirtyPages, `collectiblePages, `residueHistory, `lastPage, `lastSyncedId, `marker, `rootPage,
               `workVer, `committedVer
      ensures Accounts() == old(Reopened()) && marker == durable.(residueHistory := {})
      ensures rootPage == marker.root && lastSyncedId == durable.syncId
    {
      hide Upto;
      var m := ReadSyncedMarker(sync1, sync2).marker;
      disk, fileEnd, lastPage, lastSyncedId := Upto(disk, m.size), m.size, m.size, m.syncId;
      marker, collectiblePages, rootPage := m.(residueHistory := {}), m.residueHistory, m.root;
      dirtyPages, residueHistory, workVer, committedVer := map[], {}, syncedVer, syncedVer;
    }

    /** open: the tree of the marker that is valid becomes the committed one; its page list becomes collectible. Marker 2
        is not repaired. */
    method Open()
      requires Recoverable()
      modifies `disk, `fileEnd, `dirtyPages, `collectiblePages, `residueHistory, `lastPage, `lastSyncedId, `marker, `rootPage,
               `work, `committed, `workVer, `committedVer, `health, `committedHealth, `cursorDisrupted
      ensures Idle() && committed == old(synced) && synced == old(synced) && !cursorDisrupted
      ensures collectiblePages !! committed.Live()
    {
      hide BooksOk, OnDisk, Idle, Upto;
      Load();
      cursorDisrupted := false;
      work, committed, health, committedHealth := synced, synced, syncedHealth, syncedHealth;
      ApartFromTree(Accounts(), synced, lim, syncedHealth);
      IdleIs();
    }

    /** A new file: the three pages of the specification and the markers, and no tree. */
    constructor (lim: Limits)
      requires lim.pageSize >= MIN_PAGE_SIZE
      ensures this.lim == lim && Idle() && committed.entries == map[] && sync1 == sync2 == Intact(durable)
      ensures health == committedHealth == syncedHealth == Health(true, true)
      ensures rootPage == INVALID_PAGE && collectiblePages == {} && lastSyncedId == 0 && marker.revision == 0 && !cursorDisrupted
    {
      this.lim, cursorDisrupted := lim, false;
      disk, fileEnd, dirtyPages := map[], 3, map[];
      var synced0 := Marker(INVALID_PAGE, 0, 0, 3, {});
      sync1, sync2, marker := Intact(synced0), Intact(synced0), synced0;
      collectiblePages, residueHistory, lastPage, lastSyncedId, rootPage := {}, {}, 3, 0, INVALID_PAGE;
      work, committed, synced := EMPTY_TREE, EMPTY_TREE, EMPTY_TREE;
      workVer, committedVer, syncedVer := Version({}, map[]), Version({}, map[]), Version({}, map[]);
      durable := synced0;
      health, committedHealth, syncedHealth := Health(true, true), Health(true, true), Health(true, true);
      new;
      NewFileIsOk(Accounts());
    }

    // ---- get -------------------------------------------------------------------------------------------------

    /** get on the tree below a root: the value of the key, or the empty value. */
    method Get(root: PageNo, key: Key, ghost t: Tree) returns (value: Bytes)
      requires TreeOk(Accounts().View(), t) && t.root == root && 0.0 <= key.ord < TOP
      ensures value == if key.ord in t.entries then t.entries[key.ord] else []
    {
      if root == INVALID_PAGE {
        return [];
      }
      ghost var v := Accounts().View();
      RootIsPage(v, t) by { assert t.root in t.frames; }
      RootFrame(v, t);
      LiveInView(v, t);
      var p := root;
      var page := GetPage(p);
      while !page.leaf
        invariant p in t.frames && Covers(t.frames[p], key.ord) && p in v && page == v[p] && page.NodePage?
        invariant page.leaf <==> t.frames[p].level == 0
        decreases t.frames[p].level
      {
        ChildCovers(v, t, p, key.ord);
        p := page.nodes[ChildIndex(page.nodes, key.ord)].value.page;
        page := GetPage(p);
      }
      LeafLookup(v, t, p, key.ord);
      var i := LowerBound(page.nodes, key.ord);
      if i < |page.nodes| && page.nodes[i].key.ord == key.ord {
        var nval := page.nodes[i].value;
        if nval.Overflow? {
          var pages;
          value, pages := WalkOverflowPages(nval.first, t.chains);
        } else {
          value := nval.data;
        }
      } else {
        value := [];
      }
    }
  }

  lemma PathIsDirty(b: Books, t: Tree, path: seq<PageNo>, level: nat, o: real, lim: Limits, h: Health)
    requires DownTo(b, t, path, level, o, lim, h)
    ensures |path| > 0 && Last(path) in b.dirty && b.dirty[Last(path)].NodePage?
    ensures Last(path) in t.frames
  {
    hide TxnOk, Healthy;
  }
}

// A leaf that split cannot divide, made by puts on a new file.
module SplitCorner {
  import opened HBtreeRecords
  import opened OrderedNodes
  import opened TreeInvariant
  import opened PageAccounts
  import opened Transaction
  import opened SplitArithmetic
  import opened Descent
  import opened SplitPaths
  import opened HBtree

  const SMALL := 289
  const CORNER_LIMITS: Limits := Limits(MIN_PAGE_SIZE, 0, Rank)

  // ---- the entries -------------------------------------------------------------------------------------------

  /** Four bytes that count up. */
  function SmallKey(i: nat): Bytes
    requires i < 0x1_0000
  {
    [0, 0, (i / 256) as byte, (i % 256) as byte]
  }

  /** n entries of different four-byte keys, in the default order, with no value. */
  function Small(n: nat): seq<Node>
    requires n < 0x1_0000
  {
    seq(n, i requires 0 <= i < n => Node(Key(Rank(SmallKey(i)), SmallKey(i)), Inline([])))
  }

  /** An entry above them whose value is just not long enough for an overflow page. */
  function Large(): Node {
    Node(Key(Rank([9]), [9]), Inline(seq(990, i => 0)))
  }

  lemma SmallKeysRise(i: nat, j: nat)
    requires i < j < 0x1_0000
    ensures 0.0 < Rank(SmallKey(i)) < Rank(SmallKey(j)) < Rank([9]) < TOP
  {
    var a, b := SmallKey(i), SmallKey(j);
    assert a[1..] == [0, a[2], a[3]] && a[1..][1..] == [a[2], a[3]] && a[1..][1..][1..] == [a[3]];
    assert b[1..] == [0, b[2], b[3]] && b[1..][1..] == [b[2], b[3]] && b[1..][1..][1..] == [b[3]];
    assert CompareBytes(a, b) == CompareBytes([a[2], a[3]], [b[2], b[3]]);
    CompareIsRankOrder(a, b);
    CompareIsRankOrder(b, [9]);
  }

  lemma SmallSorted(n: nat)
    requires n < 0x1_0000
    ensures Sorted(Small(n)) && Rank([9]) < TOP
    ensures forall i :: 0 <= i < n ==> 0.0 < Small(n)[i].key.ord < Rank([9])
  {
    hide Rank;
    forall i, j | 0 <= i < j < n ensures Small(n)[i].key.ord < Small(n)[j].key.ord {
      SmallKeysRise(i, j);
    }
    forall i | 0 <= i < n ensures 0.0 < Small(n)[i].key.ord < Rank([9]) {
      SmallKeysRise(i, i + 1);
    }
  }

  lemma {:induction false} SmallBytes(n: nat)
    requires n < 0x1_0000
    ensures ByteCount(Small(n)) == 14 * n && Counted(Small(n)) == 26 * n
  {
    hide Rank;
    if n > 0 {
      SmallBytes(n - 1);
      assert Small(n)[..n - 1] == Small(n - 1);
    }
  }

  lemma SmallPrefix(n: nat, k: nat)
    requires k <= n < 0x1_0000
    ensures Small(n)[..k] == Small(k)
  {
    hide Rank;
  }

  // ---- the page ----------------------------------------------------------------------------------------------

  /** A leaf with the first k entries. */
  function Prefix(k: nat): Page
    requires k < 0x1_0000
  {
    NodePage(true, Small(k), 12 * k, 2 * k, [], 1, 1, false)
  }

  function CornerPage(): Page {
    Prefix(SMALL)
  }

  lemma CornerPageFits()
    ensures PageLocal(CornerPage(), CORNER_LIMITS) && PageFits(CornerPage(), MIN_PAGE_SIZE) && PageFull(CornerPage())
  {
    hide Rank, Small;
    SmallBytes(SMALL);
    SmallShape();
  }

  lemma SmallShape()
    ensures |Small(SMALL)| == SMALL && NodesLocal(true, Small(SMALL), CORNER_LIMITS)
    ensures forall i :: 0 <= i < SMALL ==> Small(SMALL)[i].value == Inline([])
  {
    hide Rank;
  }

  // ---- the puts ----------------------------------------------------------------------------------------------

  function EntryKey(k: nat): Key
    requires k < 0x1_0000
  {
    Key(Rank(SmallKey(k)), SmallKey(k))
  }

  /** Up to 288 entries there is room for the next one, which comes last. */
  lemma NextEntry(k: nat)
    requires k < SMALL
    ensures var p, key := Prefix(k), EntryKey(k);
      && 0.0 < key.ord < TOP && PageRemove(p, key.ord) == p && SpaceNeeded(key, []) <= SpaceLeft(MIN_PAGE_SIZE, p)
      && PageInsert(p, Node(key, Inline([]))) == Prefix(k + 1)
  {
    hide Rank;
    SmallSorted(k + 1);
    SmallKeysRise(k, k + 1);
    SmallPrefix(k + 1, k);
    var key, ns := EntryKey(k), Small(k);
    assert Small(k + 1)[k] == Node(key, Inline([]));
    assert forall i :: 0 <= i < k ==> ns[i] == Small(k + 1)[i];
    LowerBoundIs(ns, key.ord, k);
    assert Small(k + 1) == ns + [Node(key, Inline([]))];
  }

  lemma FirstPage(b: Books, n: PageNo)
    requires b.lastSyncedId == 0 && b.revision == 0 && n !in b.collectible
    ensures BlankPage(b, n, true) == Prefix(0)
  {
    hide Rank;
    assert Small(0) == [];
  }

  /** A root leaf that has room for an entry takes it. */
  lemma RootTakes(tree: HBtree, key: Key)
    requires tree.InTxn({}, {}) && tree.RootIsLeaf() && tree.LeafHasRoom(key, []) && 0.0 <= key.ord < TOP
    ensures PutFits(tree.Accounts(), tree.work, key, [], tree.lim.pageSize)
  {
    hide BooksOk, TreeOk, LocalsOk, Healthy, Remove, Contains, SplitFits, SplitKey, TakesKey;
    var b, t := tree.Accounts(), tree.work;
    RootIsAlone(b, t, tree.lim);
    assert WayTo(t, [t.root], key.ord);
    assert PagesForPut(b, [t.root], key.ord, tree.lim.pageSize) == [PageRemove(b.dirty[t.root], key.ord)];
  }

  lemma NoTree(tree: HBtree, key: Key)
    requires tree.InTxn({}, {}) && tree.rootPage == INVALID_PAGE
    ensures PutFits(tree.Accounts(), tree.work, key, [], tree.lim.pageSize)
  {
    hide TxnOk, Healthy;
  }

  /** A leaf as the root: its frame is at level 0. */
  lemma RootIsAlone(b: Books, t: Tree, lim: Limits)
    requires TxnOk(b, t, {}, lim) && t.root in b.dirty && b.dirty[t.root].NodePage? && b.dirty[t.root].leaf
    ensures t.root in t.frames && t.frames[t.root] == Frame(0.0, TOP, 0)
  {
    hide LocalsOk, SyncedOk, CommittedOk, WorkOk;
    assert b.View()[t.root] == b.dirty[t.root];
    assert t.frames[t.root].level > 0 ==> BranchOk(b.View()[t.root], t.frames[t.root], t.frames);
  }

  /** The tree after k puts. */
  ghost predicate AfterPuts(tree: HBtree, k: nat)
    requires k < 0x1_0000
    reads tree
  {
    && tree.lim == CORNER_LIMITS && tree.InTxn({}, {}) && tree.health == Health(true, true)
    && tree.lastSyncedId == 0 && tree.marker.revision == 0
    && (k == 0 ==> tree.rootPage == INVALID_PAGE && tree.collectiblePages == {})
    && (k > 0 ==> tree.RootIsLeaf() && tree.dirtyPages[tree.rootPage] == Prefix(k))
  }

  method PutEntry(tree: HBtree, k: nat)
    requires k < SMALL && AfterPuts(tree, k)
    modifies tree
    ensures AfterPuts(tree, k + 1)
  {
    hide Rank, Small, HBtree.InTxn, PageInsert, PageRemove, PutFits, BlankPage, SmallKey, Prefix;
    ghost var b := tree.Accounts();
    NextEntry(k);
    KeyInPlace(k);
    if k > 0 {
      RootTakes(tree, EntryKey(k));
    } else {
      NoTree(tree, EntryKey(k));
    }
    var ok := tree.Put(EntryKey(k), []);
    if k == 0 {
      FirstPage(b, tree.rootPage);
    }
  }

  lemma KeyInPlace(k: nat)
    requires k < 0x1_0000
    ensures |EntryKey(k).data| == 4 && EntryKey(k).ord == CORNER_LIMITS.place(EntryKey(k).data)
  {
    hide Rank;
  }

  /** 289 puts on a new file make the page, the only one of a tree whose pages all fit. */
  method CornerByPuts() returns (tree: HBtree)
    ensures fresh(tree) && AfterPuts(tree, SMALL) && tree.InTxn({}, {}) && tree.health == Health(true, true)
    ensures tree.RootIsLeaf() && tree.dirtyPages[tree.rootPage] == CornerPage()
  {
    hide Rank, HBtree.InTxn, HBtree.Idle, Prefix;
    tree := new HBtree(CORNER_LIMITS);
    tree.IdleParts();
    tree.Begins();
    for k := 0 to SMALL
      invariant fresh(tree) && AfterPuts(tree, k)
    {
      PutEntry(tree, k);
    }
  }

  // ---- the split ---------------------------------------------------------------------------------------------

  lemma LargeComesLast()
    ensures Insert(CornerPage().nodes, Large()) == Small(SMALL) + [Large()] && !Contains(CornerPage().nodes, Large().key.ord)
    ensures LowerBound(CornerPage().nodes, Large().key.ord) == SMALL
  {
    hide Rank, Small;
    SmallSorted(SMALL);
    SmallShape();
    LowerBoundIs(Small(SMALL), Rank([9]), SMALL);
  }

  lemma CornerIsOverfull()
    ensures Insert(CornerPage().nodes, Large()) == Small(SMALL) + [Large()] && !Contains(CornerPage().nodes, Large().key.ord)
    ensures LowerBound(CornerPage().nodes, Large().key.ord) == SMALL
    ensures Overfull(CornerPage(), Large(), Small(SMALL) + [Large()], MIN_PAGE_SIZE, CORNER_LIMITS)
  {
    hide Rank, Small, Insert, Contains, LowerBound;
    LargeComesLast();
    SmallShape();
    CornerPageFits();
    SmallBytes(SMALL);
    BytesConcat(Small(SMALL), [Large()]);
    UpperBytesOne(Large());
  }

  /** The corner the code leaves out: this leaf takes a large entry. Its right half does not fit a page of 4096 bytes. */
  lemma ThreeWayCorner()
    ensures Overfull(CornerPage(), Large(), Insert(CornerPage().nodes, Large()), MIN_PAGE_SIZE, CORNER_LIMITS)
    ensures !SplitFits(CornerPage(), Large(), MIN_PAGE_SIZE)
    ensures !HalvesFit(CornerPage(), Insert(CornerPage().nodes, Large()), MIN_PAGE_SIZE)
  {
    hide Rank, Small, HalvesFit, Overfull, Insert, Cut;
    CornerIsOverfull();
    SmallSorted(SMALL);
    CornerCut();
    HalvesFitIff(CornerPage(), Large(), MIN_PAGE_SIZE, CORNER_LIMITS);
  }

  /** The put of the large entry on that tree is one whose pages do not all fit. */
  lemma CornerMisfits(tree: HBtree)
    requires AfterPuts(tree, SMALL)
    ensures !PutFits(tree.Accounts(), tree.work, Large().key, Large().value.data, MIN_PAGE_SIZE)
  {
    hide Rank, Small, BooksOk, LocalsOk, LeavesOk, BranchesOk, Healthy, Overfull, SplitFits, SplitKey, TakesKey, Insert, HalvesFit, PageRemove, Contains;
    var b, t, o := tree.Accounts(), tree.work, Large().key.ord;
    ThreeWayCorner();
    CornerIsOverfull();
    LargeAlone();
    RootIsAlone(b, t, tree.lim);
    assert WayTo(t, [t.root], o);
    forall way | WayTo(t, way, o) ensures !WayTakes(PagesForPut(b, way, o, MIN_PAGE_SIZE), Large().key, Large().value.data, MIN_PAGE_SIZE) {
      WayIsUnique(t, way, [t.root], o);
      assert PagesForPut(b, way, o, MIN_PAGE_SIZE) == [PageRemove(CornerPage(), o)];
    }
  }

  /** So with one more put a new file has a page that is too full. */
  method CornerOverfills() returns (tree: HBtree, ok: bool)
    ensures fresh(tree) && ok && tree.InTxn({}, {}) && tree.TooFull()
  {
    hide Rank, HBtree.InTxn, HBtree.TooFull, PutFits, Prefix;
    tree := CornerByPuts();
    CornerMisfits(tree);
    LargeAlone();
    ok := tree.Put(Large().key, Large().value.data);
  }

  lemma LargeAlone()
    ensures 0.0 <= Large().key.ord < TOP && LeafNode(Large().key, Large().value.data) == Large()
    ensures !Contains(CornerPage().nodes, Large().key.ord) ==> PageRemove(CornerPage(), Large().key.ord) == CornerPage()
    ensures Overfull(CornerPage(), Large(), Insert(CornerPage().nodes, Large()), MIN_PAGE_SIZE, CORNER_LIMITS) ==>
      SpaceNeeded(Large().key, Large().value.data) > SpaceLeft(MIN_PAGE_SIZE, CornerPage())
  {
    hide Small, Insert, Contains;
  }

  /** 59 entries reach the threshold. */
  lemma CornerCut()
    ensures GoesRight(CornerPage(), Large(), MIN_PAGE_SIZE) && Before(CornerPage(), Large(), MIN_PAGE_SIZE) <= 59
    ensures ByteCount(CornerPage().nodes[..Before(CornerPage(), Large(), MIN_PAGE_SIZE)]) <= 826
  {
    hide Rank, Small, ByteCount, Counted, Insert;
    CornerIsOverfull();
    SmallShape();
    assert Small(SMALL)[..SMALL] == Small(SMALL);
    SmallBytes(SMALL);
    SmallPrefix(SMALL, 59);
    SmallBytes(59);
    var k := Before(CornerPage(), Large(), MIN_PAGE_SIZE);
    SmallPrefix(SMALL, k);
    SmallBytes(k);
  }
}

// The states a split goes through: an overfull page that is still whole, then two halves the parent has not learnt of.
module Splitting {
  import opened HBtreeRecords
  import opened OrderedNodes
  import opened TreeInvariant
  import opened TreeSteps
  import opened PageAccounts
  import opened Transaction
  import opened SplitArithmetic
  import opened Descent
  import opened SplitPaths
  import opened OverflowChains

  /** Page l stands for `copy`, which holds one node more than fits; everything else is a transaction. */
  ghost predicate Virtual(b: Books, t: Tree, l: PageNo, copy: Page, x: set<PageNo>, lim: Limits, h: Health, s: set<PageNo>) {
    && l in t.frames && l in b.dirty && SameBooks(b.dirty[l], copy) && copy.leaf == b.dirty[l].leaf && l in s
    && TxnOn(b, b.View()[l := copy], t, x, lim) && Healthy(b.View(), t, s, lim.pageSize, h)
  }

  lemma VirtualNew(b: Books, t: Tree, l: PageNo, copy: Page, x: set<PageNo>, lim: Limits, h: Health, s: set<PageNo>,
                   n: PageNo, page: Page)
    requires Virtual(b, t, l, copy, x, lim, h, s) && MayTake(b, n) && Blank(b, n, page)
    ensures Virtual(NewPage(b, n, page), t, l, copy, x + {n}, lim, h, s)
    ensures n !in t.Live() && n !in x && n != INVALID_PAGE && n !in b.dirty
  {
    hide BooksOk, TreeOk, LocalsOk, MayTake;
    var c := NewPage(b, n, page);
    NewPageIsUnreachable(b, n);
    NewPageKeepsBooks(b, n, page);
    var v, w := b.View()[l := copy], c.View()[l := copy];
    LiveInView(v, t);
    assert Same(v, w, t.Live());
    AgreeTree(v, w, t);
    SameLocals(v, w, t, lim);
    assert Same(b.View(), c.View(), t.Live()) by {
      assert forall p :: p in t.Live() && p != l ==> p in v && v[p] == b.View()[p];
    }
    SameHealth(b.View(), c.View(), t, s, lim.pageSize, h);
  }

  lemma SameLocals(v: Pages, w: Pages, t: Tree, lim: Limits)
    requires LocalsOk(v, t.frames, lim) && Same(v, w, t.Live())
    ensures LocalsOk(w, t.frames, lim)
  {
    hide PageLocal;
  }

  /** A branch with one child is put above the root. */
  lemma VirtualGrown(b: Books, t: Tree, l: PageNo, copy: Page, x: set<PageNo>, lim: Limits, h: Health, s: set<PageNo>, n: PageNo)
    requires Virtual(b, t, l, copy, x, lim, h, s) && n in x && n in b.dirty && Empty(b.dirty[n], false) && n != INVALID_PAGE
    requires l == t.root
    ensures t.root in t.frames && PageInsert(b.dirty[n], RootNode(t.root)).nodes == [RootNode(t.root)]
    ensures SpaceUsed(PageInsert(b.dirty[n], RootNode(t.root))) == NODE_HEADER_SIZE + INDEX_SIZE
    ensures Virtual(Edit(b, n, PageInsert(b.dirty[n], RootNode(t.root))), Grown(t, n), l, copy, x - {n}, lim, h, s + {n})
  {
    hide BooksOk, TreeOk, LocalsOk;
    var v := b.View()[l := copy];
    RootIsPage(v, t);
    GrowRootTxn(b, v, t, x, n, lim);
    var page := PageInsert(b.dirty[n], RootNode(t.root));
    EditKeepsBooks(b, n, page);
    var c := Edit(b, n, page);
    assert c.View()[l := copy] == v[n := page];
    assert c.View() == b.View()[n := page];
    GrownHealth(b.View(), t, s, n, page, lim.pageSize, h);
  }

  lemma VirtualBooks(b: Books, t: Tree, l: PageNo, copy: Page, x: set<PageNo>, lim: Limits, h: Health, s: set<PageNo>)
    requires Virtual(b, t, l, copy, x, lim, h, s)
    ensures BooksOk(b) && l in b.dirty && b.dirty[l].NodePage? && b.dirty[l].leaf == copy.leaf
    ensures l in t.frames && t.root in t.frames
  {
    hide BooksOk, LocalsOk, TreeOk;
    RootIsPage(b.View()[l := copy], t);
  }

  /** The pages whose size is not settled while the last page of a path is split: a new root has one child only. */
  ghost function Unsettled(path: seq<PageNo>, grown: bool): set<PageNo>
    requires |path| > 0
  {
    {Last(path)} + if |path| > 1 then Untold(Front(path), grown) else {}
  }

  ghost function Untold(path: seq<PageNo>, grown: bool): set<PageNo>
    requires |path| > 0
  {
    if grown then {Last(path)} else {}
  }

  /** The last page of a path of dirty pages is to be split. */
  ghost predicate Halving(b: Books, t: Tree, path: seq<PageNo>, level: nat, copy: Page, x: set<PageNo>, lim: Limits, h: Health,
                          grown: bool) {
    PathOk(t, path, level) && AllDirty(b, path) && Virtual(b, t, Last(path), copy, x, lim, h, Unsettled(path, grown))
  }

  lemma HalvingShape(b: Books, t: Tree, path: seq<PageNo>, level: nat, copy: Page, lim: Limits, h: Health, grown: bool)
    requires Halving(b, t, path, level, copy, {}, lim, h, grown)
    ensures |path| > 0 && copy.NodePage?
  {
  }

  lemma HalvingBooks(b: Books, t: Tree, path: seq<PageNo>, level: nat, copy: Page, x: set<PageNo>, lim: Limits, h: Health,
                     grown: bool)
    requires Halving(b, t, path, level, copy, x, lim, h, grown)
    ensures BooksOk(b) && |path| > 0 && path[0] == t.root && t.root in t.frames && Last(path) in t.frames
    ensures Last(path) in b.dirty && b.dirty[Last(path)].NodePage? && b.dirty[Last(path)].leaf == copy.leaf
  {
    hide Virtual;
    VirtualBooks(b, t, Last(path), copy, x, lim, h, Unsettled(path, grown));
  }

  /** A branch put above a page that is the root, with the way down to the page. */
  lemma RootGrows(b: Books, t: Tree, path: seq<PageNo>, level: nat, copy: Page, lim: Limits, h: Health, n: PageNo)
    requires |path| == 1 && Halving(b, t, path, level, copy, {}, lim, h, false) && MayTake(b, n)
    ensures t.root in t.frames && t.root == path[0] && n != path[0] && n !in b.dirty && n !in t.frames
    ensures var page := PageInsert(BlankPage(b, n, false), RootNode(t.root));
      var c := Edit(NewPage(b, n, BlankPage(b, n, false)), n, page);
      && Halving(c, Grown(t, n), [n] + path, level, copy, {}, lim, h, true)
      && SpaceUsed(page) == NODE_HEADER_SIZE + INDEX_SIZE
  {
    hide Virtual, BooksOk, MayTake, PageInsert, Grown, PathOk;
    var l := path[0];
    assert Unsettled(path, false) == {l} && Unsettled([n] + path, true) == {l, n};
    var b1 := NewPage(b, n, BlankPage(b, n, false));
    assert t.root == l by { PathTop(t, path, level); }
    VirtualNew(b, t, l, copy, {}, lim, h, {l}, n, BlankPage(b, n, false));
    assert {} + {n} == {n} && {n} - {n} == {} && {l} + {n} == {l, n};
    VirtualGrown(b1, t, l, copy, {n}, lim, h, {l}, n);
    GrownPath(b, t, path, level, copy, lim, h, n);
    assert b1.dirty[n] == BlankPage(b, n, false);
    PageInsertPage(BlankPage(b, n, false), RootNode(t.root));
    DirtyFront(b, path, Edit(b1, n, PageInsert(BlankPage(b, n, false), RootNode(t.root))), n);
  }

  lemma PathTop(t: Tree, path: seq<PageNo>, level: nat)
    requires PathOk(t, path, level)
    ensures path[0] == t.root
  {
  }

  lemma PageInsertPage(p: Page, nd: Node)
    requires p.NodePage?
    ensures PageInsert(p, nd).NodePage? && PageInsert(p, nd).leaf == p.leaf
  {
  }

  lemma DirtyFront(b: Books, path: seq<PageNo>, c: Books, n: PageNo)
    requires AllDirty(b, path) && n in c.dirty && c.dirty[n].NodePage?
    requires forall p :: p in b.dirty ==> p in c.dirty && c.dirty[p] == b.dirty[p]
    ensures AllDirty(c, [n] + path)
  {
    assert forall j :: 0 < j < |[n] + path| ==> ([n] + path)[j] == path[j - 1];
  }

  lemma GrownPath(b: Books, t: Tree, path: seq<PageNo>, level: nat, copy: Page, lim: Limits, h: Health, n: PageNo)
    requires |path| == 1 && PathOk(t, path, level) && n !in t.Live()
    requires Virtual(b, t, path[0], copy, {}, lim, h, {path[0]})
    ensures t.root in t.frames && PathOk(Grown(t, n), [n] + path, level)
  {
    hide BooksOk, LocalsOk;
    RootIsPage(b.View()[path[0] := copy], t);
    PathGrown(t, path, level, n);
  }

  /** The right page is new next to a page that is to be split. */
  lemma RightPage(b: Books, t: Tree, path: seq<PageNo>, level: nat, copy: Page, lim: Limits, h: Health, grown: bool, n: PageNo)
    requires Halving(b, t, path, level, copy, {}, lim, h, grown) && MayTake(b, n)
    ensures Halving(NewPage(b, n, BlankPage(b, n, copy.leaf)), t, path, level, copy, {n}, lim, h, grown)
    ensures n != Last(path) && n != INVALID_PAGE && n !in b.dirty
  {
    hide BooksOk, Virtual, PathOk;
    HalvingShape(b, t, path, level, copy, lim, h, grown);
    VirtualNew(b, t, Last(path), copy, {}, lim, h, Unsettled(path, grown), n, BlankPage(b, n, copy.leaf));
    assert {} + {n} == {n};
    assert path[|path| - 1] in b.dirty;
  }

  lemma GrownHealth(v: Pages, t: Tree, s: set<PageNo>, n: PageNo, page: Page, pageSize: int, h: Health)
    requires Healthy(v, t, s, pageSize, h) && t.root in t.frames && n !in t.frames && t.root in s
    ensures Healthy(v[n := page], Grown(t, n), s + {n}, pageSize, h)
  {
    hide PageFits;
  }

  ghost predicate Above(t: Tree, p: PageNo, l: PageNo) {
    && p in t.frames && l in t.frames && t.frames[p].level == t.frames[l].level + 1 && Inside(t.frames[l], t.frames[p])
  }

  /** The halves the nodes of copy are shared out to. */
  function SharedBooks(b: Books, l: PageNo, r: PageNo, ns: seq<Node>, si: int): Books
    requires l in b.dirty && b.dirty[l].NodePage? && r in b.dirty && b.dirty[r].NodePage? && 0 <= si <= |ns|
  {
    Edit(Edit(b, l, With(b.dirty[l], ns[..si])), r, With(b.dirty[r], ns[si..]))
  }

  /** After the halves are written, the parent has yet to learn of r. */
  ghost predicate Pending(b: Books, t: Tree, l: PageNo, r: PageNo, key: Key, x: set<PageNo>, lim: Limits, h: Health, s: set<PageNo>) {
    && l in t.frames && PendOk(b, b.View(), t, l, r, key, x, lim)
    && Healthy(b.View(), t.(frames := Divided(t.frames, l, r, key.ord)), s, lim.pageSize, h)
  }

  lemma VirtualShared(b: Books, t: Tree, l: PageNo, copy: Page, x: set<PageNo>, lim: Limits, h: Health, s: set<PageNo>,
                      r: PageNo, si: int)
    requires Virtual(b, t, l, copy, x, lim, h, s) && l != t.root && r in x && r in b.dirty && r != INVALID_PAGE && r != l
    requires Empty(b.dirty[r], copy.leaf) && 0 < si < |copy.nodes|
    ensures b.dirty[l].NodePage? && r !in t.Live() && t.root in t.frames
    ensures var c := SharedBooks(b, l, r, copy.nodes, si);
      && PendOk(c, c.View(), t, l, r, copy.nodes[si].key, x - {r}, lim) && Same(b.View(), c.View(), t.frames.Keys - {l, r})
      && l in c.View() && c.View()[l] == With(b.dirty[l], copy.nodes[..si])
      && r in c.View() && c.View()[r] == With(b.dirty[r], copy.nodes[si..])
  {
    hide BooksOk, TreeOk, LocalsOk, PendTree;
    var v, ns := b.View()[l := copy], copy.nodes;
    var low, high := With(b.dirty[l], ns[..si]), With(b.dirty[r], ns[si..]);
    var c := SharedBooks(b, l, r, ns, si);
    EditKeepsBooks(b, l, low);
    EditKeepsBooks(Edit(b, l, low), r, high);
    assert c.View() == v[l := low][r := high];
    assert With(v[l], ns[..si]) == low && With(v[r], ns[si..]) == high;
    RootIsPage(v, t);
    DivideTxn(b, v, t, x, l, r, si, lim);
    assert Same(b.View(), c.View(), t.frames.Keys - {l, r}) by {
      LiveInView(v, t);
    }
  }

  lemma VirtualDivided(b: Books, t: Tree, l: PageNo, copy: Page, x: set<PageNo>, lim: Limits, h: Health, s: set<PageNo>,
                       r: PageNo, si: int, fits: bool)
    requires Virtual(b, t, l, copy, x, lim, h, s) && l != t.root && r in x && r in b.dirty && r != INVALID_PAGE && r != l
    requires Empty(b.dirty[r], copy.leaf) && b.dirty[r].history == [] && 0 < si < |copy.nodes|
    requires fits ==> RoomFor(copy.nodes[..si], lim.pageSize, |b.dirty[l].history|) && RoomFor(copy.nodes[si..], lim.pageSize, 0)
    requires !copy.leaf ==> 2 <= si <= |copy.nodes| - 2
    ensures Pending(SharedBooks(b, l, r, copy.nodes, si), t, l, r, copy.nodes[si].key, x - {r}, lim,
                    h.(fit := h.fit && fits), s - {l})
  {
    var ns := copy.nodes;
    var low, high := With(b.dirty[l], ns[..si]), With(b.dirty[r], ns[si..]);
    assert PageFull(low) && PageFull(high);
    assert fits ==> PageFits(low, lim.pageSize) && PageFits(high, lim.pageSize) by {
      WithBytes(b.dirty[l], ns[..si]);
      WithBytes(b.dirty[r], ns[si..]);
    }
    VirtualShared(b, t, l, copy, x, lim, h, s, r, si);
    DividedHealth(b.View(), SharedBooks(b, l, r, ns, si).View(), t, l, r, ns[si].key.ord, s, lim.pageSize, h, fits, low, high);
  }

  /** With the nodes shared out, the way down to the parent is as it was. */
  lemma DividedPath(b: Books, t: Tree, path: seq<PageNo>, level: nat, copy: Page, x: set<PageNo>, lim: Limits, h: Health,
                    s: set<PageNo>, r: PageNo, si: nat)
    requires PathOk(t, path, level) && AllDirty(b, path) && |path| > 1 && Virtual(b, t, Last(path), copy, x, lim, h, s)
    requires r in b.dirty && Empty(b.dirty[r], copy.leaf) && 0 < si < |copy.nodes| && r in x
    ensures Sorted(copy.nodes) && Last(path) != t.root && b.dirty[Last(path)].NodePage?
    ensures var c := SharedBooks(b, Last(path), r, copy.nodes, si);
      && PathOk(t, Front(path), level + 1) && AllDirty(c, Front(path)) && Above(t, Last(Front(path)), Last(path))
      && Last(Front(path)) in c.dirty && c.dirty[Last(Front(path))] == b.dirty[Last(Front(path))]
    ensures NodeLocal(false, Node(copy.nodes[si].key, Child(r)), lim)
  {
    var l := Last(path);
    assert PageLocal(copy, lim) && NodeLocal(copy.leaf, copy.nodes[si], lim) by {
      assert b.View()[l := copy][l] == copy;
    }
    LeafSorted(b.View()[l := copy], t, l);
    assert r !in t.frames;
    PathFront(t, path, level);
    assert t.frames[path[0]].level == level + |path| - 1 && t.frames[l].level == level;
    var c := SharedBooks(b, l, r, copy.nodes, si);
    assert Last(Front(path)) == path[|path| - 2];
  }

  lemma SplitDone(b: Books, t: Tree, path: seq<PageNo>, level: nat, copy: Page, lim: Limits, h: Health,
                  grown: bool, r: PageNo, si: nat, fits: bool)
    requires |path| > 1 && Halving(b, t, path, level, copy, {r}, lim, h, grown)
    requires r in b.dirty && r != INVALID_PAGE && r != Last(path) && Empty(b.dirty[r], copy.leaf) && b.dirty[r].history == []
    requires 0 < si < |copy.nodes| && (!copy.leaf ==> 2 <= si <= |copy.nodes| - 2)
    requires Last(path) in b.dirty && b.dirty[Last(path)].NodePage?
    requires fits ==> RoomFor(copy.nodes[..si], lim.pageSize, |b.dirty[Last(path)].history|) && RoomFor(copy.nodes[si..], lim.pageSize, 0)
    ensures Sorted(copy.nodes) && b.dirty[Last(path)].leaf == copy.leaf
    ensures var c := SharedBooks(b, Last(path), r, copy.nodes, si);
      && Linking(c, t, Front(path), level + 1, Last(path), r, copy.nodes[si].key, lim, h.(fit := h.fit && fits), grown)
      && Last(Front(path)) in c.dirty && c.dirty[Last(Front(path))] == b.dirty[Last(Front(path))]
  {
    hide PathOk, Virtual, Pending, AllDirty, NodeLocal, Above;
    var s := Unsettled(path, grown);
    VirtualBooks(b, t, Last(path), copy, {r}, lim, h, s);
    DividedPath(b, t, path, level, copy, {r}, lim, h, s, r, si);
    VirtualDivided(b, t, Last(path), copy, {r}, lim, h, s, r, si, fits);
    assert {r} - {r} == {};
    assert s - {Last(path)} == Untold(Front(path), grown) by {
      PathFront(t, path, level);
    }
  }

  /** Sharing out touches none of the pages above. */
  lemma FrontStays(b: Books, t: Tree, path: seq<PageNo>, level: nat, copy: Page, lim: Limits, h: Health, grown: bool, r: PageNo, si: nat)
    requires |path| > 1 && Halving(b, t, path, level, copy, {r}, lim, h, grown) && 0 <= si <= |copy.nodes|
    requires Last(path) in b.dirty && b.dirty[Last(path)].NodePage? && r in b.dirty && b.dirty[r].NodePage?
    ensures PagesOn(SharedBooks(b, Last(path), r, copy.nodes, si).dirty, Front(path)) == PagesOn(b.dirty, Front(path))
  {
    hide Healthy, BooksOk, TreeOk, LocalsOk;
    assert r !in t.frames;
    assert path[|path| - 1] in t.frames;
    forall j | 0 <= j < |path| - 1 ensures path[j] != Last(path) && path[j] != r {
      assert path[j] in t.frames;
    }
  }

  /** The halves are not on the way to their parent, and each fits exactly when there is room for its nodes. */
  lemma HalvesApart(b: Books, t: Tree, path: seq<PageNo>, level: nat, copy: Page, lim: Limits, h: Health, grown: bool, r: PageNo, si: nat)
    requires |path| > 1 && Halving(b, t, path, level, copy, {r}, lim, h, grown) && 0 <= si <= |copy.nodes|
    requires Last(path) in b.dirty && b.dirty[Last(path)].NodePage? && r in b.dirty && b.dirty[r].NodePage? && b.dirty[r].history == []
    requires r != Last(path)
    ensures var l, d := Last(path), SharedBooks(b, Last(path), r, copy.nodes, si).dirty;
      && l in d && r in d && l in t.frames && l !in Front(path) && r !in Front(path) && OthersStay(b.dirty, t.frames.Keys, d, t.frames, path)
      && (PageFits(d[l], lim.pageSize) && PageFits(d[r], lim.pageSize) <==>
          RoomFor(copy.nodes[..si], lim.pageSize, |b.dirty[l].history|) && RoomFor(copy.nodes[si..], lim.pageSize, 0))
  {
    hide Healthy, BooksOk, TreeOk, LocalsOk, ByteCount;
    assert r !in t.frames;
    assert path[|path| - 1] in t.frames;
    forall j | 0 <= j < |path| - 1 ensures path[j] != Last(path) && path[j] != r {
      assert path[j] in t.frames;
    }
    WithBytes(b.dirty[Last(path)], copy.nodes[..si]);
    WithBytes(b.dirty[r], copy.nodes[si..]);
  }

  lemma LinkingDirty(b: Books, t: Tree, path: seq<PageNo>, level: nat, l: PageNo, r: PageNo, key: Key, lim: Limits, h: Health, grown: bool)
    requires Linking(b, t, path, level, l, r, key, lim, h, grown)
    ensures AllDirty(b, path)
  {
  }

  lemma WithBytes(p: Page, ns: seq<Node>)
    requires p.NodePage?
    ensures SpaceUsed(With(p, ns)) == ByteCount(ns) && With(p, ns).history == p.history && With(p, ns).nodes == ns
    ensures With(p, ns).NodePage? && With(p, ns).leaf == p.leaf
  {
  }

  lemma DividedHealth(v: Pages, w: Pages, t: Tree, l: PageNo, r: PageNo, sk: real, s: set<PageNo>, pageSize: int, h: Health,
                      fits: bool, low: Page, high: Page)
    requires Healthy(v, t, s, pageSize, h) && l in t.frames && l in s && r !in t.frames && l != r && l != t.root && r != t.root
    requires Same(v, w, t.frames.Keys - {l, r}) && l in w && w[l] == low && r in w && w[r] == high
    requires PageFull(low) && PageFull(high)
    requires fits ==> PageFits(low, pageSize) && PageFits(high, pageSize)
    ensures Healthy(w, t.(frames := Divided(t.frames, l, r, sk)), s - {l}, pageSize, h.(fit := h.fit && fits))
  {
    hide PageFits, PageFull;
  }

  // ---- sharing out the nodes -------------------------------------------------------------------------------

  /** insertNode at the end of a page. */
  lemma AppendNode(p: Page, ns: seq<Node>, i: nat, j: nat)
    requires p.NodePage? && Sorted(ns) && i <= j < |ns|
    ensures PageInsert(With(p, ns[i..j]), ns[j]) == With(p, ns[i..j + 1])
  {
    InsertIs(ns[i..j], ns[j], j - i);
    assert ns[i..j][..j - i] + [ns[j]] + ns[i..j][j - i..] == ns[i..j + 1];
    assert ns[i..j + 1][..j - i] == ns[i..j];
  }

  /** The pages after the first `index` nodes are shared out. */
  ghost function Shares(dirty: Pages, l: PageNo, r: PageNo, ns: seq<Node>, si: nat, index: nat): Pages
    requires l in dirty && dirty[l].NodePage? && r in dirty && dirty[r].NodePage? && si <= |ns| && index <= |ns|
  {
    var done := if index < si then index else si;
    dirty[l := With(dirty[l], ns[0..done])][r := With(dirty[r], ns[si..si + index - done])]
  }

  lemma SharesStep(dirty: Pages, l: PageNo, r: PageNo, ns: seq<Node>, si: nat, index: nat)
    requires l in dirty && dirty[l].NodePage? && r in dirty && dirty[r].NodePage? && si <= |ns| && index < |ns|
    requires Sorted(ns) && l != r
    ensures var p, m := if index < si then l else r, Shares(dirty, l, r, ns, si, index);
      && m[p].NodePage? && Shares(dirty, l, r, ns, si, index + 1) == m[p := PageInsert(m[p], ns[index])]
  {
    hide Sorted, PageInsert, UpperBytes;
    AppendNode(if index < si then dirty[l] else dirty[r], ns, if index < si then 0 else si, index);
    assert si + (index + 1 - si) == index + 1;
  }

  lemma SharesEnds(dirty: Pages, l: PageNo, r: PageNo, ns: seq<Node>, si: nat)
    requires l in dirty && dirty[l].NodePage? && r in dirty && Empty(dirty[r], dirty[l].leaf) && si <= |ns| && l != r
    ensures Shares(dirty, l, r, ns, si, 0) == dirty[l := dirty[l].(nodes := [], upper := 0, lower := 0)]
    ensures Shares(dirty, l, r, ns, si, |ns|) == dirty[l := With(dirty[l], ns[..si])][r := With(dirty[r], ns[si..])]
  {
    assert ns[0..0] == ns[si..si] == [] && ns[0..si] == ns[..si] && ns[si..|ns|] == ns[si..];
  }

  // ---- telling the parent ----------------------------------------------------------------------------------

  /** The parent at the end of a path of dirty pages has yet to learn of the right half r of its child l. */
  ghost predicate Linking(b: Books, t: Tree, path: seq<PageNo>, level: nat, l: PageNo, r: PageNo, key: Key, lim: Limits,
                          h: Health, grown: bool) {
    && PathOk(t, path, level) && AllDirty(b, path) && Above(t, Last(path), l) && NodeLocal(false, Node(key, Child(r)), lim)
    && Pending(b, t, l, r, key, {}, lim, h, Untold(path, grown))
  }

  lemma PendingParent(b: Books, t: Tree, l: PageNo, r: PageNo, key: Key, x: set<PageNo>, lim: Limits, h: Health,
                      s: set<PageNo>, p: PageNo) returns (i: nat)
    requires Pending(b, t, l, r, key, x, lim, h, s) && Above(t, p, l)
    ensures ChildAt(b.View(), t.frames, p, i, l) && p != l && p != r
    ensures PageLocal(b.View()[p], lim) && BranchOk(b.View()[p], t.frames[p], t.frames)
    ensures !b.View()[p].leaf && i < |b.View()[p].nodes|
  {
    hide LeavesOk, BooksOk;
    var d := Divided(t.frames, l, r, key.ord);
    i := ParentIndex(b.View(), d, t.frames, p, l);
  }

  lemma LinkVirtual(b: Books, t: Tree, l: PageNo, r: PageNo, key: Key, x: set<PageNo>, lim: Limits, h: Health,
                    s: set<PageNo>, p: PageNo, i: nat)
    requires Pending(b, t, l, r, key, x, lim, h, s) && ChildAt(b.View(), t.frames, p, i, l) && p != l && p != r
    requires p in b.dirty && b.dirty[p].NodePage? && NodeLocal(false, Node(key, Child(r)), lim)
    ensures Virtual(b, t.(frames := Divided(t.frames, l, r, key.ord)), p, PageInsert(b.dirty[p], Node(key, Child(r))),
                    x, lim, h, s + {p})
  {
    hide PendOk, TxnOn, PageFits, PageFull;
    LinkTxn(b, b.View(), t, l, r, key, x, p, i, lim);
    assert b.View()[p] == b.dirty[p];
  }

  lemma LinkRoom(b: Books, t: Tree, l: PageNo, r: PageNo, key: Key, x: set<PageNo>, lim: Limits, h: Health,
                 s: set<PageNo>, p: PageNo, i: nat)
    requires Pending(b, t, l, r, key, x, lim, h, s) && ChildAt(b.View(), t.frames, p, i, l) && p != l && p != r
    requires p in b.dirty && b.dirty[p].NodePage? && NodeLocal(false, Node(key, Child(r)), lim)
    requires SpaceNeeded(key, []) < SpaceLeft(lim.pageSize, b.dirty[p]) && !b.dirty[p].leaf && i < |b.dirty[p].nodes|
    ensures var c := Edit(b, p, PageInsert(b.dirty[p], Node(key, Child(r))));
      var u := t.(frames := Divided(t.frames, l, r, key.ord));
      TxnOk(c, u, x, lim) && Healthy(c.View(), u, s - {p}, lim.pageSize, h)
  {
    hide PendOk, TxnOn, BooksOk, Healthy, Divided, PageInsert, PageFits, PageFull, ChildAt;
    var page := PageInsert(b.dirty[p], Node(key, Child(r)));
    var u := t.(frames := Divided(t.frames, l, r, key.ord));
    PendingBooks(b, t, l, r, key, x, lim, h, s);
    LinkTxn(b, b.View(), t, l, r, key, x, p, i, lim) by {
      assert b.View()[p] == b.dirty[p];
    }
    LinkedFits(b.dirty[p], i, key, r, lim);
    EditTxn(b, p, page, u, x, lim);
    HealthyEdit(b.View(), u, s, u, p, page, lim.pageSize, h);
    HealthyAt(Edit(b, p, page).View(), u, s + {p}, p, lim.pageSize, h);
    assert s + {p} - {p} == s - {p};
  }

  lemma LinkedFits(p: Page, i: nat, key: Key, r: PageNo, lim: Limits)
    requires p.NodePage? && i < |p.nodes| && SpaceNeeded(key, []) < SpaceLeft(lim.pageSize, p)
    requires !p.leaf && PageInsert(p, Node(key, Child(r))).nodes == Linked(p.nodes, i, key, r)
    ensures var page := PageInsert(p, Node(key, Child(r)));
      SameBooks(p, page) && PageFits(page, lim.pageSize) && PageFull(page)
  {
  }

  lemma PendingBooks(b: Books, t: Tree, l: PageNo, r: PageNo, key: Key, x: set<PageNo>, lim: Limits, h: Health, s: set<PageNo>)
    requires Pending(b, t, l, r, key, x, lim, h, s)
    ensures BooksOk(b)
  {
  }

  predicate Uniform(lim: Limits) {
    MIN_UNIFORM <= lim.keySize <= MAX_UNIFORM
  }

  lemma ShortHistory(b: Books, p: PageNo)
    requires BooksOk(b) && p in b.dirty && b.dirty[p].NodePage?
    ensures |b.dirty[p].history| <= 3
  {
    assert IdsOk(b.dirty[p], b.lastSyncedId, b.revision, b.revision + 1, 3);
  }

  lemma BranchIsSorted(p: Page, f: Frame, fr: Frames)
    requires BranchOk(p, f, fr)
    ensures p.NodePage? && !p.leaf && Sorted(p.nodes) && forall j :: 0 <= j < |p.nodes| ==> f.lo <= p.nodes[j].key.ord
  {
    assert forall j :: 0 <= j < |p.nodes| ==> Covers(f, p.nodes[j].key.ord);
  }

  /** A branch without room for one more separator has many children, so that each half keeps at least two. */
  lemma BranchOverfull(p: Page, f: Frame, fr: Frames, i: nat, key: Key, r: PageNo, lim: Limits)
    requires BranchOk(p, f, fr) && PageLocal(p, lim) && i < |p.nodes| && NodeLocal(false, Node(key, Child(r)), lim)
    requires RangesOk(fr) && p.nodes[i].key.ord < key.ord && (i + 1 < |p.nodes| ==> key.ord < p.nodes[i + 1].key.ord)
    requires SpaceNeeded(key, []) >= SpaceLeft(lim.pageSize, p) && lim.pageSize >= MIN_PAGE_SIZE && |p.history| <= 3
    requires f.lo >= 0.0
    ensures var ns := PageInsert(p, Node(key, Child(r))).nodes;
      && |ns| >= 4
      && (BranchFits(p, SeparatorNode(key), lim.pageSize) <==>
          RoomFor(ns[..|ns| / 2], lim.pageSize, |p.history|) && RoomFor(ns[|ns| / 2..], lim.pageSize, 0))
      && (Uniform(lim) && PageFits(p, lim.pageSize) ==> BranchFits(p, SeparatorNode(key), lim.pageSize))
      && ns[|ns| / 2].key == MiddleKey(p, key)
  {
    hide BranchOk, Insert, RangesOk, NodesLocal, Sorted, BranchFits, MiddleKey, Contains;
    var nd := Node(key, Child(r));
    BranchIsSorted(p, f, fr);
    PageInsertLocal(p, nd, lim, i + 1);
    var ns := PageInsert(p, nd).nodes;
    BranchSizes(p, f, fr, lim);
    BytesAtMost(p.nodes, 522);
    assert |p.nodes| >= 4;
    if Uniform(lim) && PageFits(p, lim.pageSize) {
      LinkedSizes(p.nodes, ns, i, nd, 10 + lim.keySize);
      UniformBranchFits(p, nd, ns, lim.pageSize, lim);
    }
    NotThere(p.nodes, key.ord, i);
    BranchHalvesFitIff(p, nd, lim.pageSize, lim);
    AnyChild(p, key, r, lim.pageSize);
  }

  lemma NotThere(ns: seq<Node>, o: real, i: nat)
    requires Sorted(ns) && i < |ns| && ns[i].key.ord < o && (i + 1 < |ns| ==> o < ns[i + 1].key.ord)
    ensures !Contains(ns, o)
  {
    LowerBoundIs(ns, o, i + 1);
  }

  /** The keys of a branch all have the uniform length, except that the first may be empty. */
  lemma BranchSizes(p: Page, f: Frame, fr: Frames, lim: Limits)
    requires BranchOk(p, f, fr) && PageLocal(p, lim) && f.lo >= 0.0
    ensures forall j :: 0 <= j < |p.nodes| ==> p.nodes[j].Size() + INDEX_SIZE <= 522
    ensures Uniform(lim) ==> forall j :: 0 <= j < |p.nodes| ==>
      && p.nodes[j].Size() + INDEX_SIZE <= 10 + lim.keySize
      && (j > 0 ==> p.nodes[j].Size() + INDEX_SIZE == 10 + lim.keySize)
  {
    forall j | 0 <= j < |p.nodes| ensures p.nodes[j].value.Child? && NodeLocal(false, p.nodes[j], lim) && (j > 0 ==> p.nodes[j].key.ord > 0.0) {
      assert LinkOk(p.nodes, j, f, fr) && Covers(f, p.nodes[0].key.ord);
    }
  }

  lemma LinkedSizes(ns: seq<Node>, r: seq<Node>, i: nat, nd: Node, w: int)
    requires i < |ns| && r == ns[..i + 1] + [nd] + ns[i + 1..] && nd.Size() + INDEX_SIZE == w
    requires forall j :: 0 <= j < |ns| ==> ns[j].Size() + INDEX_SIZE <= w && (j > 0 ==> ns[j].Size() + INDEX_SIZE == w)
    ensures forall j :: 0 <= j < |r| ==> r[j].Size() + INDEX_SIZE <= w && (j > 0 ==> r[j].Size() + INDEX_SIZE == w)
  {
    forall j | 0 <= j < |r| && j != i + 1 ensures r[j] == ns[if j <= i then j else j - 1] {
    }
  }

  /** A branch that is to be split stands for its nodes with the separator of l and r. */
  lemma BranchSplits(b: Books, t: Tree, path: seq<PageNo>, level: nat, l: PageNo, r: PageNo, key: Key, lim: Limits, h: Health, i: nat)
    requires |path| > 0 && Linking(b, t, path, level, l, r, key, lim, h, false) && ChildAt(b.View(), t.frames, Last(path), i, l)
    requires Last(path) in b.dirty && b.dirty[Last(path)].NodePage? && lim.pageSize >= MIN_PAGE_SIZE
    requires SpaceNeeded(key, []) >= SpaceLeft(lim.pageSize, b.dirty[Last(path)])
    ensures l in t.frames
    ensures var u, p := t.(frames := Divided(t.frames, l, r, key.ord)), b.dirty[Last(path)];
      var copy := PageInsert(p, Node(key, Child(r)));
      && Halving(b, u, path, level, copy, {}, lim, h, false)
      && copy.NodePage? && !copy.leaf && |copy.nodes| >= 4
      && (BranchFits(p, SeparatorNode(key), lim.pageSize) <==>
          RoomFor(copy.nodes[..|copy.nodes| / 2], lim.pageSize, |p.history|)
          && RoomFor(copy.nodes[|copy.nodes| / 2..], lim.pageSize, 0))
      && (Uniform(lim) && h.fit ==> BranchFits(p, SeparatorNode(key), lim.pageSize))
      && copy.nodes[|copy.nodes| / 2].key == MiddleKey(p, key)
  {
    hide Pending, PathOk, Virtual, PageInsert, NodeLocal, BranchOk, PageLocal, RangesOk, RoomFor, ChildAt, Above, PageFits, BranchFits, MiddleKey;
    var p := Last(path);
    ParentFacts(b, t, path, level, l, r, key, lim, h, p, i);
    LinkVirtual(b, t, l, r, key, {}, lim, h, {}, p, i);
    BranchOverfull(b.dirty[p], t.frames[p], t.frames, i, key, r, lim);
    PageInsertPage(b.dirty[p], Node(key, Child(r)));
    assert {} + {p} == Unsettled(path, false);
  }

  lemma ParentFacts(b: Books, t: Tree, path: seq<PageNo>, level: nat, l: PageNo, r: PageNo, key: Key, lim: Limits, h: Health,
                    p: PageNo, i: nat)
    requires PathOk(t, path, level) && p == Last(path) && Above(t, p, l) && p in b.dirty && b.dirty[p].NodePage?
    requires Pending(b, t, l, r, key, {}, lim, h, {}) && ChildAt(b.View(), t.frames, p, i, l)
    ensures p in t.frames && l in t.frames && p != l && p != r && i < |b.dirty[p].nodes| && !b.dirty[p].leaf
    ensures BranchOk(b.dirty[p], t.frames[p], t.frames) && PageLocal(b.dirty[p], lim) && RangesOk(t.frames)
    ensures b.dirty[p].nodes[i].key.ord < key.ord && (i + 1 < |b.dirty[p].nodes| ==> key.ord < b.dirty[p].nodes[i + 1].key.ord)
    ensures t.frames[p].lo >= 0.0 && |b.dirty[p].history| <= 3 && (h.fit ==> PageFits(b.dirty[p], lim.pageSize))
    ensures PathOk(t.(frames := Divided(t.frames, l, r, key.ord)), path, level)
  {
    hide BooksOk, PathOk, LeavesOk, BranchesOk, PageLocal, PageFits, PageFull;
    assert b.View()[p] == b.dirty[p];
    PendingBooks(b, t, l, r, key, {}, lim, h, {});
    ShortHistory(b, p);
    var j := PendingParent(b, t, l, r, key, {}, lim, h, {}, p);
    assert LinkOk(b.View()[p].nodes, i, t.frames[p], t.frames);
    PathDivided(t, path, level, l, r, key.ord) by {
      PathLast(t, path, level);
    }
  }

  lemma PathLast(t: Tree, path: seq<PageNo>, level: nat)
    requires PathOk(t, path, level)
    ensures |path| > 0 && Last(path) in t.frames && t.frames[Last(path)].level == level
  {
    assert path[|path| - 1] in t.frames;
  }
}

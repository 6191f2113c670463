// Entries enter and leave the leaf at the end of a path of dirty pages.
module LeafUpdates {
  import opened HBtreeRecords
  import opened OrderedNodes
  import opened TreeInvariant
  import opened TreeSteps
  import opened PageAccounts
  import opened Transaction
  import opened SplitArithmetic
  import opened Descent
  import opened SplitPaths
  import opened OverflowChains
  import opened Splitting

  lemma LeafOpens(b: Books, t: Tree, path: seq<PageNo>, o: real, lim: Limits, h: Health)
    requires DownTo(b, t, path, 0, o, lim, h)
    ensures OpenTo(b, t, path, 0, {}, o, lim, h)
  {
    hide TxnOk, PageFits, PageFull;
    assert path[|path| - 1] in t.frames && b.View()[Last(path)] == b.dirty[Last(path)];
  }

  lemma OpenLeaf(b: Books, t: Tree, path: seq<PageNo>, x: set<PageNo>, o: real, lim: Limits, h: Health)
    requires OpenTo(b, t, path, 0, x, o, lim, h)
    ensures |path| > 0 && Last(path) in t.frames && t.frames[Last(path)].level == 0 && Covers(t.frames[Last(path)], o)
    ensures Last(path) in b.dirty && b.dirty[Last(path)].NodePage? && b.dirty[Last(path)].leaf
    ensures b.View()[Last(path)] == b.dirty[Last(path)] && BooksOk(b) && TreeOk(b.View(), t)
    ensures PageLocal(b.dirty[Last(path)], lim) && Sorted(b.dirty[Last(path)].nodes)
  {
    hide BooksOk, Healthy, LeafOk;
    assert path[|path| - 1] in t.frames && path[|path| - 1] in b.dirty;
    LeafSorted(b.View(), t, Last(path));
    LiveInView(b.View(), t);
  }

  /** The first page of a tree is an empty leaf. */
  lemma FirstLeaf(b: Books, t: Tree, n: PageNo, o: real, lim: Limits, h: Health)
    requires TxnOk(b, t, {}, lim) && t.root == INVALID_PAGE && MayTake(b, n) && lim.pageSize >= MIN_PAGE_SIZE && 0.0 <= o < TOP
    ensures t.entries == map[] && n != INVALID_PAGE
    ensures OpenTo(NewPage(b, n, BlankPage(b, n, true)), t.(root := n, frames := map[n := Frame(0.0, TOP, 0)]), [n], 0, {}, o, lim, h)
  {
    hide BooksOk, PageLocal, ChainsOk;
    var c, u := NewPage(b, n, BlankPage(b, n, true)), t.(root := n, frames := map[n := Frame(0.0, TOP, 0)]);
    NewPageTxn(b, t, {}, n, BlankPage(b, n, true), lim);
    assert {} + {n} == {n} && {n} - {n} == {};
    FirstRootTxn(c, t, {n}, n, lim);
  }

  /** What the search found: the entry is there exactly when its leaf contains it. */
  lemma LeafContains(b: Books, t: Tree, path: seq<PageNo>, o: real, lim: Limits, h: Health)
    requires DownTo(b, t, path, 0, o, lim, h)
    ensures |path| > 0 && Last(path) in b.dirty && b.dirty[Last(path)].NodePage? && b.dirty[Last(path)].leaf
    ensures o in t.entries <==> Contains(b.dirty[Last(path)].nodes, o)
    ensures OpenTo(b, t, path, 0, {}, o, lim, h)
  {
    hide TxnOk, Healthy, PathOk, TreeOk, ChainsOk, BooksOk, PageLocal, Sorted, AllDirty, Contains;
    LeafOpens(b, t, path, o, lim, h);
    OpenLeaf(b, t, path, {}, o, lim, h);
    LeafLookup(b.View(), t, Last(path), o);
  }

  lemma EmptyTree(b: Books, t: Tree, lim: Limits)
    requires TxnOk(b, t, {}, lim) && t.root == INVALID_PAGE
    ensures t.entries == map[]
  {
  }

  lemma DownToTxn(b: Books, t: Tree, path: seq<PageNo>, level: nat, o: real, lim: Limits, h: Health)
    requires DownTo(b, t, path, level, o, lim, h)
    ensures TxnOk(b, t, {}, lim) && Healthy(b.View(), t, {}, lim.pageSize, h)
  {
  }

  /** The node of an entry, in the leaf at the end of the path. */
  lemma FindEntry(b: Books, t: Tree, path: seq<PageNo>, o: real, lim: Limits, h: Health) returns (i: nat)
    requires DownTo(b, t, path, 0, o, lim, h) && o in t.entries
    ensures OpenTo(b, t, path, 0, {}, o, lim, h) && Healthy(b.View(), t, {}, lim.pageSize, h)
    ensures |path| > 0 && Last(path) in b.dirty && b.dirty[Last(path)].NodePage? && b.dirty[Last(path)].leaf
    ensures ChainsOk(b.View(), t.chains)
    ensures i < |b.dirty[Last(path)].nodes| && i == LowerBound(b.dirty[Last(path)].nodes, o)
    ensures b.dirty[Last(path)].nodes[i].key.ord == o
    ensures var val := b.dirty[Last(path)].nodes[i].value; val.Overflow? ==> val.first in t.chains && t.chains[val.first] == Chain(o, t.entries[o])
  {
    hide TxnOk, Healthy, PathOk, TreeOk, ChainsOk, BooksOk, PageLocal, Sorted, AllDirty;
    LeafOpens(b, t, path, o, lim, h);
    OpenLeaf(b, t, path, {}, o, lim, h);
    LeafLookup(b.View(), t, Last(path), o);
    i := LowerBound(b.dirty[Last(path)].nodes, o);
  }

  /** The overflow pages s are those of the entry at o, which is on page p: the whole chain of its value, or none. */
  ghost predicate PagesOfValue(v: Pages, t: Tree, p: PageNo, o: real, s: set<PageNo>) {
    && p in v && v[p].NodePage? && ChainsOk(v, t.chains) && o in t.entries
    && LowerBound(v[p].nodes, o) < |v[p].nodes| && v[p].nodes[LowerBound(v[p].nodes, o)].key.ord == o
    && match v[p].nodes[LowerBound(v[p].nodes, o)].value
       case Overflow(first) => first in t.chains && t.chains[first] == Chain(o, t.entries[o]) && s == PagesFrom(v, t.chains, first)
       case _ => s == {}
  }

  /** removeNode without the rest of del: the entry leaves its leaf. */
  lemma EntryLeaves(b: Books, t: Tree, path: seq<PageNo>, i: nat, s: set<PageNo>, lim: Limits, h: Health)
    requires |path| > 0 && Last(path) in b.dirty && b.dirty[Last(path)].NodePage? && i < |b.dirty[Last(path)].nodes|
    requires OpenTo(b, t, path, 0, {}, b.dirty[Last(path)].nodes[i].key.ord, lim, h)
    requires Healthy(b.View(), t, {}, lim.pageSize, h)
    requires forall c :: c in s ==> c in t.chains && t.chains[c].owner == b.dirty[Last(path)].nodes[i].key.ord
    ensures var o := b.dirty[Last(path)].nodes[i].key.ord;
      var c := Edit(FreeOverflow(b, s), Last(path), PageRemove(b.dirty[Last(path)], o));
      OpenTo(c, t.(entries := t.entries - {o}, chains := Without(t.chains, o)), path, 0, {}, o, lim, h)
  {
    hide TxnOk, Healthy, PathOk, PageRemove, PageLocal;
    var p, o := Last(path), b.dirty[Last(path)].nodes[i].key.ord;
    OpenLeaf(b, t, path, {}, o, lim, h);
    RemoveEntryTxn(b, t, {}, p, i, s, lim, h);
    PageRemoveLocal(b.dirty[p], lim, i);
    PageRemovePage(b.dirty[p], o);
    PathSame(t, t.(entries := t.entries - {o}, chains := Without(t.chains, o)), path, 0);
  }

  lemma PageRemovePage(p: Page, o: real)
    requires p.NodePage?
    ensures PageRemove(p, o).NodePage? && PageRemove(p, o).history == p.history && PageRemove(p, o).leaf == p.leaf
    ensures PageRemove(p, o).nodes == Remove(p.nodes, o)
  {
  }

  lemma PathSame(t: Tree, u: Tree, path: seq<PageNo>, level: nat)
    requires PathOk(t, path, level) && u.frames == t.frames && u.root == t.root
    ensures PathOk(u, path, level)
  {
  }

  /** New overflow pages leave the path as it is. */
  lemma OpenKept(b: Books, c: Books, t: Tree, path: seq<PageNo>, x: set<PageNo>, y: set<PageNo>, o: real, lim: Limits, h: Health)
    requires OpenTo(b, t, path, 0, x, o, lim, h) && TxnOk(c, t, y, lim) && Healthy(c.View(), t, {Last(path)}, lim.pageSize, h)
    requires forall p :: p in b.dirty ==> p in c.dirty && c.dirty[p] == b.dirty[p]
    ensures OpenTo(c, t, path, 0, y, o, lim, h)
  {
    hide TxnOk, Healthy;
    forall j | 0 <= j < |path| ensures path[j] in c.dirty && c.dirty[path[j]].NodePage? {
      var p := path[j];
      assert p in b.dirty;
      assert p in c.dirty;
    }
    assert path[|path| - 1] in b.dirty;
  }

  /** The entry for nd that is about to be put into the leaf. */
  ghost predicate Enters(b: Books, t: Tree, x: set<PageNo>, nd: Node, data: Bytes, added: Chains, lim: Limits) {
    && UserKey(nd.key) && nd.key.ord !in t.entries && NodeLocal(true, nd, lim)
    && AddedChains(b.View(), t, x, added, nd.key.ord)
    && Holds(nd, t.entries[nd.key.ord := data], t.chains + added)
  }

  ghost function WithEntry(t: Tree, o: real, data: Bytes, added: Chains): Tree {
    t.(entries := t.entries[o := data], chains := t.chains + added)
  }

  lemma EntryFits(b: Books, t: Tree, path: seq<PageNo>, x: set<PageNo>, nd: Node, data: Bytes, added: Chains, lim: Limits, h: Health)
    requires OpenTo(b, t, path, 0, x, nd.key.ord, lim, h) && Enters(b, t, x, nd, data, added, lim) && x == added.Keys
    requires Last(path) in b.dirty && b.dirty[Last(path)].NodePage?
    requires SpaceNeededFor(nd) <= SpaceLeft(lim.pageSize, b.dirty[Last(path)])
    ensures var c := Edit(b, Last(path), PageInsert(b.dirty[Last(path)], nd));
      var u := WithEntry(t, nd.key.ord, data, added);
      TxnOk(c, u, {}, lim) && Healthy(c.View(), u, {}, lim.pageSize, h)
  {
    hide TxnOn, BooksOk, Healthy, Holds, AddedChains, NodeLocal, TreeOk, PageLocal, Sorted, PageInsert, PageFits, PageFull;
    var p := Last(path);
    var page := PageInsert(b.dirty[p], nd);
    var u := WithEntry(t, nd.key.ord, data, added);
    OpenLeaf(b, t, path, x, nd.key.ord, lim, h);
    InsertEntryTxn(b, t, x, p, nd, data, added, lim);
    InsertFits(b, t, path, x, nd, lim, h);
    assert x - added.Keys == {};
    EditTxn(b, p, page, u, {}, lim);
    HealthyEdit(b.View(), t, {p}, u, p, page, lim.pageSize, h);
    HealthyAt(Edit(b, p, page).View(), u, {p} + {p}, p, lim.pageSize, h);
    assert {p} + {p} - {p} == {};
  }

  lemma InsertFits(b: Books, t: Tree, path: seq<PageNo>, x: set<PageNo>, nd: Node, lim: Limits, h: Health)
    requires OpenTo(b, t, path, 0, x, nd.key.ord, lim, h)
    requires Last(path) in b.dirty && b.dirty[Last(path)].NodePage?
    requires SpaceNeededFor(nd) <= SpaceLeft(lim.pageSize, b.dirty[Last(path)]) && NodeLocal(true, nd, lim)
    ensures var page := PageInsert(b.dirty[Last(path)], nd);
      SameBooks(b.dirty[Last(path)], page) && PageFits(page, lim.pageSize) && PageFull(page)
  {
    hide TxnOk, Healthy, PathOk;
    OpenLeaf(b, t, path, x, nd.key.ord, lim, h);
  }

  lemma OpenHalving(b: Books, t: Tree, path: seq<PageNo>, o: real, lim: Limits, h: Health)
    requires OpenTo(b, t, path, 0, {}, o, lim, h)
    ensures |path| > 0 && Last(path) in b.dirty && b.dirty[Last(path)].NodePage?
    ensures Last(path) in t.frames && Covers(t.frames[Last(path)], o)
    ensures Halving(b, t, path, 0, b.dirty[Last(path)], {}, lim, h, false) && AllDirty(b, path)
  {
    hide BooksOk, Healthy, TreeOk, PathOk, PageLocal;
    OpenLeaf(b, t, path, {}, o, lim, h);
    assert b.View()[Last(path) := b.dirty[Last(path)]] == b.View();
    assert Unsettled(path, false) == {Last(path)};
  }

  lemma HalvingOpen(b: Books, t: Tree, path: seq<PageNo>, x: set<PageNo>, lim: Limits, h: Health, grown: bool)
    requires |path| > 0 && Last(path) in b.dirty && Halving(b, t, path, 0, b.dirty[Last(path)], x, lim, h, grown)
    ensures TxnOk(b, t, x, lim) && Healthy(b.View(), t, Unsettled(path, grown), lim.pageSize, h)
  {
    hide BooksOk, Healthy, TreeOk, PathOk, Unsettled, LocalsOk;
    assert b.View()[Last(path) := b.dirty[Last(path)]] == b.View();
  }

  /** The leaf with the new entry is to be split. */
  lemma LeafHalving(b: Books, t: Tree, path: seq<PageNo>, x: set<PageNo>, nd: Node, data: Bytes, added: Chains, lim: Limits,
                    h: Health, grown: bool)
    requires PathOk(t, path, 0) && AllDirty(b, path) && Covers(t.frames[Last(path)], nd.key.ord)
    requires TxnOk(b, t, x, lim) && Healthy(b.View(), t, Unsettled(path, grown), lim.pageSize, h)
    requires Enters(b, t, x, nd, data, added, lim)
    ensures Last(path) in b.dirty && b.dirty[Last(path)].NodePage?
    ensures Halving(b, WithEntry(t, nd.key.ord, data, added), path, 0, PageInsert(b.dirty[Last(path)], nd), x - added.Keys,
                    lim, h, grown)
  {
    hide BooksOk, Holds, AddedChains, NodeLocal, TreeOk, PageLocal, Sorted, PageInsert, PageFits, PageFull, LocalsOk;
    var p := Last(path);
    assert path[|path| - 1] in t.frames && path[|path| - 1] in b.dirty && b.View()[p] == b.dirty[p];
    LiveInView(b.View(), t);
    InsertEntryTxn(b, t, x, p, nd, data, added, lim);
    PageInsertBooks(b.dirty[p], nd);
    PathSame(t, WithEntry(t, nd.key.ord, data, added), path, 0);
    assert p in Unsettled(path, grown);
  }

  lemma LeafToSplit(b: Books, c: Books, t: Tree, path: seq<PageNo>, x: set<PageNo>, y: set<PageNo>, nd: Node, data: Bytes,
                    added: Chains, lim: Limits, h: Health, grown: bool)
    requires |path| > 0 && Last(path) in b.dirty && Halving(b, t, path, 0, b.dirty[Last(path)], x, lim, h, grown)
    requires forall p :: p in b.dirty ==> p in c.dirty && c.dirty[p] == b.dirty[p]
    requires TxnOk(c, t, y, lim) && Healthy(c.View(), t, Unsettled(path, grown), lim.pageSize, h)
    requires Last(path) in t.frames && Covers(t.frames[Last(path)], nd.key.ord) && Enters(c, t, y, nd, data, added, lim)
    ensures Last(path) in c.dirty && c.dirty[Last(path)].NodePage? && c.dirty[Last(path)].leaf
    ensures Halving(c, WithEntry(t, nd.key.ord, data, added), path, 0, PageInsert(c.dirty[Last(path)], nd), y - added.Keys,
                    lim, h, grown)
  {
    hide TxnOk, Healthy, PathOk, Virtual, Enters;
    forall j | 0 <= j < |path| ensures path[j] in c.dirty && c.dirty[path[j]].NodePage? {
      var p := path[j];
      assert p in b.dirty;
      assert p in c.dirty;
    }
    LeafIsDirty(c, t, path, y, lim);
    LeafHalving(c, t, path, y, nd, data, added, lim, h, grown);
  }

  lemma LeafIsDirty(b: Books, t: Tree, path: seq<PageNo>, x: set<PageNo>, lim: Limits)
    requires PathOk(t, path, 0) && AllDirty(b, path) && TxnOk(b, t, x, lim)
    ensures |path| > 0 && Last(path) in b.dirty && b.dirty[Last(path)].NodePage? && b.dirty[Last(path)].leaf
  {
    hide BooksOk, TreeOk, LocalsOk;
    LiveInView(b.View(), t);
    assert path[|path| - 1] in t.frames && path[|path| - 1] in b.dirty && b.View()[Last(path)] == b.dirty[Last(path)];
  }

  lemma PageInsertBooks(p: Page, nd: Node)
    requires p.NodePage?
    ensures SameBooks(p, PageInsert(p, nd)) && PageInsert(p, nd).leaf == p.leaf
  {
  }

  /** Where an overfull leaf is cut, and that both halves fit when all keys have one length, or the page tells so. */
  lemma LeafCut(b: Books, t: Tree, path: seq<PageNo>, o: real, nd: Node, lim: Limits, h: Health)
    requires OpenTo(b, t, path, 0, {}, o, lim, h) && o == nd.key.ord && o !in t.entries && NodeLocal(true, nd, lim)
    requires Last(path) in b.dirty && b.dirty[Last(path)].NodePage? && lim.pageSize >= MIN_PAGE_SIZE
    requires SpaceNeededFor(nd) > SpaceLeft(lim.pageSize, b.dirty[Last(path)])
    ensures var p := b.dirty[Last(path)];
      var ns := PageInsert(p, nd).nodes;
      var si := Cut(ns, Threshold(lim.pageSize, p));
      && 0 < si < |ns|
      && (SplitFits(p, nd, lim.pageSize) <==> RoomFor(ns[..si], lim.pageSize, |p.history|) && RoomFor(ns[si..], lim.pageSize, 0))
      && (Uniform(lim) && h.fit ==> SplitFits(p, nd, lim.pageSize))
  {
    hide BooksOk, TxnOk, Healthy, PathOk, Sorted, Contains, PageLocal, NodeLocal, RoomFor, Cut, TreeOk, Overfull, SplitFits;
    OpenLeaf(b, t, path, {}, o, lim, h);
    var p := b.dirty[Last(path)];
    ShortHistory(b, Last(path));
    LeafLookup(b.View(), t, Last(path), o);
    var ns := PageInsert(p, nd).nodes;
    LeafOverfull(p, nd, lim);
    CutInside(p, nd, ns, lim.pageSize, lim);
    if Uniform(lim) && h.fit {
      UniformHalvesFit(p, nd, ns, lim.pageSize, lim);
    }
    LeafIsSorted(b.View(), t, Last(path));
    HalvesFitIff(p, nd, lim.pageSize, lim);
  }

  /** And what it says of the branches above. */
  lemma LeafDecidesCut(b: Books, t: Tree, path: seq<PageNo>, nd: Node, key: Key, value: Bytes, lim: Limits, h: Health)
    requires OpenTo(b, t, path, 0, {}, key.ord, lim, h) && key.ord !in t.entries && NodeLocal(true, nd, lim) && nd.key == key
    requires Last(path) in b.dirty && b.dirty[Last(path)].NodePage? && lim.pageSize >= MIN_PAGE_SIZE
    requires SpaceNeededFor(nd) == SpaceNeeded(key, value) && SpaceNeededFor(nd) > SpaceLeft(lim.pageSize, b.dirty[Last(path)])
    ensures var p := b.dirty[Last(path)];
      var ns := PageInsert(p, nd).nodes;
      var si := Cut(ns, Threshold(lim.pageSize, p));
      && 0 < si < |ns|
      && (WayTakes(PagesOn(b.dirty, path), key, value, lim.pageSize) <==>
          RoomFor(ns[..si], lim.pageSize, |p.history|) && RoomFor(ns[si..], lim.pageSize, 0)
          && TakesKey(PagesOn(b.dirty, Front(path)), ns[si].key, lim.pageSize))
      && (Uniform(lim) && h.fit ==> RoomFor(ns[..si], lim.pageSize, |p.history|) && RoomFor(ns[si..], lim.pageSize, 0))
  {
    hide TxnOk, Healthy, RoomFor, Cut, SplitFits, WayTakes, TakesKey, PagesOn, AllDirty, NodeLocal;
    LeafCut(b, t, path, key.ord, nd, lim, h);
    LeafDecides(b.dirty, path, nd, key, value, lim);
  }

  lemma LeafIsSorted(v: Pages, t: Tree, p: PageNo)
    requires TreeOk(v, t) && p in t.frames && t.frames[p].level == 0
    ensures p in v && v[p].NodePage? && Sorted(v[p].nodes)
  {
    assert LeafOk(v[p], t.frames[p], t.entries, t.chains);
  }

  lemma LeafOverfull(p: Page, nd: Node, lim: Limits)
    requires PageLocal(p, lim) && p.leaf && Sorted(p.nodes) && !Contains(p.nodes, nd.key.ord) && |p.history| <= 3
    requires NodeLocal(true, nd, lim) && SpaceNeededFor(nd) > SpaceLeft(lim.pageSize, p) && lim.pageSize >= MIN_PAGE_SIZE
    ensures Overfull(p, nd, PageInsert(p, nd).nodes, lim.pageSize, lim)
  {
    hide Sorted, Contains, NodesLocal, NodeLocal, Insert, UpperBytes;
    PageInsertNew(p, nd, lim);
    InsertShifts(p.nodes, nd);
  }

  /** A leaf answers for the keys of its interval. */
  lemma LeafLookup(v: Pages, t: Tree, p: PageNo, o: real)
    requires TreeOk(v, t) && p in t.frames && t.frames[p].level == 0 && Covers(t.frames[p], o)
    ensures p in v && v[p].NodePage? && v[p].leaf && ChainsOk(v, t.chains)
    ensures o in t.entries <==> Contains(v[p].nodes, o)
    ensures Contains(v[p].nodes, o) ==> Holds(v[p].nodes[LowerBound(v[p].nodes, o)], t.entries, t.chains)
  {
    assert LeafOk(v[p], t.frames[p], t.entries, t.chains);
    var i := LowerBound(v[p].nodes, o);
    if o in t.entries {
      var k :| 0 <= k < |v[p].nodes| && v[p].nodes[k].key.ord == o;
      LowerBoundIs(v[p].nodes, o, k);
    }
  }
}

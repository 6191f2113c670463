// A write transaction: sound books and a sound tree over the pages as the transaction sees them.
module Transaction {
  import opened HBtreeRecords
  import opened OrderedNodes
  import opened TreeInvariant
  import opened TreeSteps
  import opened PageAccounts

  /** The page size, when positive the length all keys of the tree have, and the place the compare function gives the
      bytes of a key. */
  datatype TreeLimits = Limits(pageSize: int, keySize: nat, place: Bytes -> real)

  /** The empty key is the least. */
  type Limits = lim: TreeLimits | lim.place([]) == 0.0 witness Limits(MIN_PAGE_SIZE, 0, Rank)

  ghost predicate NodeLocal(leaf: bool, nd: Node, lim: Limits) {
    && |nd.key.data| <= MAX_KEY_SIZE && nd.value.InlineSize() <= OVERFLOW_THRESHOLD && nd.key.ord == lim.place(nd.key.data)
    && (lim.keySize > 0 ==> |nd.key.data| == lim.keySize || (!leaf && nd.key == EMPTY_KEY))
  }

  ghost predicate NodesLocal(leaf: bool, ns: seq<Node>, lim: Limits) {
    forall i :: 0 <= i < |ns| ==> NodeLocal(leaf, ns[i], lim)
  }

  /** upperOffset and lowerOffset of a page are the byte sums of its nodes and of its index. */
  ghost predicate PageLocal(p: Page, lim: Limits) {
    && p.NodePage? && p.upper == UpperBytes(p.nodes) && p.lower == INDEX_SIZE * |p.nodes|
    && NodesLocal(p.leaf, p.nodes, lim)
  }

  ghost predicate LocalsOk(v: Pages, fr: Frames, lim: Limits) {
    forall p :: p in fr ==> p in v && PageLocal(v[p], lim)
  }

  ghost predicate PageFits(p: Page, pageSize: int) {
    p.NodePage? && SpaceUsed(p) <= Capacity(pageSize, p)
  }

  /** Every node page can be written to its page of the file, except perhaps those in s. */
  ghost predicate FitBut(v: Pages, fr: Frames, pageSize: int, s: set<PageNo>) {
    forall p :: p in fr && p !in s ==> p in v && PageFits(v[p], pageSize)
  }

  ghost predicate AllFit(v: Pages, fr: Frames, pageSize: int) {
    FitBut(v, fr, pageSize, {})
  }

  ghost predicate PageFull(p: Page) {
    p.NodePage? && |p.nodes| >= if p.leaf then 1 else 2
  }

  /** Branches have at least two children and leaves are not empty, except perhaps those in s. */
  ghost predicate FullBut(v: Pages, t: Tree, s: set<PageNo>) {
    forall p :: p in t.frames && p !in s ==> p in v && PageFull(v[p])
  }

  ghost predicate AllFull(v: Pages, t: Tree) {
    FullBut(v, t, {})
  }

  /** What is known of the sizes: every page fits, every page is full enough. */
  datatype Health = Health(fit: bool, full: bool)

  ghost predicate Healthy(v: Pages, t: Tree, s: set<PageNo>, pageSize: int, h: Health) {
    (h.fit ==> FitBut(v, t.frames, pageSize, s)) && (h.full ==> FullBut(v, t, s))
  }

  /** The pages v hold the tree t, on pages the books call live; x are live pages not linked to the tree yet. */
  ghost predicate TxnOn(b: Books, v: Pages, t: Tree, x: set<PageNo>, lim: Limits) {
    && BooksOk(b) && TreeOk(v, t) && t.Live() !! x && t.Live() + x <= b.work.live && LocalsOk(v, t.frames, lim)
  }

  ghost predicate TxnOk(b: Books, t: Tree, x: set<PageNo>, lim: Limits) {
    TxnOn(b, b.View(), t, x, lim)
  }

  lemma TxnBooks(b: Books, t: Tree, x: set<PageNo>, lim: Limits)
    requires TxnOk(b, t, x, lim)
    ensures BooksOk(b) && TreeOk(b.View(), t)
  {
  }

  function PageInsert(p: Page, nd: Node): Page
    requires p.NodePage?
  {
    p.(nodes := Insert(p.nodes, nd), upper := p.upper + nd.Size(), lower := p.lower + INDEX_SIZE)
  }

  /** The size taken off is that of the node found; nothing happens when the key is not there. */
  function PageRemove(p: Page, o: real): Page
    requires p.NodePage?
  {
    if Contains(p.nodes, o) then
      p.(nodes := Remove(p.nodes, o), upper := p.upper - p.nodes[LowerBound(p.nodes, o)].Size(), lower := p.lower - INDEX_SIZE)
    else p
  }

  lemma NodesLocalInsert(leaf: bool, ns: seq<Node>, nd: Node, lim: Limits, i: nat)
    requires NodesLocal(leaf, ns, lim) && NodeLocal(leaf, nd, lim) && i <= |ns|
    ensures NodesLocal(leaf, ns[..i] + [nd] + ns[i..], lim)
  {
    hide NodeLocal;
  }

  lemma PageInsertNew(p: Page, nd: Node, lim: Limits)
    requires PageLocal(p, lim) && NodeLocal(p.leaf, nd, lim) && Sorted(p.nodes) && !Contains(p.nodes, nd.key.ord)
    ensures PageLocal(PageInsert(p, nd), lim)
  {
    PageInsertLocal(p, nd, lim, LowerBound(p.nodes, nd.key.ord));
  }

  lemma NodesLocalRemove(leaf: bool, ns: seq<Node>, lim: Limits, i: nat)
    requires NodesLocal(leaf, ns, lim) && i < |ns|
    ensures NodesLocal(leaf, ns[..i] + ns[i + 1..], lim)
  {
    hide NodeLocal;
  }

  lemma PageInsertLocal(p: Page, nd: Node, lim: Limits, i: nat)
    requires PageLocal(p, lim) && NodeLocal(p.leaf, nd, lim) && Sorted(p.nodes) && i <= |p.nodes|
    requires i > 0 ==> p.nodes[i - 1].key.ord < nd.key.ord
    requires i < |p.nodes| ==> nd.key.ord < p.nodes[i].key.ord
    ensures PageInsert(p, nd).nodes == p.nodes[..i] + [nd] + p.nodes[i..]
    ensures PageLocal(PageInsert(p, nd), lim)
  {
    hide NodesLocal, NodeLocal, Sorted, Insert, UpperBytes;
    InsertIs(p.nodes, nd, i);
    UpperBytesInsert(p.nodes, nd, i);
    NodesLocalInsert(p.leaf, p.nodes, nd, lim, i);
  }

  lemma PageRemoveLocal(p: Page, lim: Limits, i: nat)
    requires PageLocal(p, lim) && Sorted(p.nodes) && i < |p.nodes|
    ensures PageRemove(p, p.nodes[i].key.ord).nodes == p.nodes[..i] + p.nodes[i + 1..]
    ensures PageLocal(PageRemove(p, p.nodes[i].key.ord), lim)
    ensures SpaceUsed(PageRemove(p, p.nodes[i].key.ord)) == SpaceUsed(p) - p.nodes[i].Size() - INDEX_SIZE
  {
    hide NodesLocal, NodeLocal;
    LowerBoundIs(p.nodes, p.nodes[i].key.ord, i);
    RemoveIs(p.nodes, i);
    UpperBytesRemove(p.nodes, i);
    NodesLocalRemove(p.leaf, p.nodes, lim, i);
  }

  lemma LiveInView(v: Pages, t: Tree)
    requires TreeOk(v, t)
    ensures t.Live() <= v.Keys && INVALID_PAGE !in t.Live() && t.frames.Keys !! t.chains.Keys
    ensures forall p :: p in t.frames ==> v[p].NodePage? && (v[p].leaf <==> t.frames[p].level == 0)
    ensures forall p :: p in t.chains ==> v[p].OverflowPage?
  {
    forall p | p in t.frames ensures p in v && v[p].NodePage? && (v[p].leaf <==> t.frames[p].level == 0) {
      assert t.frames[p].level == 0 ==> LeafOk(v[p], t.frames[p], t.entries, t.chains);
    }
    forall p | p in t.chains ensures p in v && v[p].OverflowPage? {
      assert ChainOk(v[p], t.chains[p], t.chains);
    }
  }

  /** Pages of the tree that are the same page by page. */
  ghost predicate Same(v: Pages, w: Pages, s: set<PageNo>) {
    forall p :: p in s ==> p in v && p in w && w[p] == v[p]
  }

  lemma SameTxn(b: Books, c: Books, t: Tree, x: set<PageNo>, y: set<PageNo>, lim: Limits)
    requires TxnOk(b, t, x, lim) && BooksOk(c) && Same(b.View(), c.View(), t.Live())
    requires t.Live() !! y && t.Live() + y <= c.work.live
    ensures TxnOk(c, t, y, lim)
  {
    hide BooksOk, TreeOk, PageLocal;
    AgreeTree(b.View(), c.View(), t);
  }

  // ---- new pages -------------------------------------------------------------------------------------------

  /** A page that is new to the transaction is not a page of its tree. */
  lemma NewPageTxn(b: Books, t: Tree, x: set<PageNo>, n: PageNo, page: Page, lim: Limits)
    requires TxnOk(b, t, x, lim) && MayTake(b, n) && Blank(b, n, page)
    ensures TxnOk(NewPage(b, n, page), t, x + {n}, lim)
    ensures n !in t.Live() && n !in x && n != INVALID_PAGE && n !in b.dirty
    ensures Same(b.View(), NewPage(b, n, page).View(), t.Live())
  {
    hide BooksOk, TreeOk, LocalsOk;
    NewPageIsUnreachable(b, n);
    NewPageKeepsBooks(b, n, page);
    LiveInView(b.View(), t);
    SameTxn(b, NewPage(b, n, page), t, x, x + {n}, lim);
  }

  // ---- touching --------------------------------------------------------------------------------------------

  /** A branch whose child i has moved to page n. */
  function Rewired(p: Page, i: int, n: PageNo): Page
    requires p.NodePage? && 0 <= i < |p.nodes|
  {
    p.(nodes := p.nodes[i := p.nodes[i].(value := Child(n))])
  }

  /** touchNodePage as a whole: the copy is linked in the parent and takes the old version into its history. */
  function TouchBelow(b: Books, p: PageNo, n: PageNo, parent: PageNo, i: int, pageSize: int): Books
    requires p in b.View() && b.View()[p].NodePage?
    requires parent in b.dirty && b.dirty[parent].NodePage? && 0 <= i < |b.dirty[parent].nodes|
  {
    Edit(Touch(b, p, n, SpaceLeft(pageSize, b.View()[p]) >= HISTORY_NODE_SIZE), parent, Rewired(b.dirty[parent], i, n))
  }

  lemma RewiredLocal(p: Page, i: nat, n: PageNo, lim: Limits)
    requires PageLocal(p, lim) && i < |p.nodes| && p.nodes[i].value.Child?
    ensures PageLocal(Rewired(p, i, n), lim) && SpaceUsed(Rewired(p, i, n)) == SpaceUsed(p)
  {
    hide UpperBytes;
    UpperBytesReplace(p.nodes, p.nodes[i].(value := Child(n)), i);
  }

  lemma TouchBelowPages(b: Books, t: Tree, x: set<PageNo>, p: PageNo, n: PageNo, parent: PageNo, i: nat, lim: Limits)
    requires TxnOk(b, t, x, lim) && MayTake(b, n) && p in t.frames && p !in b.dirty && parent in b.dirty
    requires ChildAt(b.View(), t.frames, parent, i, p)
    ensures p in b.View() && b.View()[p].NodePage? && b.dirty[parent] == b.View()[parent]
    ensures n !in t.Live() && n !in x && n != INVALID_PAGE && n !in b.work.live && p != parent && n != parent
    ensures BooksOk(TouchBelow(b, p, n, parent, i, lim.pageSize))
    ensures var w := TouchBelow(b, p, n, parent, i, lim.pageSize).View();
      Same(b.View(), w, t.Live() - {p, parent}) && parent in w && w[parent] == Rewired(b.View()[parent], i, n)
      && n in w && SameBytes(b.View()[p], w[n]) && (PageFits(b.View()[p], lim.pageSize) ==> PageFits(w[n], lim.pageSize))
    ensures TouchBelow(b, p, n, parent, i, lim.pageSize).work.live == b.work.live - {p} + {n}
  {
    hide BooksOk, TreeOk, LocalsOk;
    LiveInView(b.View(), t);
    NewPageIsUnreachable(b, n);
    var fits := SpaceLeft(lim.pageSize, b.View()[p]) >= HISTORY_NODE_SIZE;
    TouchKeepsBooks(b, p, n, fits);
    EditKeepsBooks(Touch(b, p, n, fits), parent, Rewired(b.dirty[parent], i, n));
  }

  ghost predicate SameBytes(a: Page, b: Page) {
    a.NodePage? && b.NodePage? && a.leaf == b.leaf && a.nodes == b.nodes && a.upper == b.upper && a.lower == b.lower
  }

  lemma TouchTxn(b: Books, t: Tree, x: set<PageNo>, p: PageNo, n: PageNo, parent: PageNo, i: nat, lim: Limits,
                 s: set<PageNo>)
    requires TxnOk(b, t, x, lim) && MayTake(b, n) && p in t.frames && p !in b.dirty && parent in b.dirty
    requires p !in s && s <= t.frames.Keys && ChildAt(b.View(), t.frames, parent, i, p)
    requires p in b.View() && b.View()[p].NodePage? && b.dirty[parent].NodePage? && i < |b.dirty[parent].nodes|
    ensures var c := TouchBelow(b, p, n, parent, i, lim.pageSize);
      var u := t.(frames := Renamed(t.frames, p, n));
      && n !in t.Live() && n != INVALID_PAGE && TxnOk(c, u, x, lim)
      && (FitBut(b.View(), t.frames, lim.pageSize, s) ==> FitBut(c.View(), u.frames, lim.pageSize, s))
      && (FullBut(b.View(), t, s) ==> FullBut(c.View(), u, s))
  {
    hide BooksOk, TreeOk, PageLocal, SameBytes, Renamed, TouchBelow, LocalsOk, FitBut, FullBut;
    TouchBelowPages(b, t, x, p, n, parent, i, lim);
    var c := TouchBelow(b, p, n, parent, i, lim.pageSize);
    var v, w := b.View(), c.View();
    assert SameContent(v[p], w[n]) by {
      SameBytesContent(v[p], w[n]);
    }
    LiveInView(v, t);
    TouchChild(v, t, p, n, parent, i, w);
    TouchLocals(v, t, p, n, parent, i, w, lim, s);
    if FullBut(v, t, s) {
      TouchFull(v, t, p, n, parent, i, w, s);
    }
    RenamedLive(t, p, n);
  }

  lemma SameBytesContent(a: Page, b: Page)
    requires SameBytes(a, b)
    ensures SameContent(a, b)
  {
  }

  lemma RenamedLive(t: Tree, p: PageNo, n: PageNo)
    requires p in t.frames && t.frames.Keys !! t.chains.Keys
    ensures t.(frames := Renamed(t.frames, p, n)).Live() == t.Live() - {p} + {n}
  {
  }

  lemma TouchLocals(v: Pages, t: Tree, p: PageNo, n: PageNo, parent: PageNo, i: nat, w: Pages, lim: Limits,
                    s: set<PageNo>)
    requires TreeOk(v, t) && LocalsOk(v, t.frames, lim) && p in t.frames && n !in t.Live() && p != parent && n != parent
    requires p !in s && s <= t.frames.Keys && ChildAt(v, t.frames, parent, i, p)
    requires Same(v, w, t.Live() - {p, parent}) && parent in w && w[parent] == Rewired(v[parent], i, n)
    requires p in v && n in w && SameBytes(v[p], w[n]) && (PageFits(v[p], lim.pageSize) ==> PageFits(w[n], lim.pageSize))
    ensures LocalsOk(w, Renamed(t.frames, p, n), lim)
    ensures FitBut(v, t.frames, lim.pageSize, s) ==> FitBut(w, Renamed(t.frames, p, n), lim.pageSize, s)
  {
    hide TreeOk, UpperBytes, NodesLocal;
    RewiredLocal(v[parent], i, n, lim);
  }

  lemma TouchFull(v: Pages, t: Tree, p: PageNo, n: PageNo, parent: PageNo, i: nat, w: Pages,
                  s: set<PageNo>)
    requires p !in s && s <= t.frames.Keys && TreeOk(v, t) && p in t.frames && n !in t.Live() && p != parent && n != parent && n != INVALID_PAGE
    requires ChildAt(v, t.frames, parent, i, p) && FullBut(v, t, s)
    requires Same(v, w, t.Live() - {p, parent}) && parent in w && w[parent] == Rewired(v[parent], i, n)
    requires p in v && n in w && SameBytes(v[p], w[n])
    ensures FullBut(w, t.(frames := Renamed(t.frames, p, n)), s)
  {
    LiveInView(v, t);
    assert p != t.root by {
      assert BranchOk(v[parent], t.frames[parent], t.frames);
      assert LinkOk(v[parent].nodes, i, t.frames[parent], t.frames);
    }
    var r := Renamed(t.frames, p, n);
    forall q | q in r && q !in s ensures q in w && PageFull(w[q]) {
      var q0 := if q == n then p else q;
      assert PageFull(v[q0]);
    }
  }

  function TouchTop(b: Books, p: PageNo, n: PageNo, pageSize: int): Books
    requires p in b.View() && b.View()[p].NodePage?
  {
    Touch(b, p, n, SpaceLeft(pageSize, b.View()[p]) >= HISTORY_NODE_SIZE)
  }

  lemma TouchTopPages(b: Books, t: Tree, x: set<PageNo>, n: PageNo, lim: Limits)
    requires TxnOk(b, t, x, lim) && MayTake(b, n) && t.root in t.frames && t.root !in b.dirty
    ensures t.root in b.View() && b.View()[t.root].NodePage?
    ensures n !in t.Live() && n !in x && n != INVALID_PAGE && n !in b.work.live
    ensures BooksOk(TouchTop(b, t.root, n, lim.pageSize))
    ensures var w := TouchTop(b, t.root, n, lim.pageSize).View();
      Same(b.View(), w, t.Live() - {t.root}) && n in w && SameBytes(b.View()[t.root], w[n])
      && (PageFits(b.View()[t.root], lim.pageSize) ==> PageFits(w[n], lim.pageSize))
    ensures TouchTop(b, t.root, n, lim.pageSize).work.live == b.work.live - {t.root} + {n}
  {
    hide BooksOk, TreeOk, LocalsOk;
    LiveInView(b.View(), t);
    NewPageIsUnreachable(b, n);
    TouchKeepsBooks(b, t.root, n, SpaceLeft(lim.pageSize, b.View()[t.root]) >= HISTORY_NODE_SIZE);
  }

  lemma TouchRootTxn(b: Books, t: Tree, x: set<PageNo>, n: PageNo, lim: Limits)
    requires TxnOk(b, t, x, lim) && MayTake(b, n) && t.root in t.frames && t.root !in b.dirty
    requires t.root in b.View() && b.View()[t.root].NodePage?
    ensures var c := TouchTop(b, t.root, n, lim.pageSize);
      var u := t.(root := n, frames := Renamed(t.frames, t.root, n));
      && n !in t.Live() && n != INVALID_PAGE && TxnOk(c, u, x, lim)
      && (AllFit(b.View(), t.frames, lim.pageSize) ==> AllFit(c.View(), u.frames, lim.pageSize))
      && (AllFull(b.View(), t) ==> AllFull(c.View(), u))
  {
    hide BooksOk, TreeOk, PageLocal, SameBytes, Renamed, TouchTop, LocalsOk, AllFit, AllFull;
    TouchTopPages(b, t, x, n, lim);
    var c := TouchTop(b, t.root, n, lim.pageSize);
    var v, w := b.View(), c.View();
    assert SameContent(v[t.root], w[n]) by {
      SameBytesContent(v[t.root], w[n]);
    }
    LiveInView(v, t);
    TouchRoot(v, t, n, w);
    TouchRootLocals(v, t, n, w, lim);
    RenamedLive(t, t.root, n);
  }

  lemma TouchRootLocals(v: Pages, t: Tree, n: PageNo, w: Pages, lim: Limits)
    requires LocalsOk(v, t.frames, lim) && t.root in t.frames && n !in t.Live() && n != INVALID_PAGE
    requires Same(v, w, t.Live() - {t.root}) && t.root in v && n in w && SameBytes(v[t.root], w[n])
    requires PageFits(v[t.root], lim.pageSize) ==> PageFits(w[n], lim.pageSize)
    requires INVALID_PAGE !in t.frames
    ensures LocalsOk(w, Renamed(t.frames, t.root, n), lim)
    ensures AllFit(v, t.frames, lim.pageSize) ==> AllFit(w, Renamed(t.frames, t.root, n), lim.pageSize)
    ensures AllFull(v, t) ==> AllFull(w, t.(root := n, frames := Renamed(t.frames, t.root, n)))
  {
    hide UpperBytes, NodesLocal;
    var r := Renamed(t.frames, t.root, n);
    if AllFull(v, t) {
      forall q | q in r ensures q in w && PageFull(w[q]) {
        var q0 := if q == n then t.root else q;
        assert PageFull(v[q0]);
      }
    }
  }

  // ---- entries ---------------------------------------------------------------------------------------------

  function Without(chains: Chains, o: real): Chains {
    map c | c in chains && chains[c].owner != o :: chains[c]
  }

  lemma WithoutChains(v: Pages, t: Tree, o: real)
    requires ChainsOk(v, t.chains) && OwnersOk(t.chains, t.entries)
    ensures ChainsOk(v, Without(t.chains, o)) && OwnersOk(Without(t.chains, o), t.entries - {o})
  {
    forall c | c in Without(t.chains, o) ensures c in v && c != INVALID_PAGE && ChainOk(v[c], t.chains[c], Without(t.chains, o)) {
      assert ChainOk(v[c], t.chains[c], t.chains);
    }
  }

  /** removeNode on a leaf: the entry is gone, its overflow pages s are in the residue. */
  lemma RemoveEntryTree(v: Pages, t: Tree, p: PageNo, i: nat, w: Pages)
    requires TreeOk(v, t) && p in t.frames && t.frames[p].level == 0 && p in v && v[p].NodePage? && i < |v[p].nodes|
    requires w == v[p := PageRemove(v[p], v[p].nodes[i].key.ord)]
    ensures var o := v[p].nodes[i].key.ord; TreeOk(w, t.(entries := t.entries - {o}, chains := Without(t.chains, o)))
  {
    var o := v[p].nodes[i].key.ord;
    assert LeafOk(v[p], t.frames[p], t.entries, t.chains);
    LowerBoundIs(v[p].nodes, o, i);
    LeafRemove(v[p], t.frames[p], t.entries, t.chains, i, Without(t.chains, o));
    LiveInView(v, t);
    WithoutChains(v, t, o);
    assert Covers(t.frames[p], o);
    var chains := Without(t.chains, o);
    AgreeChains(v, w, chains);
    assert LeafOk(w[p], t.frames[p], t.entries - {o}, chains);
    LeafUpdate(v, t, p, w, t.entries - {o}, chains);
  }

  /** Writing one dirty page, given what the pages then hold. */
  lemma EditTxn(b: Books, p: PageNo, page: Page, u: Tree, y: set<PageNo>, lim: Limits)
    requires BooksOk(b) && p in b.dirty && SameBooks(b.dirty[p], page)
    requires TxnOn(b, b.View()[p := page], u, y, lim)
    ensures Edit(b, p, page).View() == b.View()[p := page]
    ensures TxnOk(Edit(b, p, page), u, y, lim)
  {
    hide BooksOk, TreeOk, LocalsOk;
    EditKeepsBooks(b, p, page);
    assert Edit(b, p, page).View() == b.View()[p := page];
  }

  lemma FreeTxn(b: Books, t: Tree, s: set<PageNo>, o: real)
    requires BooksOk(b) && TreeOk(b.View(), t) && t.Live() <= b.work.live
    requires forall c :: c in s ==> c in t.chains && t.chains[c].owner == o
    ensures BooksOk(FreeOverflow(b, s)) && FreeOverflow(b, s).View() == b.View()
    ensures t.(entries := t.entries - {o}, chains := Without(t.chains, o)).Live() <= FreeOverflow(b, s).work.live
  {
    hide BooksOk, TreeOk;
    LiveInView(b.View(), t);
    forall c | c in s ensures c in b.work.live && c in b.View() && b.View()[c].OverflowPage? {
      assert c in t.Live();
    }
    FreeKeepsBooks(b, s);
    var u := t.(entries := t.entries - {o}, chains := Without(t.chains, o));
    forall c | c in u.Live() ensures c in t.Live() && c !in s {
    }
  }

  lemma RemoveEntryTxn(b: Books, t: Tree, x: set<PageNo>, p: PageNo, i: nat, s: set<PageNo>, lim: Limits, h: Health)
    requires TxnOk(b, t, x, lim) && Healthy(b.View(), t, {}, lim.pageSize, h)
    requires p in t.frames && p in b.dirty && b.dirty[p].NodePage? && b.dirty[p].leaf && i < |b.dirty[p].nodes|
    requires forall c :: c in s ==> c in t.chains && t.chains[c].owner == b.dirty[p].nodes[i].key.ord
    ensures var o := b.dirty[p].nodes[i].key.ord;
      var c := Edit(FreeOverflow(b, s), p, PageRemove(b.dirty[p], o));
      var u := t.(entries := t.entries - {o}, chains := Without(t.chains, o));
      TxnOk(c, u, x, lim) && Healthy(c.View(), u, {p}, lim.pageSize, h)
  {
    hide BooksOk, TreeOk;
    LiveInView(b.View(), t);
    var o := b.dirty[p].nodes[i].key.ord;
    var page := PageRemove(b.dirty[p], o);
    var u := t.(entries := t.entries - {o}, chains := Without(t.chains, o));
    FreeTxn(b, t, s, o);
    assert b.View()[p] == b.dirty[p];
    RemoveEntryTree(b.View(), t, p, i, b.View()[p := page]);
    LeafSorted(b.View(), t, p);
    PageRemoveLocal(b.dirty[p], lim, i);
    LocalsEdit(b.View(), t.frames, p, page, lim);
    HealthyEdit(b.View(), t, {}, u, p, page, lim.pageSize, h);
    assert u.Live() <= t.Live();
    assert x <= b.work.live - s;
    EditTxn(FreeOverflow(b, s), p, page, u, x, lim);
  }

  /** Writing page p says nothing of other pages. */
  lemma HealthyEdit(v: Pages, t: Tree, s: set<PageNo>, u: Tree, p: PageNo, page: Page, pageSize: int, h: Health)
    requires Healthy(v, t, s, pageSize, h) && u.frames == t.frames && u.root == t.root
    ensures Healthy(v[p := page], u, s + {p}, pageSize, h)
  {
    hide PageFits, PageFull;
  }

  /** A page that fits and is full enough is no exception any more. */
  lemma HealthyAt(v: Pages, t: Tree, s: set<PageNo>, p: PageNo, pageSize: int, h: Health)
    requires Healthy(v, t, s, pageSize, h) && p in v
    requires h.fit ==> PageFits(v[p], pageSize)
    requires h.full ==> PageFull(v[p])
    ensures Healthy(v, t, s - {p}, pageSize, h)
  {
    hide PageFits, PageFull;
  }

  lemma LeafSorted(v: Pages, t: Tree, p: PageNo)
    requires TreeOk(v, t) && p in t.frames
    ensures p in v && v[p].NodePage? && Sorted(v[p].nodes) && Within(v[p].nodes, t.frames[p])
  {
    assert t.frames[p].level == 0 ==> LeafOk(v[p], t.frames[p], t.entries, t.chains);
  }

  lemma LocalsEdit(v: Pages, fr: Frames, p: PageNo, page: Page, lim: Limits)
    requires LocalsOk(v, fr, lim) && PageLocal(page, lim)
    ensures LocalsOk(v[p := page], fr, lim)
  {
    hide PageLocal;
  }

  /** The overflow pages holding a value for o, not linked to the tree yet. */
  ghost predicate AddedChains(v: Pages, t: Tree, x: set<PageNo>, added: Chains, o: real) {
    && added.Keys <= x && ChainsOk(v, added) && forall c :: c in added ==> added[c].owner == o
  }

  lemma JoinChains(v: Pages, a: Chains, b: Chains)
    requires ChainsOk(v, a) && ChainsOk(v, b) && a.Keys !! b.Keys
    ensures ChainsOk(v, a + b)
  {
    forall c | c in a + b ensures c in v && c != INVALID_PAGE && ChainOk(v[c], (a + b)[c], a + b) {
      assert ChainOk(v[c], if c in a then a[c] else b[c], if c in a then a else b);
    }
  }

  /** insertNode on the leaf that covers the key. */
  lemma InsertEntryTree(v: Pages, t: Tree, x: set<PageNo>, p: PageNo, nd: Node, data: Bytes, added: Chains)
    requires TreeOk(v, t) && t.Live() !! x && p in t.frames && t.frames[p].level == 0 && p in v && v[p].NodePage?
    requires UserKey(nd.key) && Covers(t.frames[p], nd.key.ord) && nd.key.ord !in t.entries
    requires AddedChains(v, t, x, added, nd.key.ord)
    requires Holds(nd, t.entries[nd.key.ord := data], t.chains + added)
    ensures TreeOk(v[p := PageInsert(v[p], nd)], t.(entries := t.entries[nd.key.ord := data], chains := t.chains + added))
    ensures Sorted(v[p].nodes) && !Contains(v[p].nodes, nd.key.ord)
  {
    var o := nd.key.ord;
    var w := v[p := PageInsert(v[p], nd)];
    var chains, entries := t.chains + added, t.entries[o := data];
    assert LeafOk(v[p], t.frames[p], t.entries, t.chains);
    LeafInsert(v[p], t.frames[p], t.entries, t.chains, nd, data, chains);
    assert LeafOk(w[p], t.frames[p], entries, chains);
    JoinChains(v, t.chains, added);
    LiveInView(v, t);
    assert p !in chains;
    AgreeChains(v, w, chains);
    LeafUpdate(v, t, p, w, entries, chains);
  }

  lemma InsertEntryTxn(b: Books, t: Tree, x: set<PageNo>, p: PageNo, nd: Node, data: Bytes, added: Chains, lim: Limits)
    requires TxnOk(b, t, x, lim) && p in t.frames && p in b.dirty && b.dirty[p].NodePage? && b.dirty[p].leaf
    requires UserKey(nd.key) && Covers(t.frames[p], nd.key.ord) && nd.key.ord !in t.entries
    requires AddedChains(b.View(), t, x, added, nd.key.ord) && NodeLocal(true, nd, lim)
    requires Holds(nd, t.entries[nd.key.ord := data], t.chains + added)
    ensures var v := b.View()[p := PageInsert(b.dirty[p], nd)];
      var u := t.(entries := t.entries[nd.key.ord := data], chains := t.chains + added);
      TxnOn(b, v, u, x - added.Keys, lim)
  {
    hide BooksOk, TreeOk, Holds, ChainsOk, PageInsert, Contains, Sorted, NodeLocal;
    assert b.View()[p] == b.dirty[p];
    LiveInView(b.View(), t);
    InsertEntryTree(b.View(), t, x, p, nd, data, added);
    PageInsertNew(b.dirty[p], nd, lim);
    LocalsEdit(b.View(), t.frames, p, PageInsert(b.dirty[p], nd), lim);
    var u := t.(entries := t.entries[nd.key.ord := data], chains := t.chains + added);
    assert u.Live() == t.Live() + added.Keys;
  }

  // ---- roots -----------------------------------------------------------------------------------------------

  ghost predicate Empty(p: Page, leaf: bool) {
    p.NodePage? && p.leaf == leaf && p.nodes == [] && p.upper == 0 && p.lower == 0
  }

  lemma FirstRootTxn(b: Books, t: Tree, x: set<PageNo>, n: PageNo, lim: Limits)
    requires TxnOk(b, t, x, lim) && t.root == INVALID_PAGE && n in x && n in b.dirty && Empty(b.dirty[n], true)
    requires n != INVALID_PAGE
    ensures var u := t.(root := n, frames := map[n := Frame(0.0, TOP, 0)]);
      TxnOk(b, u, x - {n}, lim)
      && (|b.dirty[n].history| == 0 && lim.pageSize >= MIN_PAGE_SIZE ==> AllFit(b.View(), u.frames, lim.pageSize))
  {
    hide BooksOk, ChainsOk;
    FirstRoot(b.View(), t, n, b.View()) by {
      LiveInView(b.View(), t);
    }
    var u := t.(root := n, frames := map[n := Frame(0.0, TOP, 0)]);
    assert u.Live() <= t.Live() + {n};
    assert UpperBytes([]) == 0 by { UpperBytesEmpty(); }
  }

  lemma UpperBytesEmpty()
    ensures UpperBytes([]) == 0
  {
  }

  /** The branch put above the root, and the pages when it is written to page n. */
  function RootNode(root: PageNo): Node {
    Node(EMPTY_KEY, Child(root))
  }

  lemma GrowRootTxn(b: Books, v: Pages, t: Tree, x: set<PageNo>, n: PageNo, lim: Limits)
    requires TxnOn(b, v, t, x, lim) && t.root != INVALID_PAGE && n in x && n != INVALID_PAGE && n in v && Empty(v[n], false)
    requires t.root in t.frames
    ensures PageInsert(v[n], RootNode(t.root)).nodes == [RootNode(t.root)]
    ensures TxnOn(b, v[n := PageInsert(v[n], RootNode(t.root))], Grown(t, n), x - {n}, lim)
    ensures SpaceUsed(PageInsert(v[n], RootNode(t.root))) == NODE_HEADER_SIZE + INDEX_SIZE
  {
    hide BooksOk;
    var page := PageInsert(v[n], RootNode(t.root));
    var w := v[n := page];
    assert page.nodes == [RootNode(t.root)] by {
      LowerBoundIs([], 0.0, 0);
    }
    GrowRoot(v, t, n, w) by {
      LiveInView(v, t);
    }
    PageInsertLocal(v[n], RootNode(t.root), lim, 0) by {
      UpperBytesEmpty();
    }
    assert Grown(t, n).Live() == t.Live() + {n};
  }

  // ---- splitting -------------------------------------------------------------------------------------------

  /** A page with other nodes. */
  function With(p: Page, ns: seq<Node>): Page
    requires p.NodePage?
  {
    p.(nodes := ns, upper := UpperBytes(ns), lower := INDEX_SIZE * |ns|)
  }

  /** The nodes of page l have been shared out with the new page r, whose separator key the parent has yet to learn. */
  ghost predicate PendOk(b: Books, v: Pages, t: Tree, l: PageNo, r: PageNo, key: Key, x: set<PageNo>, lim: Limits) {
    && BooksOk(b) && l in t.frames && r !in t.Live() && r != INVALID_PAGE && INVALID_PAGE !in t.frames
    && t.Live() + {r} !! x && t.Live() + {r} + x <= b.work.live
    && PendTree(v, t, l, r, key) && LocalsOk(v, Divided(t.frames, l, r, key.ord), lim)
  }

  ghost predicate PendTree(v: Pages, t: Tree, l: PageNo, r: PageNo, key: Key)
    requires l in t.frames
  {
    && t.frames[l].lo < key.ord < t.frames[l].hi && RangesOk(t.frames)
    && t.frames.Keys !! t.chains.Keys && ChainsOk(v, t.chains) && OwnersOk(t.chains, t.entries)
    && (forall o :: o in t.entries ==> 0.0 <= o < TOP) && t.root != INVALID_PAGE && t.root != l
    && RangesOk(Divided(t.frames, l, r, key.ord)) && RootOk(t.root, Divided(t.frames, l, r, key.ord))
    && LeavesOk(v, Divided(t.frames, l, r, key.ord), t.entries, t.chains)
    && BranchesOk(v, Divided(t.frames, l, r, key.ord), t.frames)
  }

  lemma DivideTree(v: Pages, t: Tree, l: PageNo, r: PageNo, si: int, w: Pages)
    requires TreeOk(v, t) && t.root != INVALID_PAGE && l != t.root && SharedOut(v, w, t.frames, l, r, si) && r !in t.Live()
    requires Agree(v, w, t.Live() - {l})
    ensures PendTree(w, t, l, r, v[l].nodes[si].key)
  {
    hide ChainsOk, LeavesOk, BranchesOk;
    LiveInView(v, t);
    AgreeChains(v, w, t.chains);
    Divide(v, t, l, r, si, w);
  }

  lemma WithLocal(p: Page, ns: seq<Node>, lim: Limits)
    requires p.NodePage? && NodesLocal(p.leaf, ns, lim)
    ensures PageLocal(With(p, ns), lim)
  {
  }

  lemma DivideTxn(b: Books, v: Pages, t: Tree, x: set<PageNo>, l: PageNo, r: PageNo, si: int, lim: Limits)
    requires TxnOn(b, v, t, x, lim) && l in t.frames && l != t.root && r in x && r in v && r != INVALID_PAGE
    requires l in v && v[l].NodePage? && v[r].NodePage? && v[r].leaf == v[l].leaf && 0 < si < |v[l].nodes|
    ensures PendOk(b, v[l := With(v[l], v[l].nodes[..si])][r := With(v[r], v[l].nodes[si..])], t, l, r, v[l].nodes[si].key,
                   x - {r}, lim)
  {
    hide BooksOk, TreeOk, UpperBytes, PendTree, LocalsOk;
    var w := v[l := With(v[l], v[l].nodes[..si])][r := With(v[r], v[l].nodes[si..])];
    RootIsPage(v, t);
    LiveInView(v, t);
    DivideTree(v, t, l, r, si, w);
    DividedLocals(v, t.frames, l, r, si, v[l].nodes[si].key.ord, lim);
  }

  lemma RootIsPage(v: Pages, t: Tree)
    requires TreeOk(v, t) && t.frames != map[]
    ensures t.root != INVALID_PAGE && t.root in t.frames
  {
  }

  lemma DividedLocals(v: Pages, fr: Frames, l: PageNo, r: PageNo, si: int, sk: real, lim: Limits)
    requires LocalsOk(v, fr, lim) && l in fr && r in v && l != r
    requires l in v && v[l].NodePage? && v[r].NodePage? && v[r].leaf == v[l].leaf && 0 < si < |v[l].nodes|
    ensures LocalsOk(v[l := With(v[l], v[l].nodes[..si])][r := With(v[r], v[l].nodes[si..])], Divided(fr, l, r, sk), lim)
  {
    hide UpperBytes, NodeLocal;
    assert PageLocal(v[l], lim);
    WithLocal(v[l], v[l].nodes[..si], lim);
    WithLocal(v[r], v[l].nodes[si..], lim);
  }

  lemma LinkTree(v: Pages, t: Tree, l: PageNo, r: PageNo, key: Key, parent: PageNo, i: nat)
    requires l in t.frames && r !in t.Live() && r != INVALID_PAGE && INVALID_PAGE !in t.frames && PendTree(v, t, l, r, key)
    requires ChildAt(v, t.frames, parent, i, l) && parent != l
    ensures var p := PageInsert(v[parent], Node(key, Child(r)));
      && p.nodes == Linked(v[parent].nodes, i, key, r)
      && TreeOk(v[parent := p], t.(frames := Divided(t.frames, l, r, key.ord)))
    ensures Sorted(v[parent].nodes) && !v[parent].leaf && v[parent].nodes[i].key.ord < key.ord
    ensures i + 1 < |v[parent].nodes| ==> key.ord < v[parent].nodes[i + 1].key.ord
  {
    var d := Divided(t.frames, l, r, key.ord);
    assert BranchOk(v[parent], d[parent], t.frames);
    assert LinkOk(v[parent].nodes, i, d[parent], t.frames);
    InsertIs(v[parent].nodes, Node(key, Child(r)), i + 1);
    var p := PageInsert(v[parent], Node(key, Child(r)));
    assert p.nodes == Linked(v[parent].nodes, i, key, r);
    var w := v[parent := p];
    PendPages(v, t, l, r, key);
    AgreeChains(v, w, t.chains);
    LinkParent(v, t.frames, l, r, parent, i, key, w);
    ShiftLeaves(v, w, d, t, parent);
    hide LeavesOk, BranchesOk, RangesOk;
  }

  lemma PendPages(v: Pages, t: Tree, l: PageNo, r: PageNo, key: Key)
    requires l in t.frames && PendTree(v, t, l, r, key)
    ensures forall p :: p in Divided(t.frames, l, r, key.ord) ==> p in v && v[p].NodePage?
    ensures forall p :: p in t.chains ==> p in v
  {
    var d := Divided(t.frames, l, r, key.ord);
    forall p | p in d ensures p in v && v[p].NodePage? {
      assert d[p].level == 0 ==> LeafOk(v[p], d[p], t.entries, t.chains);
    }
  }

  lemma LinkTxn(b: Books, v: Pages, t: Tree, l: PageNo, r: PageNo, key: Key, x: set<PageNo>, parent: PageNo, i: nat, lim: Limits)
    requires PendOk(b, v, t, l, r, key, x, lim) && ChildAt(v, t.frames, parent, i, l) && parent != l
    requires NodeLocal(false, Node(key, Child(r)), lim)
    ensures PageInsert(v[parent], Node(key, Child(r))).nodes == Linked(v[parent].nodes, i, key, r)
    ensures TxnOn(b, v[parent := PageInsert(v[parent], Node(key, Child(r)))],
                  t.(frames := Divided(t.frames, l, r, key.ord)), x, lim)
  {
    hide BooksOk, TreeOk, PendTree, NodeLocal;
    LinkTree(v, t, l, r, key, parent, i);
    var d := Divided(t.frames, l, r, key.ord);
    assert PageLocal(v[parent], lim);
    PageInsertLocal(v[parent], Node(key, Child(r)), lim, i + 1);
    LocalsEdit(v, d, parent, PageInsert(v[parent], Node(key, Child(r))), lim);
    var u := t.(frames := d);
    assert u.Live() == t.Live() + {r};
  }

  // ---- rebalancing -----------------------------------------------------------------------------------------

  /** Two neighbours as children i and i + 1 of a branch. */
  lemma NeighboursTxn(v: Pages, t: Tree, parent: PageNo, i: nat)
    requires TreeOk(v, t) && parent in t.frames && t.frames[parent].level > 0 && parent in v && v[parent].NodePage?
    requires i + 1 < |v[parent].nodes|
    ensures v[parent].nodes[i].value.Child? && v[parent].nodes[i + 1].value.Child?
    ensures var a, c := v[parent].nodes[i].value.page, v[parent].nodes[i + 1].value.page;
      && Neighbours(v, t.frames, parent, i, a, c) && a in t.frames && c in t.frames && a != c && a != parent && c != parent
      && a in v && c in v && v[a].NodePage? && v[c].NodePage? && v[a].leaf == v[c].leaf && a != t.root && c != t.root
      && t.frames[a].level == t.frames[c].level == t.frames[parent].level - 1
      && t.frames[a].lo == v[parent].nodes[i].key.ord && t.frames[c].lo == v[parent].nodes[i + 1].key.ord
      && t.frames[a].lo < t.frames[a].hi == t.frames[c].lo < t.frames[c].hi
    ensures Sorted(v[parent].nodes) && !v[parent].leaf
  {
    assert BranchOk(v[parent], t.frames[parent], t.frames);
    assert LinkOk(v[parent].nodes, i, t.frames[parent], t.frames) && LinkOk(v[parent].nodes, i + 1, t.frames[parent], t.frames);
    LiveInView(v, t);
    NeighbourFrames(v, t.frames, parent, i, v[parent].nodes[i].value.page, v[parent].nodes[i + 1].value.page);
  }

  ghost predicate MergeReady(v: Pages, t: Tree, parent: PageNo, i: nat, a: PageNo, b: PageNo) {
    && Neighbours(v, t.frames, parent, i, a, b) && a in t.frames && b in t.frames
    && a in v && b in v && v[a].NodePage? && v[b].NodePage? && v[a].leaf == v[b].leaf
    && !v[parent].leaf && a != parent && b != parent && a != b && a != t.root && b != t.root
  }

  lemma MergeTxn(b: Books, v: Pages, t: Tree, x: set<PageNo>, parent: PageNo, i: nat, l: PageNo, r: PageNo, dst: PageNo,
                 page: Page, top: Page, lim: Limits)
    requires TxnOn(b, v, t, x, lim) && MergeReady(v, t, parent, i, l, r) && (dst == l || dst == r)
    requires page.NodePage? && page.leaf == v[dst].leaf && page.nodes == v[l].nodes + v[r].nodes && PageLocal(page, lim)
    requires top.NodePage? && !top.leaf && top.nodes == Unlinked(v[parent].nodes, i, dst) && PageLocal(top, lim)
    ensures TxnOn(b, v[dst := page][parent := top], t.(frames := Joined(t.frames, l, r, dst)), x, lim)
  {
    hide BooksOk, TreeOk, PageLocal, Unlinked;
    MergeTree(v, t, parent, i, l, r, dst, v[dst := page][parent := top]);
    MergeLocals(v, t.frames, l, r, dst, page, parent, top, lim);
  }

  lemma MergeLocals(v: Pages, fr: Frames, l: PageNo, r: PageNo, dst: PageNo, page: Page, parent: PageNo, top: Page, lim: Limits)
    requires LocalsOk(v, fr, lim) && l in fr && r in fr && PageLocal(page, lim) && PageLocal(top, lim)
    ensures LocalsOk(v[dst := page][parent := top], Joined(fr, l, r, dst), lim)
  {
    hide PageLocal;
  }

  lemma MergeTree(v: Pages, t: Tree, parent: PageNo, i: nat, l: PageNo, r: PageNo, dst: PageNo, w: Pages)
    requires TreeOk(v, t) && MergeReady(v, t, parent, i, l, r) && (dst == l || dst == r)
    requires dst in w && w[dst].NodePage? && w[dst].leaf == v[dst].leaf && w[dst].nodes == v[l].nodes + v[r].nodes
    requires parent in w && w[parent].NodePage? && !w[parent].leaf && w[parent].nodes == Unlinked(v[parent].nodes, i, dst)
    requires w.Keys >= v.Keys && forall q :: q in v && q != dst && q != parent ==> w[q] == v[q]
    ensures TreeOk(w, t.(frames := Joined(t.frames, l, r, dst)))
    ensures t.(frames := Joined(t.frames, l, r, dst)).Live() <= t.Live()
  {
    hide ChainsOk, NodesOk, Unlinked;
    RootIsPage(v, t);
    LiveInView(v, t);
    AgreeChains(v, w, t.chains);
    MergeNodes(v, t, parent, i, l, r, dst, w);
  }

  lemma MergeNodes(v: Pages, t: Tree, parent: PageNo, i: nat, l: PageNo, r: PageNo, dst: PageNo, w: Pages)
    requires TreeOk(v, t) && MergeReady(v, t, parent, i, l, r) && (dst == l || dst == r)
    requires dst in w && w[dst].NodePage? && w[dst].leaf == v[dst].leaf && w[dst].nodes == v[l].nodes + v[r].nodes
    requires parent in w && w[parent].NodePage? && !w[parent].leaf && w[parent].nodes == Unlinked(v[parent].nodes, i, dst)
    requires Same(v, w, t.frames.Keys - {dst, parent})
    ensures NodesOk(w, t.(frames := Joined(t.frames, l, r, dst)))
  {
    hide NodesOk, ChainsOk, Unlinked;
    Merge(v, t, parent, i, l, r, dst, w);
  }

  lemma ShiftTxn(b: Books, v: Pages, t: Tree, x: set<PageNo>, parent: PageNo, i: nat, l: PageNo, r: PageNo, si: int,
                 low: Page, high: Page, top: Page, lim: Limits)
    requires TxnOn(b, v, t, x, lim) && MergeReady(v, t, parent, i, l, r) && 0 < si < |v[l].nodes + v[r].nodes|
    requires low.NodePage? && low.leaf == v[l].leaf && low.nodes == (v[l].nodes + v[r].nodes)[..si] && PageLocal(low, lim)
    requires high.NodePage? && high.leaf == v[l].leaf && high.nodes == (v[l].nodes + v[r].nodes)[si..] && PageLocal(high, lim)
    requires top.NodePage? && !top.leaf && PageLocal(top, lim)
    requires top.nodes == v[parent].nodes[i + 1 := Node((v[l].nodes + v[r].nodes)[si].key, Child(r))]
    ensures TxnOn(b, v[l := low][r := high][parent := top],
                  t.(frames := Shifted(t.frames, l, r, (v[l].nodes + v[r].nodes)[si].key.ord)), x, lim)
  {
    hide BooksOk, TreeOk, PageLocal;
    ShiftTree(v, t, parent, i, l, r, si, v[l := low][r := high][parent := top]);
    ShiftLocals(v, t.frames, l, r, (v[l].nodes + v[r].nodes)[si].key.ord, low, high, parent, top, lim);
  }

  lemma ShiftLocals(v: Pages, fr: Frames, l: PageNo, r: PageNo, sk: real, low: Page, high: Page, parent: PageNo, top: Page,
                    lim: Limits)
    requires LocalsOk(v, fr, lim) && l in fr && r in fr && PageLocal(low, lim) && PageLocal(high, lim) && PageLocal(top, lim)
    ensures LocalsOk(v[l := low][r := high][parent := top], Shifted(fr, l, r, sk), lim)
  {
    hide PageLocal;
  }

  /** The nodes of l and r are shared out anew at position si and the parent has the new separator. */
  ghost predicate SharedAnew(v: Pages, w: Pages, parent: PageNo, i: nat, l: PageNo, r: PageNo, si: int) {
    && l in v && r in v && parent in v && v[l].NodePage? && v[r].NodePage? && v[parent].NodePage? && i + 1 < |v[parent].nodes|
    && var all := v[l].nodes + v[r].nodes;
    && 0 < si < |all|
    && l in w && w[l].NodePage? && w[l].leaf == v[l].leaf && w[l].nodes == all[..si]
    && r in w && w[r].NodePage? && w[r].leaf == v[l].leaf && w[r].nodes == all[si..]
    && parent in w && w[parent].NodePage? && !w[parent].leaf
    && w[parent].nodes == v[parent].nodes[i + 1 := Node(all[si].key, Child(r))]
  }

  function Separator(v: Pages, l: PageNo, r: PageNo, si: int): real
    requires l in v && r in v && v[l].NodePage? && v[r].NodePage? && 0 < si < |v[l].nodes + v[r].nodes|
  {
    (v[l].nodes + v[r].nodes)[si].key.ord
  }

  lemma ShiftTree(v: Pages, t: Tree, parent: PageNo, i: nat, l: PageNo, r: PageNo, si: int, w: Pages)
    requires TreeOk(v, t) && MergeReady(v, t, parent, i, l, r) && SharedAnew(v, w, parent, i, l, r, si)
    requires w.Keys >= v.Keys && forall q :: q in v && q != l && q != r && q != parent ==> w[q] == v[q]
    ensures var u := t.(frames := Shifted(t.frames, l, r, Separator(v, l, r, si)));
      TreeOk(w, u) && u.Live() == t.Live()
  {
    hide ChainsOk, NodesOk, SharedAnew, Separator;
    RootIsPage(v, t);
    LiveInView(v, t);
    AgreeChains(v, w, t.chains);
    ShiftNodes(v, t, parent, i, l, r, si, w);
  }

  lemma ShiftNodes(v: Pages, t: Tree, parent: PageNo, i: nat, l: PageNo, r: PageNo, si: int, w: Pages)
    requires TreeOk(v, t) && MergeReady(v, t, parent, i, l, r) && SharedAnew(v, w, parent, i, l, r, si)
    requires Same(v, w, t.frames.Keys - {l, r, parent})
    ensures NodesOk(w, t.(frames := Shifted(t.frames, l, r, Separator(v, l, r, si))))
  {
    hide NodesOk, ChainsOk;
    Shift(v, t, parent, i, l, r, si, (v[l].nodes + v[r].nodes)[si].key, w);
  }

  lemma CollapseTxn(b: Books, t: Tree, x: set<PageNo>, c: PageNo, lim: Limits)
    requires TxnOk(b, t, x, lim) && ChildAt(b.View(), t.frames, t.root, 0, c) && |b.View()[t.root].nodes| == 1
    ensures c in t.frames && c != t.root
    ensures TxnOk(b, t.(root := c, frames := t.frames - {t.root}), x, lim)
  {
    hide BooksOk, NodesOk;
    RootIsPage(b.View(), t);
    CollapseRoot(b.View(), t, c);
    assert c != t.root by {
      LinkedBelow(b.View(), t, t.root, 0, c);
    }
  }

  lemma LinkedBelow(v: Pages, t: Tree, parent: PageNo, i: nat, c: PageNo)
    requires TreeOk(v, t) && ChildAt(v, t.frames, parent, i, c)
    ensures c in t.frames && c != parent && c != t.root && t.frames[c].level + 1 == t.frames[parent].level
    ensures t.frames[c].lo == v[parent].nodes[i].key.ord
    ensures t.frames[parent].lo <= t.frames[c].lo && t.frames[c].hi <= t.frames[parent].hi
    ensures t.frames[c].hi == NextOrd(v[parent].nodes, i, t.frames[parent].hi)
  {
    assert BranchOk(v[parent], t.frames[parent], t.frames);
    assert LinkOk(v[parent].nodes, i, t.frames[parent], t.frames);
    assert Covers(t.frames[parent], v[parent].nodes[i].key.ord);
    assert i + 1 < |v[parent].nodes| ==> Covers(t.frames[parent], v[parent].nodes[i + 1].key.ord);
  }

  lemma EmptyRootTxn(b: Books, t: Tree, x: set<PageNo>, lim: Limits)
    requires TxnOk(b, t, x, lim) && t.root in t.frames && t.root in b.View() && b.View()[t.root].NodePage?
    requires b.View()[t.root].nodes == []
    ensures t.entries == map[] && TxnOk(b, t.(root := INVALID_PAGE, frames := map[]), x, lim)
  {
    hide BooksOk;
    EmptyRoot(b.View(), t);
  }

  /** removeFromTree on a page the tree no longer links. */
  lemma RemovePageTxn(b: Books, t: Tree, x: set<PageNo>, p: PageNo, lim: Limits)
    requires TxnOk(b, t, x, lim) && p !in t.Live() && p !in x && p in b.dirty && b.dirty[p].NodePage?
    ensures TxnOk(RemoveFromTree(b, p), t, x, lim)
    ensures Same(b.View(), RemoveFromTree(b, p).View(), t.Live())
  {
    hide BooksOk, TreeOk, LocalsOk;
    LiveInView(b.View(), t);
    RemoveKeepsBooks(b, p);
    SameTxn(b, RemoveFromTree(b, p), t, x, x, lim);
  }
}

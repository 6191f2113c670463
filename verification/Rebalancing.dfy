// What rebalancing does to a page that has lost too many nodes: the root gives way, a neighbour lends a node, or two
// neighbours are merged.
module Rebalancing {
  import opened HBtreeRecords
  import opened OrderedNodes
  import opened TreeInvariant
  import opened TreeSteps
  import opened PageAccounts
  import opened Transaction
  import opened SplitArithmetic
  import opened Descent
  import opened OverflowChains
  import opened Splitting
  import opened LeafUpdates

  lemma OpenPage(b: Books, t: Tree, path: seq<PageNo>, level: nat, x: set<PageNo>, o: real, lim: Limits, h: Health)
    requires OpenTo(b, t, path, level, x, o, lim, h)
    ensures |path| > 0 && Last(path) in t.frames && t.frames[Last(path)].level == level && path[0] == t.root && t.root in t.frames
    ensures Last(path) in b.dirty && b.dirty[Last(path)].NodePage? && b.View()[Last(path)] == b.dirty[Last(path)]
    ensures b.dirty[Last(path)].leaf <==> level == 0
    ensures BooksOk(b) && TreeOk(b.View(), t) && PageLocal(b.dirty[Last(path)], lim) && Sorted(b.dirty[Last(path)].nodes)
    ensures level > 0 ==> BranchOk(b.dirty[Last(path)], t.frames[Last(path)], t.frames)
    ensures t.frames[Last(path)].lo >= 0.0
  {
    hide BooksOk, Healthy, LeafOk, BranchOk;
    assert path[|path| - 1] in t.frames && path[0] in t.frames && path[|path| - 1] in b.dirty;
    LeafSorted(b.View(), t, Last(path));
    LiveInView(b.View(), t);
  }

  /** A page that turns out full enough needs nothing. */
  lemma Settles(b: Books, t: Tree, path: seq<PageNo>, level: nat, o: real, lim: Limits, h: Health)
    requires OpenTo(b, t, path, level, {}, o, lim, h) && |path| > 0 && Last(path) in b.dirty
    requires h.full ==> PageFull(b.dirty[Last(path)])
    ensures TxnOk(b, t, {}, lim) && Healthy(b.View(), t, {}, lim.pageSize, h)
  {
    hide TxnOk, Healthy, PathOk, PageFull, PageFits;
    assert b.View()[Last(path)] == b.dirty[Last(path)];
    HealthyAt(b.View(), t, {Last(path)}, Last(path), lim.pageSize, h);
    assert {Last(path)} - {Last(path)} == {};
  }

  /** A page filled above the threshold is full enough. */
  lemma WellFilledIsFull(b: Books, t: Tree, path: seq<PageNo>, level: nat, o: real, lim: Limits, h: Health)
    requires OpenTo(b, t, path, level, {}, o, lim, h) && lim.pageSize >= MIN_PAGE_SIZE
    requires |path| > 0 && Last(path) in b.dirty && b.dirty[Last(path)].NodePage? && WellFilled(lim.pageSize, b.dirty[Last(path)])
    ensures PageFull(b.dirty[Last(path)])
  {
    hide BooksOk, TxnOk, Healthy, TreeOk, BranchOk, PathOk, NodesLocal, Sorted;
    OpenPage(b, t, path, level, {}, o, lim, h);
    ShortHistory(b, Last(path));
    if level > 0 {
      BranchIsFull(b.dirty[Last(path)], t.frames[Last(path)], t.frames, lim);
    }
  }

  lemma BranchIsFull(p: Page, f: Frame, fr: Frames, lim: Limits)
    requires BranchOk(p, f, fr) && PageLocal(p, lim) && f.lo >= 0.0 && |p.history| <= 3 && lim.pageSize >= MIN_PAGE_SIZE
    requires WellFilled(lim.pageSize, p)
    ensures |p.nodes| >= 2
  {
    BranchSizes(p, f, fr, lim);
    BytesAtMost(p.nodes, 522);
  }

  // ---- the root --------------------------------------------------------------------------------------------

  lemma RootEmpties(b: Books, t: Tree, path: seq<PageNo>, level: nat, o: real, lim: Limits, h: Health)
    requires OpenTo(b, t, path, level, {}, o, lim, h) && |path| == 1
    requires path[0] in b.dirty && b.dirty[path[0]].NodePage? && b.dirty[path[0]].nodes == []
    ensures var u := t.(root := INVALID_PAGE, frames := map[]);
      var c := RemoveFromTree(b, path[0]);
      TxnOk(c, u, {}, lim) && Healthy(c.View(), u, {}, lim.pageSize, h)
  {
    hide BooksOk, TxnOn, BranchOk, PathOk, TreeOk;
    OpenPage(b, t, path, level, {}, o, lim, h);
    EmptyRootTxn(b, t, {}, lim);
    assert path[0] !in t.chains by {
      LiveInView(b.View(), t);
    }
    RemovePageTxn(b, t.(root := INVALID_PAGE, frames := map[]), {}, path[0], lim);
  }

  lemma RootCollapses(b: Books, t: Tree, path: seq<PageNo>, level: nat, o: real, lim: Limits, h: Health)
    requires OpenTo(b, t, path, level, {}, o, lim, h) && |path| == 1
    requires path[0] in b.dirty && b.dirty[path[0]].NodePage? && !b.dirty[path[0]].leaf && |b.dirty[path[0]].nodes| == 1
    ensures b.dirty[path[0]].nodes[0].value.Child?
    ensures var n := b.dirty[path[0]].nodes[0].value.page;
      var u := t.(root := n, frames := t.frames - {path[0]});
      var c := RemoveFromTree(b, path[0]);
      TxnOk(c, u, {}, lim) && Healthy(c.View(), u, {}, lim.pageSize, h)
  {
    hide BooksOk, TxnOn, PathOk, TreeOk, Healthy;
    OpenPage(b, t, path, level, {}, o, lim, h);
    var p := path[0];
    assert LinkOk(b.dirty[p].nodes, 0, t.frames[p], t.frames);
    var n := b.dirty[p].nodes[0].value.page;
    var u := t.(root := n, frames := t.frames - {p});
    CollapseTxn(b, t, {}, n, lim);
    assert p !in u.Live() by {
      LiveInView(b.View(), t);
    }
    CollapsedHealth(b.View(), t, n, lim.pageSize, h);
    RemovePageTxn(b, u, {}, p, lim);
    SameHealth(b.View(), RemoveFromTree(b, p).View(), u, {}, lim.pageSize, h);
  }

  lemma CollapsedHealth(v: Pages, t: Tree, n: PageNo, pageSize: int, h: Health)
    requires Healthy(v, t, {t.root}, pageSize, h) && n in t.frames && n != t.root
    ensures Healthy(v, t.(root := n, frames := t.frames - {t.root}), {}, pageSize, h)
  {
    hide PageFits;
  }

  // ---- a page beside a neighbour ---------------------------------------------------------------------------

  /** Page p, which may have lost too many nodes, is child i or i + 1 of the page at the end of the path `up`. */
  ghost predicate Beside(b: Books, t: Tree, up: seq<PageNo>, level: nat, p: PageNo, i: nat, lim: Limits, h: Health) {
    && PathOk(t, up, level + 1) && AllDirty(b, up)
    && TxnOk(b, t, {}, lim) && Healthy(b.View(), t, {p}, lim.pageSize, h) && h.full
    && p in b.dirty && b.dirty[p].NodePage? && (h.fit ==> PageFits(b.dirty[p], lim.pageSize))
    && var ns := b.dirty[Last(up)].nodes;
    && i + 1 < |ns| && (ns[i].value == Child(p) || ns[i + 1].value == Child(p))
  }

  lemma OpenBeside(b: Books, t: Tree, path: seq<PageNo>, level: nat, o: real, lim: Limits, h: Health)
    requires OpenTo(b, t, path, level, {}, o, lim, h) && |path| > 1 && h.full
    ensures Last(Front(path)) in b.dirty && b.dirty[Last(Front(path))].NodePage?
    ensures var j := ChildIndex(b.dirty[Last(Front(path))].nodes, o);
      && 0 <= j < |b.dirty[Last(Front(path))].nodes| && |b.dirty[Last(Front(path))].nodes| > 1 && b.dirty[Last(Front(path))].nodes[j].value == Child(Last(path))
      && Beside(b, t, Front(path), level, Last(path), if j == 0 then 0 else j - 1, lim, h)
    ensures Covers(t.frames[Last(Front(path))], o)
  {
    hide BooksOk, TxnOn, TreeOk, PathOk, BranchOk, PageFits, ChildAt, PageLocal, Sorted;
    OpenPage(b, t, path, level, {}, o, lim, h);
    var up, p := Front(path), Last(path);
    var parent := Last(up);
    PathFront(t, path, level);
    PathLast(t, up, level + 1);
    assert up[|up| - 1] == path[|path| - 2];
    assert b.View()[parent] == b.dirty[parent];
    ChildCovers(b.View(), t, parent, o);
    SameLevel(b.View(), t, p, b.dirty[parent].nodes[ChildIndex(b.dirty[parent].nodes, o)].value.page, o);
    assert parent != p;
    assert PageFull(b.View()[parent]);
    LiveInView(b.View(), t);
  }

  lemma SameLevel(v: Pages, t: Tree, p: PageNo, q: PageNo, o: real)
    requires TreeOk(v, t) && p in t.frames && q in t.frames && t.frames[p].level == t.frames[q].level
    requires Covers(t.frames[p], o) && Covers(t.frames[q], o)
    ensures p == q
  {
  }

  /** The two neighbours, with the facts about them that the steps need. */
  lemma PairFacts(b: Books, t: Tree, up: seq<PageNo>, level: nat, p: PageNo, i: nat, lim: Limits, h: Health)
    requires Beside(b, t, up, level, p, i, lim, h)
    ensures |up| > 0 && Last(up) in b.dirty && b.dirty[Last(up)].NodePage? && b.View()[Last(up)] == b.dirty[Last(up)]
    ensures var ns := b.dirty[Last(up)].nodes;
      && i + 1 < |ns| && ns[i].value.Child? && ns[i + 1].value.Child?
      && var v, l, r := b.View(), ns[i].value.page, ns[i + 1].value.page;
      && MergeReady(v, t, Last(up), i, l, r) && (p == l || p == r)
      && PageLocal(v[l], lim) && PageLocal(v[r], lim) && PageLocal(v[Last(up)], lim)
      && (v[l].leaf <==> level == 0) && Sorted(v[Last(up)].nodes)
      && t.frames[l].level == level && t.frames[r].level == level
    ensures BooksOk(b) && TreeOk(b.View(), t)
  {
    hide BooksOk, Healthy, TreeOk, PathOk, PageLocal, Sorted;
    PathLast(t, up, level + 1);
    assert up[|up| - 1] in b.dirty;
    assert b.View()[Last(up)] == b.dirty[Last(up)];
    NeighboursTxn(b.View(), t, Last(up), i);
    LiveInView(b.View(), t);
  }

  /** How many nodes the two pages have, and that they fit. */
  lemma PairHealth(b: Books, t: Tree, up: seq<PageNo>, level: nat, p: PageNo, i: nat, lim: Limits, h: Health)
    requires Beside(b, t, up, level, p, i, lim, h) && |up| > 0 && Last(up) in b.dirty && b.dirty[Last(up)].NodePage?
    requires i + 1 < |b.dirty[Last(up)].nodes|
    requires b.dirty[Last(up)].nodes[i].value.Child? && b.dirty[Last(up)].nodes[i + 1].value.Child?
    ensures var ns := b.dirty[Last(up)].nodes;
      var v, l, r := b.View(), ns[i].value.page, ns[i + 1].value.page;
      && l in v && r in v && v[l].NodePage? && v[r].NodePage?
      && PageFull(v[if p == l then r else l])
      && (level > 0 ==> |v[l].nodes| > 0 && |v[r].nodes| > 0)
      && (h.fit ==> PageFits(v[l], lim.pageSize) && PageFits(v[r], lim.pageSize) && PageFits(v[Last(up)], lim.pageSize))
      && Last(up) != p
  {
    hide BooksOk, TreeOk, LocalsOk, PathOk, PageLocal, Sorted, PageFits, BranchOk;
    PairFacts(b, t, up, level, p, i, lim, h);
    var ns := b.dirty[Last(up)].nodes;
    BranchNotEmpty(b.View(), t, ns[i].value.page);
    BranchNotEmpty(b.View(), t, ns[i + 1].value.page);
  }

  lemma BranchNotEmpty(v: Pages, t: Tree, p: PageNo)
    requires TreeOk(v, t) && p in t.frames
    ensures p in v && v[p].NodePage? && (v[p].leaf || |v[p].nodes| > 0)
  {
    assert t.frames[p].level == 0 ==> LeafOk(v[p], t.frames[p], t.entries, t.chains);
  }

  // ---- touching the neighbour ------------------------------------------------------------------------------

  lemma TouchedPages(b: Books, q: PageNo, n: PageNo, parent: PageNo, i: int, pageSize: int, p: PageNo)
    requires BooksOk(b) && MayTake(b, n) && q in b.View() && b.View()[q].NodePage?
    requires parent in b.dirty && b.dirty[parent].NodePage? && 0 <= i < |b.dirty[parent].nodes|
    requires p in b.dirty && p != parent
    ensures var c := TouchBelow(b, q, n, parent, i, pageSize);
      && parent in c.dirty && c.dirty[parent] == Rewired(b.dirty[parent], i, n) && p in c.dirty && c.dirty[p] == b.dirty[p]
      && n in c.dirty && SameBytes(b.View()[q], c.dirty[n]) && |c.dirty[n].history| <= |b.View()[q].history| + 1
      && n !in b.dirty && forall x :: x in b.dirty && x != parent ==> x in c.dirty && c.dirty[x] == b.dirty[x]
  {
    hide BooksOk, MayTake;
    NewPageIsUnreachable(b, n);
  }

  lemma TouchBeside(b: Books, t: Tree, up: seq<PageNo>, level: nat, p: PageNo, i: nat, qi: nat, q: PageNo, n: PageNo,
                    lim: Limits, h: Health)
    requires Beside(b, t, up, level, p, i, lim, h) && MayTake(b, n) && |up| > 0 && Last(up) in b.dirty && b.dirty[Last(up)].NodePage?
    requires (qi == i || qi == i + 1) && qi < |b.dirty[Last(up)].nodes| && b.dirty[Last(up)].nodes[qi].value == Child(q)
    requires q != p && q !in b.dirty && q in b.View() && b.View()[q].NodePage?
    ensures q in t.frames
    ensures var c := TouchBelow(b, q, n, Last(up), qi, lim.pageSize);
      var u := t.(frames := Renamed(t.frames, q, n));
      && Beside(c, u, up, level, p, i, lim, h) && Last(up) in u.frames && u.frames[Last(up)] == t.frames[Last(up)]
      && Last(up) in c.dirty && c.dirty[Last(up)] == Rewired(b.dirty[Last(up)], qi, n) && p in c.dirty && c.dirty[p] == b.dirty[p]
      && n in c.dirty && SameBytes(b.View()[q], c.dirty[n]) && |c.dirty[n].history| <= |b.View()[q].history| + 1
  {
    hide BooksOk, TreeOk, LocalsOk, PathOk, PageLocal, Sorted, FitBut, FullBut, PageFits, MayTake, TouchBelow, SameBytes;
    PairFacts(b, t, up, level, p, i, lim, h);
    PathLast(t, up, level + 1);
    LinkedBelow(b.View(), t, Last(up), qi, q);
    TouchedPages(b, q, n, Last(up), qi, lim.pageSize, p);
    TouchTxn(b, t, {}, q, n, Last(up), qi, lim, {p});
    PathRenamed(t, up, level + 1, q, n, t.root);
    TouchedPath(b, TouchBelow(b, q, n, Last(up), qi, lim.pageSize), up, Last(up));
  }

  lemma TouchedPath(b: Books, c: Books, path: seq<PageNo>, parent: PageNo)
    requires AllDirty(b, path) && parent in c.dirty && c.dirty[parent].NodePage?
    requires forall x :: x in b.dirty && x != parent ==> x in c.dirty && c.dirty[x] == b.dirty[x]
    ensures AllDirty(c, path)
  {
    forall j | 0 <= j < |path| ensures path[j] in c.dirty && c.dirty[path[j]].NodePage? {
      var p := path[j];
      assert p in b.dirty;
      assert p == parent || p in c.dirty;
    }
  }

  // ---- pages with other nodes ------------------------------------------------------------------------------

  ghost predicate SameButNodes(p: Page, q: Page) {
    p.NodePage? && q.NodePage? && q == p.(nodes := q.nodes, upper := q.upper, lower := q.lower)
  }

  lemma IsWith(p: Page, q: Page, lim: Limits)
    requires PageLocal(q, lim) && SameButNodes(p, q)
    ensures q == With(p, q.nodes)
  {
    hide NodesLocal, UpperBytes;
  }

  lemma EditIsSame(p: Page, nd: Node, o: real)
    requires p.NodePage?
    ensures SameButNodes(p, PageInsert(p, nd)) && SameButNodes(p, PageRemove(p, o))
  {
  }

  lemma InsertIsWith(p: Page, nd: Node, i: nat, lim: Limits)
    requires PageLocal(p, lim) && NodeLocal(p.leaf, nd, lim) && i <= |p.nodes| && Sorted(p.nodes[..i] + [nd] + p.nodes[i..])
    ensures PageInsert(p, nd) == With(p, p.nodes[..i] + [nd] + p.nodes[i..]) && PageLocal(PageInsert(p, nd), lim)
  {
    hide NodesLocal, NodeLocal, PageInsert, UpperBytes;
    var ns := p.nodes[..i] + [nd] + p.nodes[i..];
    assert forall j :: 0 <= j < |p.nodes| ==> p.nodes[j] == ns[if j < i then j else j + 1];
    assert ns[i] == nd;
    PageInsertLocal(p, nd, lim, i);
    EditIsSame(p, nd, 0.0);
    IsWith(p, PageInsert(p, nd), lim);
  }

  lemma RemoveIsWith(p: Page, i: nat, lim: Limits)
    requires PageLocal(p, lim) && Sorted(p.nodes) && i < |p.nodes|
    ensures PageRemove(p, p.nodes[i].key.ord) == With(p, p.nodes[..i] + p.nodes[i + 1..])
    ensures PageLocal(PageRemove(p, p.nodes[i].key.ord), lim)
    ensures SpaceUsed(PageRemove(p, p.nodes[i].key.ord)) == SpaceUsed(p) - p.nodes[i].Size() - INDEX_SIZE
  {
    hide NodesLocal, PageRemove, Sorted, UpperBytes;
    PageRemoveLocal(p, lim, i);
    EditIsSame(p, p.nodes[i], p.nodes[i].key.ord);
    IsWith(p, PageRemove(p, p.nodes[i].key.ord), lim);
  }

  // ---- moving a node ---------------------------------------------------------------------------------------

  /** The right page lends its first node. */
  lemma LendLow(l: Page, r: Page, lim: Limits)
    requires PageLocal(l, lim) && PageLocal(r, lim) && l.leaf == r.leaf && Sorted(l.nodes + r.nodes) && |r.nodes| > 1
    ensures var all, si := l.nodes + r.nodes, |l.nodes| + 1;
      && PageInsert(l, r.nodes[0]) == With(l, all[..si]) && PageRemove(r, r.nodes[0].key.ord) == With(r, all[si..])
      && PageLocal(With(l, all[..si]), lim) && PageLocal(With(r, all[si..]), lim)
      && all[si] == r.nodes[1]
  {
    hide NodeLocal, PageInsert, PageRemove, With, UpperBytes;
    var all, si := l.nodes + r.nodes, |l.nodes| + 1;
    assert l.nodes[..|l.nodes|] + [r.nodes[0]] + l.nodes[|l.nodes|..] == all[..si];
    assert r.nodes[..0] + r.nodes[1..] == all[si..];
    assert forall j :: 0 <= j < |r.nodes| ==> r.nodes[j] == all[|l.nodes| + j];
    InsertIsWith(l, r.nodes[0], |l.nodes|, lim);
    RemoveIsWith(r, 0, lim);
  }

  /** The left page lends its last node. */
  lemma LendHigh(l: Page, r: Page, lim: Limits)
    requires PageLocal(l, lim) && PageLocal(r, lim) && l.leaf == r.leaf && Sorted(l.nodes + r.nodes) && |l.nodes| > 1
    ensures var all, si := l.nodes + r.nodes, |l.nodes| - 1;
      && PageInsert(r, l.nodes[si]) == With(r, all[si..]) && PageRemove(l, l.nodes[si].key.ord) == With(l, all[..si])
      && PageLocal(With(l, all[..si]), lim) && PageLocal(With(r, all[si..]), lim)
      && all[si] == l.nodes[si]
  {
    hide NodeLocal, PageInsert, PageRemove, With, UpperBytes;
    var all, si := l.nodes + r.nodes, |l.nodes| - 1;
    assert r.nodes[..0] + [l.nodes[si]] + r.nodes[0..] == all[si..];
    assert l.nodes[..si] + l.nodes[si + 1..] == all[..si];
    assert forall j :: 0 <= j < |l.nodes| ==> l.nodes[j] == all[j];
    InsertIsWith(r, l.nodes[si], 0, lim);
    RemoveIsWith(l, si, lim);
  }

  /** The parent takes another separator for the right page. */
  lemma MoveSeparator(p: Page, i: nat, key: Key, r: PageNo, lim: Limits)
    requires PageLocal(p, lim) && !p.leaf && Sorted(p.nodes) && i + 1 < |p.nodes| && NodeLocal(false, Node(key, Child(r)), lim)
    requires p.nodes[i].key.ord < key.ord && (i + 2 < |p.nodes| ==> key.ord < p.nodes[i + 2].key.ord)
    ensures var top := PageInsert(PageRemove(p, p.nodes[i + 1].key.ord), Node(key, Child(r)));
      && top == With(p, p.nodes[i + 1 := Node(key, Child(r))]) && PageLocal(top, lim)
      && SpaceUsed(top) == SpaceUsed(p) - p.nodes[i + 1].Size() + Node(key, Child(r)).Size()
  {
    hide NodeLocal, NodesLocal, PageInsert, PageRemove, UpperBytes;
    var nd := Node(key, Child(r));
    RemoveIsWith(p, i + 1, lim);
    var q := PageRemove(p, p.nodes[i + 1].key.ord);
    assert q.nodes == p.nodes[..i + 1] + p.nodes[i + 2..];
    var ns := q.nodes[..i + 1] + [nd] + q.nodes[i + 1..];
    assert ns == p.nodes[i + 1 := nd];
    InsertIsWith(q, nd, i + 1, lim);
    InsertUses(q, nd);
  }

  lemma InsertUses(p: Page, nd: Node)
    requires p.NodePage?
    ensures SpaceUsed(PageInsert(p, nd)) == SpaceUsed(p) + nd.Size() + INDEX_SIZE
  {
  }

  /** Three pages are written. */
  function Rewritten(b: Books, l: PageNo, low: Page, r: PageNo, high: Page, parent: PageNo, top: Page): Books {
    Edit(Edit(Edit(b, l, low), r, high), parent, top)
  }

  lemma RewrittenBooks(b: Books, l: PageNo, low: Page, r: PageNo, high: Page, parent: PageNo, top: Page)
    requires BooksOk(b) && l in b.dirty && r in b.dirty && parent in b.dirty && l != r && l != parent && r != parent
    requires SameBooks(b.dirty[l], low) && SameBooks(b.dirty[r], high) && SameBooks(b.dirty[parent], top)
    ensures var c := Rewritten(b, l, low, r, high, parent, top);
      BooksOk(c) && c.View() == b.View()[l := low][r := high][parent := top] && c.work == b.work
  {
    hide BooksOk, SameBooks;
    EditKeepsBooks(b, l, low);
    EditKeepsBooks(Edit(b, l, low), r, high);
    EditKeepsBooks(Edit(Edit(b, l, low), r, high), parent, top);
    assert Rewritten(b, l, low, r, high, parent, top).View() == b.View()[l := low][r := high][parent := top];
  }

  lemma RewrittenIs(b: Books, l: PageNo, low: Page, r: PageNo, high: Page, parent: PageNo, top: Page)
    requires l != r
    ensures Rewritten(b, l, low, r, high, parent, top) == b.(dirty := b.dirty[l := low][r := high][parent := top])
    ensures Rewritten(b, l, low, r, high, parent, top) == b.(dirty := b.dirty[r := high][l := low][parent := top])
  {
    assert b.dirty[l := low][r := high] == b.dirty[r := high][l := low];
  }

  lemma ShiftPair(b: Books, t: Tree, up: seq<PageNo>, level: nat, p: PageNo, i: nat, l: PageNo, r: PageNo, si: int,
                  low: Page, high: Page, top: Page, lim: Limits, h: Health, h': Health)
    requires Beside(b, t, up, level, p, i, lim, h) && |up| > 0 && Last(up) in b.dirty && b.dirty[Last(up)].NodePage?
    requires i + 1 < |b.dirty[Last(up)].nodes|
    requires b.dirty[Last(up)].nodes[i].value == Child(l) && b.dirty[Last(up)].nodes[i + 1].value == Child(r)
    requires l in b.dirty && b.dirty[l].NodePage? && r in b.dirty && b.dirty[r].NodePage?
    requires 0 < si < |b.dirty[l].nodes + b.dirty[r].nodes|
    requires low == With(b.dirty[l], (b.dirty[l].nodes + b.dirty[r].nodes)[..si]) && PageLocal(low, lim) && PageFull(low)
    requires high == With(b.dirty[r], (b.dirty[l].nodes + b.dirty[r].nodes)[si..]) && PageLocal(high, lim) && PageFull(high)
    requires top == With(b.dirty[Last(up)], b.dirty[Last(up)].nodes[i + 1 := Node((b.dirty[l].nodes + b.dirty[r].nodes)[si].key, Child(r))])
    requires PageLocal(top, lim) && h'.full
    requires h'.fit ==> h.fit && PageFits(low, lim.pageSize) && PageFits(high, lim.pageSize) && PageFits(top, lim.pageSize)
    ensures l in t.frames && r in t.frames
    ensures var u := t.(frames := Shifted(t.frames, l, r, (b.dirty[l].nodes + b.dirty[r].nodes)[si].key.ord));
      var c := Rewritten(b, l, low, r, high, Last(up), top);
      TxnOk(c, u, {}, lim) && Healthy(c.View(), u, {}, lim.pageSize, h')
  {
    hide BooksOk, TreeOk, PageLocal, Sorted, PathOk, AllDirty, UpperBytes, PageFits, LocalsOk;
    PairFacts(b, t, up, level, p, i, lim, h);
    var v, parent := b.View(), Last(up);
    assert v[l] == b.dirty[l] && v[r] == b.dirty[r];
    ShiftTxn(b, v, t, {}, parent, i, l, r, si, low, high, top, lim);
    RewrittenBooks(b, l, low, r, high, parent, top);
    ShiftedHealth(v, t, l, r, (v[l].nodes + v[r].nodes)[si].key.ord, parent, low, high, top, p, lim.pageSize, h, h');
  }

  lemma ShiftedHealth(v: Pages, t: Tree, l: PageNo, r: PageNo, sk: real, parent: PageNo, low: Page, high: Page, top: Page,
                      p: PageNo, pageSize: int, h: Health, h': Health)
    requires Healthy(v, t, {p}, pageSize, h) && h.full && l in t.frames && r in t.frames && parent in t.frames && (p == l || p == r)
    requires l != r && l != parent && r != parent && l != t.root && r != t.root
    requires h'.fit ==> h.fit && PageFits(low, pageSize) && PageFits(high, pageSize) && PageFits(top, pageSize)
    requires PageFull(low) && PageFull(high) && PageFull(top)
    ensures Healthy(v[l := low][r := high][parent := top], t.(frames := Shifted(t.frames, l, r, sk)), {}, pageSize, h')
  {
    hide PageFits, PageFull;
  }

  /** The nodes of two neighbours are in order, between the separators of the parent. */
  lemma PairSorted(b: Books, t: Tree, up: seq<PageNo>, level: nat, p: PageNo, i: nat, l: PageNo, r: PageNo, lim: Limits, h: Health)
    requires Beside(b, t, up, level, p, i, lim, h) && |up| > 0 && Last(up) in b.dirty && b.dirty[Last(up)].NodePage?
    requires i + 1 < |b.dirty[Last(up)].nodes|
    requires b.dirty[Last(up)].nodes[i].value == Child(l) && b.dirty[Last(up)].nodes[i + 1].value == Child(r)
    ensures l in b.View() && r in b.View() && b.View()[l].NodePage? && b.View()[r].NodePage?
    ensures var all, ns := b.View()[l].nodes + b.View()[r].nodes, b.dirty[Last(up)].nodes;
      && Sorted(all)
      && forall k :: 0 < k < |all| ==> ns[i].key.ord < all[k].key.ord && (i + 2 < |ns| ==> all[k].key.ord < ns[i + 2].key.ord)
  {
    hide BooksOk, Healthy, TreeOk, PathOk, PageLocal, LocalsOk;
    PairFacts(b, t, up, level, p, i, lim, h);
    var v := b.View();
    LeafSorted(v, t, l);
    LeafSorted(v, t, r);
    LinkedBelow(v, t, Last(up), i, l);
    LinkedBelow(v, t, Last(up), i + 1, r);
    FramesInRange(v, t);
    BetweenSorted(v[l].nodes, t.frames[l], v[r].nodes, t.frames[r]);
  }

  lemma BetweenSorted(a: seq<Node>, f: Frame, b: seq<Node>, g: Frame)
    requires Sorted(a) && Within(a, f) && Sorted(b) && Within(b, g) && f.hi == g.lo && f.lo <= f.hi && g.lo <= g.hi
    ensures Sorted(a + b) && forall k :: 0 < k < |a + b| ==> f.lo < (a + b)[k].key.ord < g.hi
  {
    var all := a + b;
    forall k | 0 <= k < |all| ensures if k < |a| then Covers(f, all[k].key.ord) else Covers(g, all[k].key.ord) {
    }
    forall j, k | 0 <= j < k < |all| ensures all[j].key.ord < all[k].key.ord {
      if j < |a| <= k {
        assert all[j].key.ord < f.hi <= all[k].key.ord;
      }
    }
    forall k | 0 < k < |all| ensures f.lo < all[k].key.ord < g.hi {
      assert all[0].key.ord < all[k].key.ord;
    }
  }

  /** The separator after a move, and when the parent has room for it. */
  lemma NewSeparator(b: Books, t: Tree, up: seq<PageNo>, level: nat, p: PageNo, i: nat, l: PageNo, r: PageNo, si: int,
                     lim: Limits, h: Health)
    requires Beside(b, t, up, level, p, i, lim, h) && |up| > 0 && Last(up) in b.dirty && b.dirty[Last(up)].NodePage?
    requires i + 1 < |b.dirty[Last(up)].nodes|
    requires b.dirty[Last(up)].nodes[i].value == Child(l) && b.dirty[Last(up)].nodes[i + 1].value == Child(r)
    requires l in b.dirty && b.dirty[l].NodePage? && r in b.dirty && b.dirty[r].NodePage?
    requires 0 < si < |b.dirty[l].nodes + b.dirty[r].nodes|
    ensures var parent, key := b.dirty[Last(up)], (b.dirty[l].nodes + b.dirty[r].nodes)[si].key;
      var top := PageInsert(PageRemove(parent, parent.nodes[i + 1].key.ord), Node(key, Child(r)));
      && top == With(parent, parent.nodes[i + 1 := Node(key, Child(r))]) && PageLocal(top, lim)
      && (Uniform(lim) && h.fit ==> PageFits(top, lim.pageSize))
      && (Uniform(lim) ==> |key.data| == |parent.nodes[i + 1].key.data|)
  {
    hide BooksOk, TreeOk, PathOk, Healthy, PageInsert, PageRemove, UpperBytes, LocalsOk;
    PairFacts(b, t, up, level, p, i, lim, h);
    PairHealth(b, t, up, level, p, i, lim, h);
    PairSorted(b, t, up, level, p, i, l, r, lim, h);
    assert b.View()[l] == b.dirty[l] && b.View()[r] == b.dirty[r];
    var all, parent := b.dirty[l].nodes + b.dirty[r].nodes, b.dirty[Last(up)];
    assert NodeLocal(b.dirty[l].leaf, all[si], lim);
    MoveSeparator(parent, i, all[si].key, r, lim);
    EditIsSame(parent, Node(all[si].key, Child(r)), parent.nodes[i + 1].key.ord);
    assert NodeLocal(false, parent.nodes[i + 1], lim) && NodeLocal(false, parent.nodes[i], lim);
    assert parent.nodes[i].key.ord < parent.nodes[i + 1].key.ord;
    assert parent.nodes[i].key.ord >= 0.0 by {
      LinkedBelow(b.View(), t, Last(up), i, l);
      assert RangesOk(t.frames) by {
        FramesInRange(b.View(), t);
      }
    }
  }

  lemma FramesInRange(v: Pages, t: Tree)
    requires TreeOk(v, t)
    ensures RangesOk(t.frames)
  {
  }

  // the two ways to move a node, as the code does them

  /** The separator that a moved node brings: the key now first in the right page. */
  function NewKey(neighbour: Page, first: bool): Key
    requires neighbour.NodePage? && |neighbour.nodes| > 1
  {
    if first then neighbour.nodes[1].key else neighbour.nodes[|neighbour.nodes| - 1].key
  }

  /** The parent has room for what the new separator is longer than the old one. */
  predicate Replaces(pageSize: int, parent: Page, was: Key, now: Key)
    requires parent.NodePage?
  {
    |now.data| - |was.data| <= SpaceLeft(pageSize, parent)
  }

  /** The parent with the new separator in place of the one at k fits exactly when the difference in length fits. */
  lemma NewSeparatorFitsIff(parent: Page, k: nat, key: Key, child: PageNo, pageSize: int)
    requires parent.NodePage? && Sorted(parent.nodes) && k < |parent.nodes| && parent.nodes[k].value.Child?
    ensures PageFits(PageInsert(PageRemove(parent, parent.nodes[k].key.ord), Node(key, Child(child))), pageSize) <==>
      Replaces(pageSize, parent, parent.nodes[k].key, key)
  {
    hide Insert, Remove;
    LowerBoundIs(parent.nodes, parent.nodes[k].key.ord, k);
  }

  lemma MoveFromRight(b: Books, t: Tree, up: seq<PageNo>, level: nat, p: PageNo, i: nat, src: PageNo, lim: Limits, h: Health)
    requires Beside(b, t, up, level, p, i, lim, h) && |up| > 0 && Last(up) in b.dirty && b.dirty[Last(up)].NodePage?
    requires i + 1 < |b.dirty[Last(up)].nodes|
    requires b.dirty[Last(up)].nodes[i].value == Child(p) && b.dirty[Last(up)].nodes[i + 1].value == Child(src)
    requires p in b.dirty && b.dirty[p].NodePage? && src in b.dirty && b.dirty[src].NodePage? && |b.dirty[src].nodes| > 2
    requires SpaceNeededFor(b.dirty[src].nodes[0]) <= SpaceLeft(lim.pageSize, b.dirty[p])
    ensures p in t.frames && src in t.frames && p != src && p != Last(up) && src != Last(up)
    ensures var parent, nd := b.dirty[Last(up)], b.dirty[src].nodes[0];
      var low, high := PageInsert(b.dirty[p], nd), PageRemove(b.dirty[src], nd.key.ord);
      && high.NodePage? && |high.nodes| > 0
      && var top := PageInsert(PageRemove(parent, parent.nodes[i + 1].key.ord), Node(high.nodes[0].key, Child(src)));
      var u := t.(frames := Shifted(t.frames, p, src, high.nodes[0].key.ord));
      var c := Rewritten(b, p, low, src, high, Last(up), top);
      var h' := h.(fit := h.fit && PageFits(top, lim.pageSize));
      && TxnOk(c, u, {}, lim) && Healthy(c.View(), u, {}, lim.pageSize, h') && (Uniform(lim) ==> h' == h)
      && high.nodes[0] == b.dirty[src].nodes[1]
      && (PageFits(top, lim.pageSize) <==> Replaces(lim.pageSize, parent, parent.nodes[i + 1].key, high.nodes[0].key))
  {
    hide BooksOk, TxnOn, PathOk, AllDirty, Healthy, PageInsert, PageRemove, UpperBytes, PageLocal, Sorted, MergeReady, Replaces, PageFits;
    var parent, l, r := b.dirty[Last(up)], b.dirty[p], b.dirty[src];
    PairFacts(b, t, up, level, p, i, lim, h);
    NewSeparatorFitsIff(parent, i + 1, r.nodes[1].key, src, lim.pageSize);
    PairHealth(b, t, up, level, p, i, lim, h);
    PairApart(b, t, up, level, p, i, p, src, lim, h);
    PairSorted(b, t, up, level, p, i, p, src, lim, h);
    assert b.View()[p] == l && b.View()[src] == r;
    LendLow(l, r, lim);
    var all, si := l.nodes + r.nodes, |l.nodes| + 1;
    NewSeparator(b, t, up, level, p, i, p, src, si, lim, h);
    var low, high := PageInsert(l, r.nodes[0]), PageRemove(r, r.nodes[0].key.ord);
    SortedFront(l.nodes, r.nodes);
    MovedFits(l, r.nodes[0], r, 0, lim);
    assert all[si..][0] == all[si];
    EditIsSame(parent, r.nodes[0], parent.nodes[i + 1].key.ord);
    EditIsSame(r, r.nodes[0], r.nodes[0].key.ord);
    var top := PageInsert(PageRemove(parent, parent.nodes[i + 1].key.ord), Node(all[si].key, Child(src)));
    ShiftPair(b, t, up, level, p, i, p, src, si, low, high, top, lim, h, h.(fit := h.fit && PageFits(top, lim.pageSize)));
  }

  lemma MoveFromLeft(b: Books, t: Tree, up: seq<PageNo>, level: nat, p: PageNo, i: nat, src: PageNo, lim: Limits, h: Health)
    requires Beside(b, t, up, level, p, i, lim, h) && |up| > 0 && Last(up) in b.dirty && b.dirty[Last(up)].NodePage?
    requires i + 1 < |b.dirty[Last(up)].nodes|
    requires b.dirty[Last(up)].nodes[i].value == Child(src) && b.dirty[Last(up)].nodes[i + 1].value == Child(p)
    requires p in b.dirty && b.dirty[p].NodePage? && src in b.dirty && b.dirty[src].NodePage? && |b.dirty[src].nodes| > 2
    requires SpaceNeededFor(b.dirty[src].nodes[|b.dirty[src].nodes| - 1]) <= SpaceLeft(lim.pageSize, b.dirty[p])
    ensures p in t.frames && src in t.frames && p != src && p != Last(up) && src != Last(up)
    ensures var parent, nd := b.dirty[Last(up)], b.dirty[src].nodes[|b.dirty[src].nodes| - 1];
      var low, high := PageRemove(b.dirty[src], nd.key.ord), PageInsert(b.dirty[p], nd);
      var top := PageInsert(PageRemove(parent, parent.nodes[i + 1].key.ord), Node(nd.key, Child(p)));
      var u := t.(frames := Shifted(t.frames, src, p, nd.key.ord));
      var c := Rewritten(b, src, low, p, high, Last(up), top);
      var h' := h.(fit := h.fit && PageFits(top, lim.pageSize));
      && TxnOk(c, u, {}, lim) && Healthy(c.View(), u, {}, lim.pageSize, h') && (Uniform(lim) ==> h' == h)
      && (PageFits(top, lim.pageSize) <==> Replaces(lim.pageSize, parent, parent.nodes[i + 1].key, nd.key))
  {
    hide BooksOk, TxnOn, PathOk, AllDirty, Healthy, PageInsert, PageRemove, UpperBytes, PageLocal, Sorted, MergeReady, Replaces, PageFits;
    var parent, l, r := b.dirty[Last(up)], b.dirty[src], b.dirty[p];
    PairFacts(b, t, up, level, p, i, lim, h);
    NewSeparatorFitsIff(parent, i + 1, l.nodes[|l.nodes| - 1].key, p, lim.pageSize);
    PairHealth(b, t, up, level, p, i, lim, h);
    PairApart(b, t, up, level, p, i, src, p, lim, h);
    PairSorted(b, t, up, level, p, i, src, p, lim, h);
    assert b.View()[p] == r && b.View()[src] == l;
    LendHigh(l, r, lim);
    var all, si := l.nodes + r.nodes, |l.nodes| - 1;
    NewSeparator(b, t, up, level, p, i, src, p, si, lim, h);
    var low, high := PageRemove(l, l.nodes[si].key.ord), PageInsert(r, l.nodes[si]);
    SortedFront(l.nodes, r.nodes);
    MovedFits(r, l.nodes[si], l, si, lim);
    EditIsSame(parent, l.nodes[si], parent.nodes[i + 1].key.ord);
    EditIsSame(l, l.nodes[si], l.nodes[si].key.ord);
    EditIsSame(r, l.nodes[si], l.nodes[si].key.ord);
    var top := PageInsert(PageRemove(parent, parent.nodes[i + 1].key.ord), Node(all[si].key, Child(p)));
    ShiftPair(b, t, up, level, p, i, src, p, si, low, high, top, lim, h, h.(fit := h.fit && PageFits(top, lim.pageSize)));
  }

  lemma SortedFront(a: seq<Node>, b: seq<Node>)
    requires Sorted(a + b)
    ensures Sorted(a) && Sorted(b)
  {
    assert forall i :: 0 <= i < |a| ==> a[i] == (a + b)[i];
    assert forall i :: 0 <= i < |b| ==> b[i] == (a + b)[|a| + i];
  }

  lemma PairApart(b: Books, t: Tree, up: seq<PageNo>, level: nat, p: PageNo, i: nat, l: PageNo, r: PageNo, lim: Limits, h: Health)
    requires Beside(b, t, up, level, p, i, lim, h) && |up| > 0 && Last(up) in b.dirty && b.dirty[Last(up)].NodePage?
    requires i + 1 < |b.dirty[Last(up)].nodes|
    requires b.dirty[Last(up)].nodes[i].value == Child(l) && b.dirty[Last(up)].nodes[i + 1].value == Child(r)
    ensures l in t.frames && r in t.frames && l != r && l != Last(up) && r != Last(up) && (p == l || p == r)
    ensures l in b.View() && r in b.View() && b.View()[l].NodePage? && b.View()[r].NodePage?
    ensures b.View()[l].leaf == b.View()[r].leaf && PageLocal(b.View()[l], lim) && PageLocal(b.View()[r], lim)
  {
    hide Beside, BooksOk, TreeOk, PageLocal, Sorted;
    PairFacts(b, t, up, level, p, i, lim, h);
  }

  lemma MovedFits(dst: Page, nd: Node, src: Page, k: nat, lim: Limits)
    requires PageLocal(src, lim) && Sorted(src.nodes) && k < |src.nodes| && nd == src.nodes[k]
    requires dst.NodePage? && SpaceNeededFor(nd) <= SpaceLeft(lim.pageSize, dst) && src.leaf == dst.leaf
    ensures PageFits(PageInsert(dst, nd), lim.pageSize)
    ensures PageFits(src, lim.pageSize) ==> PageFits(PageRemove(src, nd.key.ord), lim.pageSize)
  {
    hide Sorted, PageRemove;
    assert NodeLocal(src.leaf, nd, lim);
    RemoveIsWith(src, k, lim);
  }

  // ---- merging ---------------------------------------------------------------------------------------------

  /** The parent forgets one of two neighbours; the other, d, goes under the lower key. */
  function UnlinkedPage(p: Page, i: nat, d: PageNo): Page
    requires p.NodePage? && i + 1 < |p.nodes|
  {
    var q := PageRemove(p, p.nodes[i + 1].key.ord);
    if p.nodes[i].value == Child(d) then q
    else PageInsert(PageRemove(q, p.nodes[i].key.ord), Node(p.nodes[i].key, Child(d)))
  }

  lemma UnlinkPage(p: Page, i: nat, d: PageNo, lim: Limits)
    requires PageLocal(p, lim) && Sorted(p.nodes) && !p.leaf && i + 1 < |p.nodes| && p.nodes[i].value.Child?
    ensures var top := UnlinkedPage(p, i, d);
      && top == With(p, Unlinked(p.nodes, i, d)) && PageLocal(top, lim) && SameBooks(p, top)
      && (PageFits(p, lim.pageSize) ==> PageFits(top, lim.pageSize))
  {
    hide PageInsert, PageRemove, Sorted, NodesLocal, UpperBytes;
    var ns := p.nodes;
    RemoveIsWith(p, i + 1, lim);
    var q := PageRemove(p, ns[i + 1].key.ord);
    assert q.nodes == ns[..i + 1] + ns[i + 2..];
    if ns[i].value == Child(d) {
      assert ns[i] == Node(ns[i].key, Child(d));
      assert q.nodes == Unlinked(ns, i, d);
    } else {
      UnlinkAgain(p, q, i, d, lim);
    }
  }

  lemma UnlinkAgain(p: Page, q: Page, i: nat, d: PageNo, lim: Limits)
    requires PageLocal(p, lim) && Sorted(p.nodes) && !p.leaf && i + 1 < |p.nodes| && p.nodes[i].value.Child?
    requires PageLocal(q, lim) && q == With(p, p.nodes[..i + 1] + p.nodes[i + 2..]) && SpaceUsed(q) <= SpaceUsed(p)
    ensures var top := PageInsert(PageRemove(q, p.nodes[i].key.ord), Node(p.nodes[i].key, Child(d)));
      && top == With(p, Unlinked(p.nodes, i, d)) && PageLocal(top, lim) && SpaceUsed(top) <= SpaceUsed(p)
  {
    hide PageInsert, PageRemove, UpperBytes;
    var ns, nd := p.nodes, Node(p.nodes[i].key, Child(d));
    assert NodeLocal(false, ns[i], lim);
    RemoveIsWith(q, i, lim);
    var q2 := PageRemove(q, ns[i].key.ord);
    assert q2.nodes == ns[..i] + ns[i + 2..];
    var r := q2.nodes[..i] + [nd] + q2.nodes[i..];
    assert r == Unlinked(ns, i, d);
    assert forall j :: 0 <= j < |r| ==> r[j].key == ns[if j <= i then j else j + 1].key;
    InsertIsWith(q2, nd, i, lim);
    InsertUses(q2, nd);
  }

  lemma MergePair(b: Books, t: Tree, up: seq<PageNo>, level: nat, p: PageNo, i: nat, l: PageNo, r: PageNo, d: PageNo,
                  page: Page, top: Page, o: real, lim: Limits, h: Health)
    requires Beside(b, t, up, level, p, i, lim, h) && |up| > 0 && Last(up) in b.dirty && b.dirty[Last(up)].NodePage?
    requires i + 1 < |b.dirty[Last(up)].nodes|
    requires b.dirty[Last(up)].nodes[i].value == Child(l) && b.dirty[Last(up)].nodes[i + 1].value == Child(r)
    requires (d == l || d == r) && d in b.dirty && b.dirty[d].NodePage? && l in b.View() && r in b.View()
    requires b.View()[l].NodePage? && b.View()[r].NodePage?
    requires page == With(b.dirty[d], b.View()[l].nodes + b.View()[r].nodes)
    requires SpaceUsed(b.View()[if d == l then r else l]) <= SpaceLeft(lim.pageSize, b.dirty[d])
    requires top == UnlinkedPage(b.dirty[Last(up)], i, d)
    requires Last(up) in t.frames && Covers(t.frames[Last(up)], o)
    ensures l in t.frames && r in t.frames
    ensures var u := t.(frames := Joined(t.frames, l, r, d));
      var c := Edit(Edit(b, d, page), Last(up), top);
      && OpenTo(c, u, up, level + 1, {}, o, lim, h) && (if d == l then r else l) !in u.Live() && d != Last(up)
  {
    hide BooksOk, TreeOk, LocalsOk, PathOk, PageLocal, Sorted, PageFits, UnlinkedPage, Healthy, AllDirty, Joined, PageFull;
    var v, parent := b.View(), Last(up);
    PairFacts(b, t, up, level, p, i, lim, h);
    PairHealth(b, t, up, level, p, i, lim, h);
    assert v[d] == b.dirty[d];
    UnlinkPage(b.dirty[parent], i, d, lim);
    JoinedPage(b.dirty[d], v[l], v[r], page, d == l, lim);
    MergeTxn(b, v, t, {}, parent, i, l, r, d, page, top, lim);
    TwoEdits(b, d, page, parent, top);
    MergedHealth(v, t, l, r, d, p, page, parent, top, lim.pageSize, h);
    MergedPath(b, t, up, level, l, r, d, page, top, o);
    JoinedFrames(t, l, r, d);
    LiveInView(v, t);
  }

  lemma JoinedFrames(t: Tree, l: PageNo, r: PageNo, d: PageNo)
    requires l in t.frames && r in t.frames && l != r && (d == l || d == r)
    ensures Joined(t.frames, l, r, d).Keys == t.frames.Keys - {if d == l then r else l}
  {
  }

  lemma JoinedPage(p: Page, a: Page, b: Page, page: Page, low: bool, lim: Limits)
    requires PageLocal(a, lim) && PageLocal(b, lim) && a.leaf == b.leaf && p == (if low then a else b)
    requires page == With(p, a.nodes + b.nodes)
    requires SpaceUsed(if low then b else a) <= SpaceLeft(lim.pageSize, p)
    requires !a.leaf ==> |a.nodes| > 0 && |b.nodes| > 0
    requires PageFull(a) || PageFull(b)
    ensures PageLocal(page, lim) && PageFits(page, lim.pageSize) && PageFull(page) && SameBooks(p, page)
  {
    hide UpperBytes, NodeLocal;
    UpperBytesConcat(a.nodes, b.nodes);
  }

  lemma TwoEdits(b: Books, d: PageNo, page: Page, parent: PageNo, top: Page)
    requires BooksOk(b) && d in b.dirty && parent in b.dirty && d != parent
    requires SameBooks(b.dirty[d], page) && SameBooks(b.dirty[parent], top)
    ensures var c := Edit(Edit(b, d, page), parent, top);
      BooksOk(c) && c.View() == b.View()[d := page][parent := top] && c.work == b.work
  {
    hide BooksOk, SameBooks;
    EditKeepsBooks(b, d, page);
    EditKeepsBooks(Edit(b, d, page), parent, top);
    assert Edit(Edit(b, d, page), parent, top).View() == b.View()[d := page][parent := top];
  }

  lemma MergedHealth(v: Pages, t: Tree, l: PageNo, r: PageNo, d: PageNo, p: PageNo, page: Page, parent: PageNo, top: Page,
                     pageSize: int, h: Health)
    requires Healthy(v, t, {p}, pageSize, h) && l in t.frames && r in t.frames && l != r && (p == l || p == r) && (d == l || d == r)
    requires parent != l && parent != r && l != t.root && r != t.root && PageFits(page, pageSize) && PageFull(page)
    ensures Healthy(v[d := page][parent := top], t.(frames := Joined(t.frames, l, r, d)), {parent}, pageSize, h)
  {
    hide PageFits, PageFull;
  }

  /** The way down to the parent stays. */
  lemma MergedPath(b: Books, t: Tree, up: seq<PageNo>, level: nat, l: PageNo, r: PageNo, d: PageNo, page: Page, top: Page, o: real)
    requires PathOk(t, up, level + 1) && AllDirty(b, up) && l in t.frames && r in t.frames && (d == l || d == r)
    requires t.frames[l].level == t.frames[r].level == level && page.NodePage? && top.NodePage?
    requires Covers(t.frames[Last(up)], o)
    ensures var u := t.(frames := Joined(t.frames, l, r, d));
      && PathOk(u, up, level + 1) && AllDirty(Edit(Edit(b, d, page), Last(up), top), up)
      && Last(up) in u.frames && Covers(u.frames[Last(up)], o)
  {
    forall j | 0 <= j < |up| ensures up[j] in t.frames && up[j] != l && up[j] != r && up[j] in b.dirty && b.dirty[up[j]].NodePage? {
      var q := up[j];
      assert q in t.frames && t.frames[q].level > level;
    }
  }

  /** removeFromTree on the page that was merged away. */
  lemma DropMerged(b: Books, t: Tree, path: seq<PageNo>, level: nat, o: real, lim: Limits, h: Health, p: PageNo)
    requires OpenTo(b, t, path, level, {}, o, lim, h) && p !in t.Live() && p in b.dirty && b.dirty[p].NodePage?
    ensures OpenTo(RemoveFromTree(b, p), t, path, level, {}, o, lim, h)
  {
    hide TxnOn, Healthy, PathOk, BooksOk;
    OpenPage(b, t, path, level, {}, o, lim, h);
    RemovePageTxn(b, t, {}, p, lim);
    var c := RemoveFromTree(b, p);
    SameHealth(b.View(), c.View(), t, {Last(path)}, lim.pageSize, h);
    PathFrames(t, path, level);
    forall j | 0 <= j < |path| ensures path[j] in c.dirty && c.dirty[path[j]].NodePage? {
      var q := path[j];
      assert q in t.frames && q in b.dirty;
    }
  }

  lemma PathFrames(t: Tree, path: seq<PageNo>, level: nat)
    requires PathOk(t, path, level)
    ensures forall j :: 0 <= j < |path| ==> path[j] in t.frames
  {
  }

  lemma LiveHistory(b: Books, t: Tree, q: PageNo, lim: Limits)
    requires TxnOk(b, t, {}, lim) && q in t.frames && q in b.View() && b.View()[q].NodePage?
    ensures |b.View()[q].history| <= 3
  {
    hide TreeOk, LocalsOk;
    if q in b.dirty {
      assert IdsOk(b.dirty[q], b.lastSyncedId, b.revision, b.revision + 1, 3);
    } else {
      assert IdsOk(b.disk[q], b.lastSyncedId, b.revision, b.revision, 2);
    }
  }

  /** With keys of one length a page too empty can always borrow a node or be merged. */
  lemma MergePossible(page: Page, q: Page, lim: Limits)
    requires PageLocal(page, lim) && PageLocal(q, lim) && |page.history| <= 3 && |q.history| <= 3
    requires lim.pageSize >= MIN_PAGE_SIZE && Uniform(lim)
    requires !WellFilled(lim.pageSize, page) && (!WellFilled(lim.pageSize, q) || |q.nodes| <= 2)
    ensures SpaceLeft(lim.pageSize, q) >= SpaceUsed(page) + HISTORY_NODE_SIZE * (|page.history| + 1)
  {
    forall j | 0 <= j < |q.nodes| ensures q.nodes[j].Size() + INDEX_SIZE <= 1484 {
      assert NodeLocal(q.leaf, q.nodes[j], lim);
    }
    BytesAtMost(q.nodes, 1484);
  }

  lemma BorrowPossible(page: Page, q: Page, k: nat, lim: Limits)
    requires page.NodePage? && PageLocal(q, lim) && |page.history| <= 3 && k < |q.nodes| && lim.pageSize >= MIN_PAGE_SIZE
    requires !WellFilled(lim.pageSize, page)
    ensures SpaceNeededFor(q.nodes[k]) <= SpaceLeft(lim.pageSize, page)
  {
    assert NodeLocal(q.leaf, q.nodes[k], lim);
  }

  // ---- the steps as mergePages does them -------------------------------------------------------------------

  /** The nodes of a page into which the first k nodes of a neighbour were put. */
  function MergedNodes(ns: seq<Node>, more: seq<Node>, k: nat, above: bool): seq<Node>
    requires k <= |more|
  {
    if above then ns + more[..k] else more[..k] + ns
  }

  lemma MergeStep(p: Page, more: seq<Node>, k: nat, above: bool, lim: Limits)
    requires p.NodePage? && k < |more| && NodesLocal(p.leaf, p.nodes, lim) && NodesLocal(p.leaf, more, lim)
    requires Sorted(MergedNodes(p.nodes, more, |more|, above))
    ensures PageInsert(With(p, MergedNodes(p.nodes, more, k, above)), more[k]) == With(p, MergedNodes(p.nodes, more, k + 1, above))
    ensures With(p, MergedNodes(p.nodes, more, k + 1, above)).NodePage?
  {
    hide NodeLocal, PageInsert, UpperBytes;
    var q := With(p, MergedNodes(p.nodes, more, k, above));
    WithLocal(p, MergedNodes(p.nodes, more, k, above), lim);
    var i := if above then |p.nodes| + k else k;
    assert more[..|more|] == more && more[..k + 1] == more[..k] + [more[k]];
    assert q.nodes[..i] + [more[k]] + q.nodes[i..] == MergedNodes(p.nodes, more, k + 1, above);
    SortedPart(p.nodes, more, k + 1, above);
    InsertIsWith(q, more[k], i, lim);
  }

  lemma MergeStart(p: Page, more: seq<Node>, above: bool, lim: Limits)
    requires PageLocal(p, lim)
    ensures With(p, MergedNodes(p.nodes, more, 0, above)) == p
  {
    assert MergedNodes(p.nodes, more, 0, above) == p.nodes;
  }

  lemma SortedPart(ns: seq<Node>, more: seq<Node>, k: nat, above: bool)
    requires k <= |more| && Sorted(MergedNodes(ns, more, |more|, above))
    ensures Sorted(MergedNodes(ns, more, k, above))
  {
    var all, part := MergedNodes(ns, more, |more|, above), MergedNodes(ns, more, k, above);
    forall i, j | 0 <= i < j < |part| ensures part[i].key.ord < part[j].key.ord {
      var d := |more| - k;
      var i0, j0 := if above || i < k then i else i + d, if above || j < k then j else j + d;
      assert part[i] == all[i0] && part[j] == all[j0];
    }
  }

  lemma RewiredSame(p: Page, i: nat, n: PageNo)
    requires p.NodePage? && i < |p.nodes| && p.nodes[i].value == Child(n)
    ensures Rewired(p, i, n) == p
  {
    assert p.nodes[i].(value := Child(n)) == p.nodes[i];
  }

  lemma PairInDisk(b: Books, t: Tree, q: PageNo, lim: Limits)
    requires TxnOk(b, t, {}, lim) && q in t.frames
    ensures q in b.View() && b.View()[q].NodePage? && q in b.work.live && BooksOk(b)
    ensures q !in b.dirty ==> q in b.disk && b.disk[q] == b.View()[q]
  {
    hide BooksOk, LocalsOk, TreeOk;
    LiveInView(b.View(), t);
  }

  lemma BesideTxn(b: Books, t: Tree, up: seq<PageNo>, level: nat, p: PageNo, i: nat, lim: Limits, h: Health)
    requires Beside(b, t, up, level, p, i, lim, h)
    ensures TxnOk(b, t, {}, lim) && p in b.dirty && b.dirty[p].NodePage? && h.full
    ensures |up| > 0 && Last(up) in t.frames && Last(up) in b.dirty && b.dirty[Last(up)].NodePage?
  {
    hide TxnOk, Healthy, PathOk;
    PathLast(t, up, level + 1);
    var parent := up[|up| - 1];
    assert parent in b.dirty;
  }

  /** Two neighbours can be merged into d: the nodes come in order and d has room for them. */
  lemma MergeInOrder(b: Books, t: Tree, up: seq<PageNo>, level: nat, p: PageNo, i: nat, l: PageNo, r: PageNo, d: PageNo,
                     lim: Limits, h: Health)
    requires Beside(b, t, up, level, p, i, lim, h) && |up| > 0 && Last(up) in b.dirty && b.dirty[Last(up)].NodePage?
    requires i + 1 < |b.dirty[Last(up)].nodes| && (d == l || d == r) && d in b.dirty
    requires b.dirty[Last(up)].nodes[i].value == Child(l) && b.dirty[Last(up)].nodes[i + 1].value == Child(r)
    ensures l in b.View() && r in b.View() && b.View()[l].NodePage? && b.View()[r].NodePage? && l != r && l != Last(up) && r != Last(up)
    ensures b.View()[d] == b.dirty[d]
    ensures var from := if d == l then b.View()[r] else b.View()[l];
      && NodesLocal(b.dirty[d].leaf, b.dirty[d].nodes, lim) && NodesLocal(b.dirty[d].leaf, from.nodes, lim)
      && MergedNodes(b.dirty[d].nodes, from.nodes, |from.nodes|, d == l) == b.View()[l].nodes + b.View()[r].nodes
      && Sorted(b.View()[l].nodes + b.View()[r].nodes)
  {
    hide Beside, BooksOk, TreeOk, Sorted, UpperBytes, NodesLocal;
    PairApart(b, t, up, level, p, i, l, r, lim, h);
    PairSorted(b, t, up, level, p, i, l, r, lim, h);
    assert b.View()[d] == b.dirty[d];
    var from := if d == l then b.View()[r] else b.View()[l];
    assert from.nodes[..|from.nodes|] == from.nodes;
  }

  // ---- what rebalance decides on ---------------------------------------------------------------------------

  /** The check that the parent has room for the key that is moved. It looks at this key even where the parent will
      take the next one. */
  function CanUpdate(pageSize: int, parent: Page, separator: Key, source: Key): bool
    requires parent.NodePage?
  {
    |source.data| <= |separator.data| || |source.data| - |separator.data| <= SpaceLeft(pageSize, parent)
  }

  /** The check of rebalance is right about the key it looks at: it holds exactly when the parent still fits with that key as the
      separator. */
  lemma CanUpdateIff(parent: Page, k: nat, key: Key, child: PageNo, pageSize: int)
    requires parent.NodePage? && Sorted(parent.nodes) && k < |parent.nodes| && parent.nodes[k].value.Child?
    requires PageFits(parent, pageSize)
    ensures CanUpdate(pageSize, parent, parent.nodes[k].key, key) <==>
      PageFits(PageInsert(PageRemove(parent, parent.nodes[k].key.ord), Node(key, Child(child))), pageSize)
  {
    NewSeparatorFitsIff(parent, k, key, child, pageSize);
  }

  /** The node a neighbour would lend. */
  function SourceNode(neighbour: Page, first: bool): Node
    requires neighbour.NodePage? && |neighbour.nodes| > 0
  {
    neighbour.nodes[if first then 0 else |neighbour.nodes| - 1]
  }

  /** With keys of one length a page that is too empty can always be put right. */
  lemma NeverStuck(b: Books, t: Tree, up: seq<PageNo>, level: nat, p: PageNo, i: nat, lim: Limits, h: Health, first: bool)
    requires Beside(b, t, up, level, p, i, lim, h) && |up| > 0 && Last(up) in b.dirty && b.dirty[Last(up)].NodePage?
    requires i + 1 < |b.dirty[Last(up)].nodes| && lim.pageSize >= MIN_PAGE_SIZE && Uniform(lim)
    requires b.dirty[Last(up)].nodes[if first then i else i + 1].value == Child(p)
    requires b.dirty[Last(up)].nodes[if first then i + 1 else i].value.Child?
    requires p in b.dirty && b.dirty[p].NodePage? && !WellFilled(lim.pageSize, b.dirty[p])
    ensures var q := b.dirty[Last(up)].nodes[if first then i + 1 else i].value.page;
      && q in b.View() && b.View()[q].NodePage?
      && var neighbour := b.View()[q];
      && (|neighbour.nodes| > 2 ==>
            && SpaceNeededFor(SourceNode(neighbour, first)) <= SpaceLeft(lim.pageSize, b.dirty[p])
            && CanUpdate(lim.pageSize, b.dirty[Last(up)], b.dirty[Last(up)].nodes[i + 1].key, SourceNode(neighbour, first).key))
      && (!(WellFilled(lim.pageSize, neighbour) && |neighbour.nodes| > 2) ==>
            SpaceLeft(lim.pageSize, neighbour) >= SpaceUsed(b.dirty[p]) + HISTORY_NODE_SIZE * (|b.dirty[p].history| + 1))
  {
    hide TxnOn, Healthy, PathOk, WellFilled, PageLocal, SpaceLeft, TreeOk, BooksOk;
    var ns := b.dirty[Last(up)].nodes;
    var q := ns[if first then i + 1 else i].value.page;
    var l, r := if first then p else q, if first then q else p;
    PairFacts(b, t, up, level, p, i, lim, h);
    PairApart(b, t, up, level, p, i, l, r, lim, h);
    BesideTxn(b, t, up, level, p, i, lim, h);
    LiveHistory(b, t, q, lim);
    ShortHistory(b, p);
    var neighbour := b.View()[q];
    assert b.View()[p] == b.dirty[p];
    if |neighbour.nodes| > 2 {
      BorrowPossible(b.dirty[p], neighbour, if first then 0 else |neighbour.nodes| - 1, lim);
      UniformKeys(b.dirty[Last(up)], t.frames[Last(up)], i, neighbour, if first then 0 else |neighbour.nodes| - 1, lim) by {
        FramesInRange(b.View(), t);
        LeafSorted(b.View(), t, Last(up));
      }
    }
    if !(WellFilled(lim.pageSize, neighbour) && |neighbour.nodes| > 2) {
      MergePossible(b.dirty[p], neighbour, lim);
    }
  }

  lemma UniformKeys(parent: Page, f: Frame, i: nat, page: Page, k: nat, lim: Limits)
    requires PageLocal(parent, lim) && !parent.leaf && Sorted(parent.nodes) && Within(parent.nodes, f) && f.lo >= 0.0
    requires i + 1 < |parent.nodes| && PageLocal(page, lim) && k < |page.nodes| && Uniform(lim)
    ensures |page.nodes[k].key.data| <= |parent.nodes[i + 1].key.data|
  {
    assert NodeLocal(page.leaf, page.nodes[k], lim) && NodeLocal(false, parent.nodes[i + 1], lim);
    assert Covers(f, parent.nodes[i].key.ord) && parent.nodes[i].key.ord < parent.nodes[i + 1].key.ord;
  }

  /** A page that cannot be put right stays as it is. */
  lemma GivesUp(b: Books, t: Tree, path: seq<PageNo>, level: nat, o: real, lim: Limits, h: Health)
    requires OpenTo(b, t, path, level, {}, o, lim, h) && |path| > 0 && Last(path) in b.dirty && b.dirty[Last(path)].NodePage?
    ensures var h' := h.(full := h.full && PageFull(b.dirty[Last(path)]));
      TxnOk(b, t, {}, lim) && Healthy(b.View(), t, {}, lim.pageSize, h')
  {
    hide TxnOk, PathOk, PageFull, PageFits;
    var h' := h.(full := h.full && PageFull(b.dirty[Last(path)]));
    assert OpenTo(b, t, path, level, {}, o, lim, h');
    Settles(b, t, path, level, o, lim, h');
  }

  /** Page p and its neighbour as children of the parent. */
  lemma PairReady(b: Books, t: Tree, up: seq<PageNo>, level: nat, p: PageNo, i: nat, lim: Limits, h: Health, first: bool)
    requires Beside(b, t, up, level, p, i, lim, h) && |up| > 0 && Last(up) in b.dirty && b.dirty[Last(up)].NodePage?
    requires i + 1 < |b.dirty[Last(up)].nodes| && b.dirty[Last(up)].nodes[if first then i else i + 1].value == Child(p)
    ensures Last(up) in t.frames && p in t.frames && p in b.View() && b.View()[p] == b.dirty[p] && b.dirty[p].NodePage?
    ensures var val := b.dirty[Last(up)].nodes[if first then i + 1 else i].value;
      && val.Child? && val.page != p && val.page in t.frames && val.page in b.View() && b.View()[val.page].NodePage?
  {
    hide TxnOk, Healthy, PathOk, BooksOk, TreeOk, PageLocal, Sorted;
    BesideTxn(b, t, up, level, p, i, lim, h);
    PairFacts(b, t, up, level, p, i, lim, h);
    assert b.View()[p] == b.dirty[p];
  }

  // ---- what is done about a page -----------------------------------------------------------------------------

  /** A page is left as it is, or it gets another range of keys: with a node of its neighbour, or with all of them. */
  datatype Remedy = LeaveIt | Borrow(range: Frame) | Join(range: Frame)

  /** The page, its neighbour on the right if the page is the first child, otherwise on the left, and their parent. */
  ghost predicate HasNeighbour(b: Books, t: Tree, path: seq<PageNo>, o: real) {
    && |path| > 1 && Last(path) in b.dirty && b.dirty[Last(path)].NodePage? && Last(path) in t.frames
    && Last(Front(path)) in b.dirty && b.dirty[Last(Front(path))].NodePage?
    && var ns := b.dirty[Last(Front(path))].nodes;
    var j := ChildIndex(ns, o);
    && 0 <= j < |ns| && |ns| > 1
    && var val := ns[if j == 0 then 1 else j - 1].value;
    val.Child? && val.page in b.View() && b.View()[val.page].NodePage? && val.page in t.frames
  }

  /** A page filled up to the threshold or less borrows a node if its neighbour is filled above the threshold and has more than
      two, it has room for it, and so has the parent for the separator. If the neighbour has none to spare, or the page no room,
      the two become one if they fit on one page with the histories. */
  ghost function RemedyFor(pageSize: int, parent: Page, separator: Key, page: Page, neighbour: Page, first: bool, f: Frame, g: Frame): Remedy
    requires parent.NodePage? && page.NodePage? && neighbour.NodePage?
  {
    if WellFilled(pageSize, page) then LeaveIt
    else if WellFilled(pageSize, neighbour) && |neighbour.nodes| > 2
            && SpaceNeededFor(SourceNode(neighbour, first)) <= SpaceLeft(pageSize, page)
    then
      if CanUpdate(pageSize, parent, separator, SourceNode(neighbour, first).key) then Borrow(Lent(f, neighbour, first)) else LeaveIt
    else if (first && MergeFits(pageSize, page, neighbour)) || MergeFits(pageSize, neighbour, page)
    then Join(if first then Frame(f.lo, g.hi, f.level) else Frame(g.lo, f.hi, f.level))
    else LeaveIt
  }

  ghost function RemedyAt(b: Books, t: Tree, path: seq<PageNo>, o: real, pageSize: int): Remedy
    requires HasNeighbour(b, t, path, o)
  {
    var page, parent := b.dirty[Last(path)], b.dirty[Last(Front(path))];
    var j := ChildIndex(parent.nodes, o);
    var q := parent.nodes[if j == 0 then 1 else j - 1].value.page;
    RemedyFor(pageSize, parent, parent.nodes[if j == 0 then 1 else j].key, page, b.View()[q], j == 0, t.frames[Last(path)], t.frames[q])
  }

  /** Nothing was done if there is no remedy; otherwise a page has the range that it leads to. */
  ghost predicate Remedied(m: Remedy, b: Books, t: Tree, c: Books, u: Tree) {
    if m.LeaveIt? then c == b && u == t else HasRange(u.frames, m.range)
  }

  /** What becomes of the root: without nodes it goes, a branch with one child gives way to it, any other stays. */
  ghost predicate RootSettled(page: Page, b: Books, t: Tree, c: Books, u: Tree)
    requires page.NodePage?
  {
    if |page.nodes| == 0 then u.root == INVALID_PAGE && t.root !in c.dirty
    else if !page.leaf && |page.nodes| == 1 then page.nodes[0].value == Child(u.root) && t.root !in c.dirty
    else c == b && u == t
  }

  /** The range of a page after it got the first node of the page on its right, or the last of that on its left. */
  ghost function Lent(f: Frame, neighbour: Page, first: bool): Frame
    requires neighbour.NodePage? && |neighbour.nodes| > 1
  {
    if first then f.(hi := NewKey(neighbour, first).ord) else f.(lo := NewKey(neighbour, first).ord)
  }

  /** A page has room for the nodes of another and one more history node. */
  predicate MergeFits(pageSize: int, into: Page, from: Page)
    requires into.NodePage? && from.NodePage?
  {
    SpaceLeft(pageSize, into) >= SpaceUsed(from) + HISTORY_NODE_SIZE * (|from.history| + 1)
  }

  ghost predicate HasRange(fr: Frames, f: Frame) {
    exists p :: p in fr && fr[p] == f
  }

  /** The pages below a level have the same ranges. */
  ghost predicate SameRanges(fr: Frames, gr: Frames, level: nat) {
    forall f: Frame :: f.level < level ==> (HasRange(fr, f) <==> HasRange(gr, f))
  }

  lemma RenamedSame(fr: Frames, p: PageNo, n: PageNo, level: nat)
    requires p in fr && n !in fr
    ensures SameRanges(fr, Renamed(fr, p, n), level) && n in Renamed(fr, p, n) && Renamed(fr, p, n)[n] == fr[p]
  {
    var gr := Renamed(fr, p, n);
    forall f: Frame | HasRange(fr, f) ensures HasRange(gr, f) {
      var q :| q in fr && fr[q] == f;
      assert gr[if q == p then n else q] == f;
    }
    forall f: Frame | HasRange(gr, f) ensures HasRange(fr, f) {
      var q :| q in gr && gr[q] == f;
      assert fr[if q == n then p else q] == f;
    }
  }

  lemma ShiftedSame(fr: Frames, a: PageNo, b: PageNo, sk: real, level: nat)
    requires a in fr && b in fr && a != b && fr[a].level == fr[b].level == level
    ensures SameRanges(fr, Shifted(fr, a, b, sk), level)
    ensures HasRange(Shifted(fr, a, b, sk), fr[a].(hi := sk)) && HasRange(Shifted(fr, a, b, sk), fr[b].(lo := sk))
  {
    var gr := Shifted(fr, a, b, sk);
    forall f: Frame | f.level < level && HasRange(fr, f) ensures HasRange(gr, f) {
      var q :| q in fr && fr[q] == f;
      assert gr[q] == f;
    }
    assert gr[a] == fr[a].(hi := sk) && gr[b] == fr[b].(lo := sk);
  }

  lemma JoinedSame(fr: Frames, a: PageNo, b: PageNo, dst: PageNo, level: nat)
    requires a in fr && b in fr && (dst == a || dst == b) && fr[a].level == fr[b].level == level
    ensures SameRanges(fr, Joined(fr, a, b, dst), level) && HasRange(Joined(fr, a, b, dst), Frame(fr[a].lo, fr[b].hi, level))
  {
    var gr := Joined(fr, a, b, dst);
    forall f: Frame | f.level < level && HasRange(fr, f) ensures HasRange(gr, f) {
      var q :| q in fr && fr[q] == f;
      assert gr[q] == f;
    }
    assert gr[dst] == Frame(fr[a].lo, fr[b].hi, level);
  }

  lemma StillThere(fr: Frames, gr: Frames, level: nat, f: Frame)
    requires SameRanges(fr, gr, level) && f.level < level && HasRange(fr, f)
    ensures HasRange(gr, f)
  {
  }

  lemma SameOnward(fr: Frames, gr: Frames, hr: Frames, level: nat, above: nat)
    requires SameRanges(fr, gr, level) && SameRanges(gr, hr, above) && level <= above
    ensures SameRanges(fr, hr, level)
  {
  }

  lemma SameSelf(fr: Frames, level: nat)
    ensures SameRanges(fr, fr, level)
  {
  }

  /** Page p is one of the two neighbours; the pages of both have their level. */
  lemma BesideLevels(b: Books, t: Tree, up: seq<PageNo>, level: nat, p: PageNo, i: nat, lim: Limits, h: Health)
    requires Beside(b, t, up, level, p, i, lim, h)
    ensures |up| > 0 && Last(up) in b.dirty && b.dirty[Last(up)].NodePage?
    ensures var ns := b.dirty[Last(up)].nodes;
      && i + 1 < |ns| && ns[i].value.Child? && ns[i + 1].value.Child?
      && var l, r := ns[i].value.page, ns[i + 1].value.page;
      && l in t.frames && r in t.frames && l != r && (p == l || p == r)
      && t.frames[l].level == t.frames[r].level == level
  {
    hide Healthy, PathOk, TreeOk, PageLocal, BooksOk;
    PairFacts(b, t, up, level, p, i, lim, h);
  }

  /** Touching the neighbour changes no ranges. */
  lemma TouchRanges(b: Books, t: Tree, up: seq<PageNo>, level: nat, p: PageNo, i: nat, q: PageNo, n: PageNo, lim: Limits, h: Health)
    requires Beside(b, t, up, level, p, i, lim, h) && MayTake(b, n) && q in t.frames && q != p
    ensures n !in t.frames && p in t.frames && p in Renamed(t.frames, q, n) && Renamed(t.frames, q, n)[p] == t.frames[p]
    ensures SameRanges(t.frames, Renamed(t.frames, q, n), level)
    ensures n in Renamed(t.frames, q, n) && Renamed(t.frames, q, n)[n] == t.frames[q]
  {
    hide Healthy, PathOk, TreeOk, BooksOk, MayTake, SameRanges;
    BesideTxn(b, t, up, level, p, i, lim, h);
    BesideLevels(b, t, up, level, p, i, lim, h);
    TxnBooks(b, t, {}, lim);
    NewPageIsUnreachable(b, n);
    RenamedSame(t.frames, q, n, level);
  }

  lemma FullRootStays(page: Page, b: Books, t: Tree)
    requires PageFull(page)
    ensures RootSettled(page, b, t, b, t)
  {
  }

  lemma RootRanges(b: Books, t: Tree, path: seq<PageNo>, level: nat, o: real, lim: Limits, h: Health)
    requires OpenTo(b, t, path, level, {}, o, lim, h) && |path| == 1
    ensures path[0] == t.root && path[0] in b.dirty && b.dirty[path[0]].NodePage?
    ensures SameRanges(t.frames, t.frames - {path[0]}, level)
    ensures b.dirty[path[0]].nodes == [] ==> SameRanges(t.frames, map[], level)
  {
    hide BooksOk, TxnOn, Healthy, TreeOk, PathOk;
    OpenPage(b, t, path, level, {}, o, lim, h);
    BranchNotEmpty(b.View(), t, path[0]);
    WithoutSame(t.frames, path[0], level);
  }

  lemma WithoutSame(fr: Frames, p: PageNo, level: nat)
    requires p in fr && fr[p].level == level
    ensures SameRanges(fr, fr - {p}, level) && SameRanges(fr, map[], 0)
  {
    var gr := fr - {p};
    forall f: Frame | f.level < level && HasRange(fr, f) ensures HasRange(gr, f) {
      var q :| q in fr && fr[q] == f;
      assert gr[q] == f;
    }
  }

  lemma OpenHasNeighbour(b: Books, t: Tree, path: seq<PageNo>, level: nat, o: real, lim: Limits, h: Health)
    requires OpenTo(b, t, path, level, {}, o, lim, h) && |path| > 1 && h.full
    ensures HasNeighbour(b, t, path, o) && t.frames[Last(path)].level == level
  {
    hide BooksOk, TxnOk, Healthy, PathOk, Beside;
    OpenPage(b, t, path, level, {}, o, lim, h);
    OpenBeside(b, t, path, level, o, lim, h);
    var up, p := Front(path), Last(path);
    var j := ChildIndex(b.dirty[Last(up)].nodes, o);
    PairReady(b, t, up, level, p, if j == 0 then 0 else j - 1, lim, h, j == 0);
  }

  lemma RemedyIs(b: Books, t: Tree, path: seq<PageNo>, level: nat, o: real, lim: Limits, h: Health, i: nat, first: bool, q: PageNo)
    requires OpenTo(b, t, path, level, {}, o, lim, h) && |path| > 1 && h.full
    requires Last(path) in b.dirty && b.dirty[Last(path)].NodePage? && Last(path) in t.frames
    requires Last(Front(path)) in b.dirty && b.dirty[Last(Front(path))].NodePage?
    requires var ns := b.dirty[Last(Front(path))].nodes;
      var j := ChildIndex(ns, o);
      && first == (j == 0) && i == (if j == 0 then 0 else j - 1) && i + 1 < |ns| && ns[if first then i + 1 else i].value == Child(q)
    requires q in b.View() && b.View()[q].NodePage? && q in t.frames
    ensures HasNeighbour(b, t, path, o) && t.frames[Last(path)].level == level
    ensures var parent := b.dirty[Last(Front(path))];
      RemedyAt(b, t, path, o, lim.pageSize) == RemedyFor(lim.pageSize, parent, parent.nodes[i + 1].key, b.dirty[Last(path)],
                                                         b.View()[q], first, t.frames[Last(path)], t.frames[q])
  {
    hide BooksOk, TxnOk, Healthy, PathOk, Beside, RemedyFor;
    OpenHasNeighbour(b, t, path, level, o, lim, h);
  }

  /** What a remedy leads to is another range, which covers the key too. */
  lemma RemedyIsNew(b: Books, t: Tree, path: seq<PageNo>, o: real, lim: Limits, h: Health)
    requires OpenTo(b, t, path, 0, {}, o, lim, h) && |path| > 1 && h.full
    ensures HasNeighbour(b, t, path, o) && t.frames[Last(path)].level == 0
    ensures var m, f := RemedyAt(b, t, path, o, lim.pageSize), t.frames[Last(path)];
      m.LeaveIt? || (m.range != f && m.range.level == 0 && Covers(m.range, o))
  {
    hide BooksOk, TxnOk, Healthy, PathOk, Beside, TreeOk, PageLocal, ChildIndex, WellFilled, CanUpdate, MergeFits, SpaceLeft;
    OpenHasNeighbour(b, t, path, 0, o, lim, h);
    OpenBeside(b, t, path, 0, o, lim, h);
    var up, p := Front(path), Last(path);
    var ns := b.dirty[Last(up)].nodes;
    var j := ChildIndex(ns, o);
    var i := if j == 0 then 0 else j - 1;
    LeavesBeside(b, t, up, p, i, lim, h);
  }

  /** The ranges of two neighbouring leaves touch, and the nodes of each are in its range. */
  lemma LeavesBeside(b: Books, t: Tree, up: seq<PageNo>, p: PageNo, i: nat, lim: Limits, h: Health)
    requires Beside(b, t, up, 0, p, i, lim, h)
    ensures |up| > 0 && Last(up) in b.dirty && b.dirty[Last(up)].NodePage?
    ensures var ns := b.dirty[Last(up)].nodes;
      && i + 1 < |ns| && ns[i].value.Child? && ns[i + 1].value.Child?
      && var v, l, r := b.View(), ns[i].value.page, ns[i + 1].value.page;
      && l in t.frames && r in t.frames && l != r && (p == l || p == r)
      && l in v && r in v && v[l].NodePage? && v[r].NodePage?
      && Sorted(v[l].nodes) && Sorted(v[r].nodes) && Within(v[l].nodes, t.frames[l]) && Within(v[r].nodes, t.frames[r])
      && t.frames[l].lo < t.frames[l].hi == t.frames[r].lo < t.frames[r].hi
  {
    hide Healthy, PathOk, PageLocal, BooksOk, Sorted;
    BesideTxn(b, t, up, 0, p, i, lim, h);
    BesideLevels(b, t, up, 0, p, i, lim, h);
    PathLast(t, up, 1);
    assert up[|up| - 1] in b.dirty;
    assert b.View()[Last(up)] == b.dirty[Last(up)];
    NeighboursTxn(b.View(), t, Last(up), i);
    var ns := b.dirty[Last(up)].nodes;
    assert LeafOk(b.View()[ns[i].value.page], t.frames[ns[i].value.page], t.entries, t.chains);
    assert LeafOk(b.View()[ns[i + 1].value.page], t.frames[ns[i + 1].value.page], t.entries, t.chains);
  }

  /** A leaf for the key that has the range of a leaf before was left as it is. */
  lemma LeftAsItIs(before: Frames, b: Books, t: Tree, path: seq<PageNo>, o: real, lim: Limits, h: Health, c: Books, u: Tree, p: PageNo)
    requires OpenTo(b, t, path, 0, {}, o, lim, h) && |path| > 1 && h.full && HasNeighbour(b, t, path, o)
    requires RangesOk(before) && HasRange(before, t.frames[Last(path)]) && RangesOk(u.frames)
    requires Remedied(RemedyAt(b, t, path, o, lim.pageSize), b, t, c, u)
    requires p in u.frames && u.frames[p].level == 0 && Covers(u.frames[p], o) && HasRange(before, u.frames[p])
    ensures c == b && u == t && p == Last(path) && RemedyAt(b, t, path, o, lim.pageSize).LeaveIt?
  {
    hide TxnOk, Healthy, PathOk, RemedyAt, ChildIndex;
    RemedyIsNew(b, t, path, o, lim, h);
    var m := RemedyAt(b, t, path, o, lim.pageSize);
    if m.LeaveIt? {
      OneRange(u.frames, p, Last(path), o);
    } else {
      var r :| r in u.frames && u.frames[r] == m.range;
      OneRange(u.frames, p, r, o);
      var x :| x in before && before[x] == m.range;
      var y :| y in before && before[y] == t.frames[Last(path)];
      OneRange(before, x, y, o);
    }
  }

  lemma OneRange(fr: Frames, p: PageNo, q: PageNo, o: real)
    requires RangesOk(fr) && p in fr && q in fr && fr[p].level == fr[q].level && Covers(fr[p], o) && Covers(fr[q], o)
    ensures p == q
  {
  }

  /** The leaf that a search has come to has the range of a leaf before. */
  lemma SearchedRange(a: Books, s: Tree, b: Books, t: Tree, path: seq<PageNo>, o: real, lim: Limits, h: Health)
    requires TxnOk(a, s, {}, lim) && s.root != INVALID_PAGE && DownTo(b, t, path, 0, o, lim, h)
    requires SameLeaves(a.View(), s.frames, b.View(), t.frames)
    ensures |path| > 0 && Last(path) in t.frames && RangesOk(s.frames) && HasRange(s.frames, t.frames[Last(path)])
  {
    hide BooksOk, Healthy, LocalsOk, NodesOk;
    var q := Last(path);
    assert q in t.frames && t.frames[q].level == 0 && q in b.dirty && b.View()[q].NodePage?;
    var p :| LeafLike(a.View(), s.frames, p, b.View(), t.frames, q);
    TreeRanges(a.View(), s);
  }

  lemma TreeRanges(v: Pages, t: Tree)
    requires TreeOk(v, t)
    ensures RangesOk(t.frames)
  {
  }
}

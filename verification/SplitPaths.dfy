// The way up of a split: what the pages on the way to a key say, before a put, about all the pages it will divide.
module SplitPaths {
  import opened HBtreeRecords
  import opened OrderedNodes
  import opened TreeInvariant
  import opened TreeSteps
  import opened PageAccounts
  import opened Transaction
  import opened SplitArithmetic
  import opened Descent

  // ---- branches ----------------------------------------------------------------------------------------------

  /** A separator; the page it leads to does not matter for sizes. */
  function SeparatorNode(key: Key): Node {
    Node(key, Child(INVALID_PAGE))
  }

  /** The key in the middle of a branch with one more separator, which goes up when the branch is divided. */
  function MiddleKey(p: Page, key: Key): Key
    requires p.NodePage?
  {
    var ns := Insert(p.nodes, SeparatorNode(key));
    if Middle(p) < |ns| then ns[Middle(p)].key else key
  }

  /** The branches from the root down take a separator: the last has room for it, or both its halves fit and the branches
      above it take the key in its middle. */
  predicate TakesKey(ps: seq<Page>, key: Key, pageSize: int) {
    ps == [] ||
    var p := ps[|ps| - 1];
    p.NodePage? &&
    (SpaceNeeded(key, []) < SpaceLeft(pageSize, p)
     || (BranchFits(p, SeparatorNode(key), pageSize) && TakesKey(ps[..|ps| - 1], MiddleKey(p, key), pageSize)))
  }

  /** The page a separator leads to makes no difference. */
  lemma AnyChild(p: Page, key: Key, r: PageNo, pageSize: int)
    requires p.NodePage?
    ensures BranchFits(p, Node(key, Child(r)), pageSize) <==> BranchFits(p, SeparatorNode(key), pageSize)
    ensures var ns := Insert(p.nodes, Node(key, Child(r)));
      Middle(p) < |ns| ==> ns[Middle(p)].key == MiddleKey(p, key)
  {
    hide ByteCount;
  }

  // ---- leaves ------------------------------------------------------------------------------------------------

  /** The node for an entry, wherever the overflow pages of its value will be. */
  function LeafNode(key: Key, value: Bytes): Node {
    Node(key, if WillCauseOverflow(value) then Overflow(INVALID_PAGE) else Inline(value))
  }

  /** The first key of the right half of a leaf with one more node. */
  function SplitKey(p: Page, nd: Node, pageSize: int): Key
    requires p.NodePage?
  {
    var ns := Insert(p.nodes, nd);
    var si := Cut(ns, Threshold(pageSize, p));
    if si < |ns| then ns[si].key else nd.key
  }

  /** A put finds room in the leaf, or both halves of the leaf fit and the branches above take the key between them. The
      leaf is the last page, without the key. */
  predicate WayTakes(ps: seq<Page>, key: Key, value: Bytes, pageSize: int) {
    ps != [] &&
    var p := ps[|ps| - 1];
    p.NodePage? &&
    (SpaceNeeded(key, value) <= SpaceLeft(pageSize, p)
     || (SplitFits(p, LeafNode(key, value), pageSize) && TakesKey(ps[..|ps| - 1], SplitKey(p, LeafNode(key, value), pageSize), pageSize)))
  }

  // ---- pages of one shape ------------------------------------------------------------------------------------

  /** Pages that differ at most in numbers of child pages, in ids and in which old pages their histories name. */
  ghost predicate SameShape(p: Page, q: Page) {
    && p.NodePage? && q.NodePage? && p.leaf == q.leaf && |p.history| == |q.history| && p.upper == q.upper && p.lower == q.lower
    && SameSizes(p.nodes, q.nodes) && (p.leaf ==> p.nodes == q.nodes)
  }

  ghost predicate SameSizes(a: seq<Node>, b: seq<Node>) {
    |a| == |b| && forall i :: 0 <= i < |a| ==> a[i].key == b[i].key && a[i].Size() == b[i].Size()
  }

  lemma {:induction false} SameLower(a: seq<Node>, b: seq<Node>, o: real, i: nat)
    requires SameSizes(a, b) && i <= |a|
    ensures LowerFrom(a, o, i) == LowerFrom(b, o, i)
    decreases |a| - i
  {
    if i < |a| {
      SameLower(a, b, o, i + 1);
    }
  }

  lemma {:induction false} SameByteCount(a: seq<Node>, b: seq<Node>, k: nat)
    requires SameSizes(a, b) && k <= |a|
    ensures ByteCount(a[..k]) == ByteCount(b[..k])
  {
    if k > 0 {
      SameByteCount(a, b, k - 1);
      assert a[..k][..k - 1] == a[..k - 1] && b[..k][..k - 1] == b[..k - 1];
    }
  }

  lemma SameMiddle(p: Page, q: Page, key: Key, pageSize: int)
    requires SameShape(p, q)
    ensures SpaceLeft(pageSize, p) == SpaceLeft(pageSize, q) && MiddleKey(p, key) == MiddleKey(q, key)
    ensures BranchFits(p, SeparatorNode(key), pageSize) <==> BranchFits(q, SeparatorNode(key), pageSize)
  {
    hide ByteCount, Insert, MiddleKey;
    SameMiddleKey(p, q, key);
    SameLower(p.nodes, q.nodes, key.ord, 0);
    SameByteCount(p.nodes, q.nodes, LeftNodes(p, SeparatorNode(key)));
  }

  lemma SameMiddleKey(p: Page, q: Page, key: Key)
    requires SameShape(p, q)
    ensures MiddleKey(p, key) == MiddleKey(q, key)
  {
    SameLower(p.nodes, q.nodes, key.ord, 0);
  }

  ghost predicate SameShapes(ps: seq<Page>, qs: seq<Page>) {
    |ps| == |qs| && forall j :: 0 <= j < |ps| ==> SameShape(ps[j], qs[j])
  }

  lemma {:induction false} SameTakes(ps: seq<Page>, qs: seq<Page>, key: Key, pageSize: int)
    requires SameShapes(ps, qs)
    ensures TakesKey(ps, key, pageSize) <==> TakesKey(qs, key, pageSize)
  {
    hide SameShape, BranchFits, MiddleKey, SpaceLeft;
    if ps != [] {
      var p, q := ps[|ps| - 1], qs[|ps| - 1];
      ArePages(p, q);
      SameMiddle(p, q, key, pageSize);
      SameTakes(ps[..|ps| - 1], qs[..|ps| - 1], MiddleKey(p, key), pageSize);
    }
  }

  lemma ArePages(p: Page, q: Page)
    requires SameShape(p, q)
    ensures p.NodePage? && q.NodePage?
  {
  }

  /** What a put asks of the pages is the same for pages of one shape. */
  lemma SameWayTakes(ps: seq<Page>, qs: seq<Page>, key: Key, value: Bytes, pageSize: int)
    requires SameShapes(ps, qs) && ps != [] && ps[|ps| - 1].NodePage? && ps[|ps| - 1].leaf
    ensures WayTakes(ps, key, value, pageSize) <==> WayTakes(qs, key, value, pageSize)
  {
    hide TakesKey;
    var p, q := ps[|ps| - 1], qs[|ps| - 1];
    SameLeafFits(p, q, LeafNode(key, value), pageSize);
    SameTakes(ps[..|ps| - 1], qs[..|ps| - 1], SplitKey(p, LeafNode(key, value), pageSize), pageSize);
  }

  lemma SameLeafFits(p: Page, q: Page, nd: Node, pageSize: int)
    requires SameShape(p, q) && p.leaf
    ensures SpaceLeft(pageSize, p) == SpaceLeft(pageSize, q) && SplitKey(p, nd, pageSize) == SplitKey(q, nd, pageSize)
    ensures SplitFits(p, nd, pageSize) <==> SplitFits(q, nd, pageSize)
  {
    hide Cut, CutFrom, Counted, ByteCount;
  }

  lemma ShapesOnward(p: Page, q: Page, r: Page)
    requires SameShape(p, q) && SameShape(q, r)
    ensures SameShape(p, r)
  {
  }

  /** A node with an overflow page counts the same wherever that page is. */
  lemma AnyOverflow(p: Page, x: Node, y: Node, pageSize: int)
    requires p.NodePage? && x.key == y.key && x.Size() == y.Size() && SpaceNeededFor(x) == SpaceNeededFor(y)
    ensures SplitFits(p, x, pageSize) <==> SplitFits(p, y, pageSize)
    ensures SplitKey(p, x, pageSize) == SplitKey(p, y, pageSize)
  {
    hide ByteCount, Counted, Cut, CutFrom;
    var a, b, i := Insert(p.nodes, x), Insert(p.nodes, y), LowerBound(p.nodes, x.key.ord);
    assert |a| == |b| && forall k :: 0 <= k < |a| ==> a[k].key == b[k].key && SpaceNeededFor(a[k]) == SpaceNeededFor(b[k]);
    SameCut(a, b, Threshold(pageSize, p), 0);
    CutStart(a, Threshold(pageSize, p));
    CutStart(b, Threshold(pageSize, p));
  }

  lemma CutStart(ns: seq<Node>, threshold: int)
    ensures Cut(ns, threshold) == CutFrom(ns, threshold, 0)
  {
  }

  lemma {:induction false} SameCut(a: seq<Node>, b: seq<Node>, threshold: int, i: nat)
    requires |a| == |b| && i <= |a| && forall k :: 0 <= k < |a| ==> SpaceNeededFor(a[k]) == SpaceNeededFor(b[k])
    ensures CutFrom(a, threshold, i) == CutFrom(b, threshold, i)
    decreases |a| - i
  {
    hide Counted;
    SameCount(a, b, i);
    if i < |a| {
      SameCut(a, b, threshold, i + 1);
    }
  }

  lemma {:induction false} SameCount(a: seq<Node>, b: seq<Node>, k: nat)
    requires |a| == |b| && k <= |a| && forall k :: 0 <= k < |a| ==> SpaceNeededFor(a[k]) == SpaceNeededFor(b[k])
    ensures Counted(a[..k]) == Counted(b[..k])
  {
    if k > 0 {
      SameCount(a, b, k - 1);
      assert a[..k][..k - 1] == a[..k - 1] && b[..k][..k - 1] == b[..k - 1];
    }
  }

  // ---- the way to a key --------------------------------------------------------------------------------------

  /** Page p as the running transaction will have it once it is touched. */
  function TouchedPage(b: Books, p: PageNo, pageSize: int): Page {
    if p !in b.View() || !b.View()[p].NodePage? then Torn
    else
      var was := b.View()[p];
      if p in b.dirty then was
      else was.(history := if SpaceLeft(pageSize, was) >= HISTORY_NODE_SIZE then [HistoryNode(p, was.syncId, was.commitId)] + was.history
                           else [])
  }

  /** The pages from the root down to the leaf for o. */
  ghost predicate WayTo(t: Tree, way: seq<PageNo>, o: real) {
    PathOk(t, way, 0) && Covers(t.frames[Last(way)], o)
  }

  /** There is only one. */
  lemma WayIsUnique(t: Tree, a: seq<PageNo>, b: seq<PageNo>, o: real)
    requires WayTo(t, a, o) && WayTo(t, b, o) && RangesOk(t.frames)
    ensures a == b
  {
    assert a[0] == b[0] && a[0] in t.frames;
    assert |a| == |b|;
    forall j | 0 <= j < |a| ensures a[j] == b[j] {
      WayCovers(t, a, o, j);
      WayCovers(t, b, o, j);
    }
  }

  lemma {:induction false} WayCovers(t: Tree, way: seq<PageNo>, o: real, j: nat)
    requires WayTo(t, way, o) && j < |way|
    ensures way[j] in t.frames && Covers(t.frames[way[j]], o)
    decreases |way| - j
  {
    if j + 1 < |way| {
      WayCovers(t, way, o, j + 1);
    }
  }

  // ---- the search --------------------------------------------------------------------------------------------

  ghost predicate WayAt(t: Tree, way: seq<PageNo>, level: nat, o: real) {
    PathOk(t, way, level) && Covers(t.frames[Last(way)], o)
  }

  /** The pages of the path are those of the way, touched. */
  ghost predicate Retraces(dirty: Pages, path: seq<PageNo>, b: Books, way: seq<PageNo>, pageSize: int) {
    |path| == |way| && forall j :: 0 <= j < |path| ==> path[j] in dirty && SameShape(dirty[path[j]], TouchedPage(b, way[j], pageSize))
  }

  /** Below a level the search has changed nothing. */
  ghost predicate SameBelow(b: Books, t: Tree, c: Books, u: Tree, level: nat) {
    forall q :: q in u.frames && u.frames[q].level < level ==>
      && q in t.frames && t.frames[q] == u.frames[q] && (q in b.dirty <==> q in c.dirty)
      && q in b.View() && q in c.View() && b.View()[q] == c.View()[q]
  }

  lemma NothingBelow(b: Books, t: Tree, x: set<PageNo>, lim: Limits, level: nat)
    requires TxnOk(b, t, x, lim)
    ensures SameBelow(b, t, b, t, level)
  {
    LiveInView(b.View(), t);
  }

  lemma BelowOnward(b: Books, t: Tree, c: Books, u: Tree, d: Books, w: Tree, level: nat, less: nat)
    requires SameBelow(b, t, c, u, level) && SameBelow(c, u, d, w, less) && less <= level
    ensures SameBelow(b, t, d, w, less)
  {
  }

  /** The root is touched. */
  lemma TouchTopShapes(b: Books, t: Tree, n: PageNo, lim: Limits)
    requires TxnOk(b, t, {}, lim) && MayTake(b, n) && t.root in t.frames && t.root !in b.dirty
    requires t.root in b.View() && b.View()[t.root].NodePage?
    ensures var c, u := TouchTop(b, t.root, n, lim.pageSize), t.(root := n, frames := Renamed(t.frames, t.root, n));
      && n in c.dirty && SameShape(c.dirty[n], TouchedPage(b, t.root, lim.pageSize)) && u.frames[n] == t.frames[t.root]
      && SameBelow(b, t, c, u, t.frames[t.root].level)
  {
    hide BooksOk, TreeOk, LocalsOk, MayTake;
    LiveInView(b.View(), t);
    NewPageIsUnreachable(b, n);
  }

  /** A page below the root is touched and linked in its parent. */
  lemma TouchBelowShapes(b: Books, t: Tree, p: PageNo, n: PageNo, parent: PageNo, i: int, lim: Limits)
    requires TxnOk(b, t, {}, lim) && MayTake(b, n) && p in t.frames && p !in b.dirty && p in b.View() && b.View()[p].NodePage?
    requires parent in b.dirty && b.dirty[parent].NodePage? && 0 <= i < |b.dirty[parent].nodes| && b.dirty[parent].nodes[i].value.Child?
    requires parent in t.frames && t.frames[parent].level == t.frames[p].level + 1 && !b.dirty[parent].leaf
    ensures var c, u := TouchBelow(b, p, n, parent, i, lim.pageSize), t.(frames := Renamed(t.frames, p, n));
      && n in c.dirty && SameShape(c.dirty[n], TouchedPage(b, p, lim.pageSize)) && u.frames[n] == t.frames[p]
      && SameBelow(b, t, c, u, t.frames[p].level)
  {
    hide BooksOk, TreeOk, LocalsOk, MayTake;
    LiveInView(b.View(), t);
    NewPageIsUnreachable(b, n);
  }

  /** Linking the copy changes no shape. */
  lemma DirtyShape(b: Books, p: PageNo, n: PageNo, parent: PageNo, i: int, pageSize: int, q: PageNo)
    requires BooksOk(b) && MayTake(b, n) && p in b.View() && b.View()[p].NodePage?
    requires parent in b.dirty && b.dirty[parent].NodePage? && 0 <= i < |b.dirty[parent].nodes| && b.dirty[parent].nodes[i].value.Child?
    requires !b.dirty[parent].leaf && q in b.dirty && b.dirty[q].NodePage?
    ensures var c := TouchBelow(b, p, n, parent, i, pageSize); q in c.dirty && SameShape(c.dirty[q], b.dirty[q])
  {
    hide BooksOk, MayTake;
    NewPageIsUnreachable(b, n);
  }

  /** One step down, from the end of a path of dirty pages to page n, which page `was` has become. */
  ghost predicate StepDown(b: Books, t: Tree, c: Books, u: Tree, path: seq<PageNo>, level: nat, o: real, was: PageNo, n: PageNo, pageSize: int) {
    && |path| > 0 && Last(path) in t.frames && was in t.frames && n in u.frames && u.frames[n] == t.frames[was]
    && t.frames[was].level == level && Covers(t.frames[was], o) && Inside(t.frames[was], t.frames[Last(path)])
    && n in c.dirty && SameShape(c.dirty[n], TouchedPage(b, was, pageSize))
    && (forall j :: 0 <= j < |path| ==> path[j] in b.dirty && path[j] in c.dirty && SameShape(c.dirty[path[j]], b.dirty[path[j]]))
    && SameBelow(b, t, c, u, level)
  }

  lemma DownAsIs(b: Books, t: Tree, path: seq<PageNo>, level: nat, o: real, was: PageNo, lim: Limits, h: Health)
    requires DownTo(b, t, path, level + 1, o, lim, h) && was in t.frames && t.frames[was].level == level
    requires Covers(t.frames[was], o) && Inside(t.frames[was], t.frames[Last(path)]) && was in b.dirty && b.dirty[was].NodePage?
    ensures StepDown(b, t, b, t, path, level, o, was, was, lim.pageSize)
  {
    hide TxnOk, Healthy;
    assert path[|path| - 1] in t.frames;
    NothingBelow(b, t, {}, lim, level);
  }

  lemma DownTouched(b: Books, t: Tree, path: seq<PageNo>, level: nat, o: real, was: PageNo, n: PageNo, i: int, lim: Limits, h: Health)
    requires DownTo(b, t, path, level + 1, o, lim, h) && was in t.frames && t.frames[was].level == level && MayTake(b, n)
    requires Covers(t.frames[was], o) && Inside(t.frames[was], t.frames[Last(path)]) && was in b.View() && b.View()[was].NodePage?
    requires Last(path) in b.dirty && b.dirty[Last(path)].NodePage? && !b.dirty[Last(path)].leaf && was !in b.dirty
    requires 0 <= i < |b.dirty[Last(path)].nodes| && b.dirty[Last(path)].nodes[i].value.Child?
    ensures StepDown(b, t, TouchBelow(b, was, n, Last(path), i, lim.pageSize), t.(frames := Renamed(t.frames, was, n)), path, level, o, was, n, lim.pageSize)
  {
    hide TxnOk, Healthy, TouchBelow, SameShape, SameBelow, TouchedPage, MayTake, Renamed;
    assert path[|path| - 1] in t.frames;
    TouchBelowShapes(b, t, was, n, Last(path), i, lim);
    TxnBooks(b, t, {}, lim);
    RenamedHas(t.frames, was, n);
    var c := TouchBelow(b, was, n, Last(path), i, lim.pageSize);
    forall j | 0 <= j < |path| ensures path[j] in b.dirty && path[j] in c.dirty && SameShape(c.dirty[path[j]], b.dirty[path[j]]) {
      DirtyShape(b, was, n, Last(path), i, lim.pageSize, path[j]);
    }
  }

  lemma RenamedHas(fr: Frames, p: PageNo, n: PageNo)
    requires p in fr
    ensures n in Renamed(fr, p, n)
  {
  }

  /** The root, touched, of the tree that the search starts with. */
  ghost predicate RootDown(b: Books, t: Tree, c: Books, u: Tree, root: PageNo, level: nat, pageSize: int) {
    && t.root in t.frames && root in u.frames && u.frames[root] == t.frames[t.root] && t.frames[t.root].level == level
    && t.frames[t.root].lo == 0.0 && t.frames[t.root].hi == TOP
    && root in c.dirty && SameShape(c.dirty[root], TouchedPage(b, t.root, pageSize)) && SameBelow(b, t, c, u, level)
  }

  lemma RootAsIs(b: Books, t: Tree, lim: Limits)
    requires TxnOk(b, t, {}, lim) && t.root in t.frames && t.root in b.dirty && b.View()[t.root].NodePage?
    ensures RootDown(b, t, b, t, t.root, t.frames[t.root].level, lim.pageSize)
  {
    hide BooksOk, LocalsOk, LeavesOk, BranchesOk, ChainsOk;
    NothingBelow(b, t, {}, lim, t.frames[t.root].level);
  }

  lemma RootTouched(b: Books, t: Tree, n: PageNo, lim: Limits)
    requires TxnOk(b, t, {}, lim) && MayTake(b, n) && t.root in t.frames && t.root !in b.dirty
    requires t.root in b.View() && b.View()[t.root].NodePage?
    ensures RootDown(b, t, TouchTop(b, t.root, n, lim.pageSize), t.(root := n, frames := Renamed(t.frames, t.root, n)), n, t.frames[t.root].level, lim.pageSize)
  {
    hide BooksOk, LocalsOk, LeavesOk, BranchesOk, ChainsOk, MayTake, TouchTop, SameShape, SameBelow, TouchedPage;
    TouchTopShapes(b, t, n, lim);
  }

  /** How far the search has come. */
  ghost predicate OnWay(b: Books, t: Tree, c: Books, u: Tree, path: seq<PageNo>, way: seq<PageNo>, level: nat, o: real, pageSize: int) {
    && WayAt(t, way, level, o) && Retraces(c.dirty, path, b, way, pageSize) && SameBelow(b, t, c, u, level)
    && |path| > 0 && Last(path) in u.frames && u.frames[Last(path)] == t.frames[Last(way)]
  }

  lemma RootIsWay(b: Books, t: Tree, c: Books, u: Tree, root: PageNo, level: nat, o: real, pageSize: int)
    requires RootDown(b, t, c, u, root, level, pageSize) && 0.0 <= o < TOP
    ensures OnWay(b, t, c, u, [root], [t.root], level, o, pageSize)
  {
    hide SameShape, TouchedPage, SameBelow;
  }

  lemma WayIsDown(b: Books, t: Tree, c: Books, u: Tree, path: seq<PageNo>, way: seq<PageNo>, o: real, pageSize: int)
    requires OnWay(b, t, c, u, path, way, 0, o, pageSize)
    ensures WayTo(t, way, o) && Retraces(c.dirty, path, b, way, pageSize)
  {
  }

  /** The way down has one page more. */
  lemma WayStep(b: Books, t: Tree, c: Books, u: Tree, d: Books, w: Tree, path: seq<PageNo>, way: seq<PageNo>, level: nat, o: real,
                was: PageNo, n: PageNo, pageSize: int)
    requires OnWay(b, t, c, u, path, way, level + 1, o, pageSize) && StepDown(c, u, d, w, path, level, o, was, n, pageSize)
    ensures OnWay(b, t, d, w, path + [n], way + [was], level, o, pageSize)
  {
    hide SameShape, TouchedPage, Retraces, PathOk;
    WayOnward(b, t, c, u, way, level, o, was, pageSize);
    RetracedOnward(c.dirty, d.dirty, path, n, b, way, was, pageSize);
    BelowOnward(b, t, c, u, d, w, level + 1, level);
  }

  lemma WayOnward(b: Books, t: Tree, c: Books, u: Tree, way: seq<PageNo>, level: nat, o: real, was: PageNo, pageSize: int)
    requires WayAt(t, way, level + 1, o) && SameBelow(b, t, c, u, level + 1)
    requires was in u.frames && u.frames[was].level == level && Covers(u.frames[was], o) && Inside(u.frames[was], t.frames[Last(way)])
    ensures WayAt(t, way + [was], level, o) && was in t.frames && t.frames[was] == u.frames[was]
    ensures TouchedPage(b, was, pageSize) == TouchedPage(c, was, pageSize)
  {
    PathExtend(t, way, level, was);
  }

  /** Each page of the path has kept its shape, and there is one more. */
  lemma RetracedOnward(before: Pages, after: Pages, path: seq<PageNo>, n: PageNo, b: Books, way: seq<PageNo>, was: PageNo, pageSize: int)
    requires Retraces(before, path, b, way, pageSize) && n in after && SameShape(after[n], TouchedPage(b, was, pageSize))
    requires forall j :: 0 <= j < |path| ==> path[j] in after && path[j] in before && SameShape(after[path[j]], before[path[j]])
    ensures Retraces(after, path + [n], b, way + [was], pageSize)
  {
    hide SameShape, TouchedPage;
    forall j | 0 <= j < |path| ensures SameShape(after[path[j]], TouchedPage(b, way[j], pageSize)) {
      ShapesOnward(after[path[j]], before[path[j]], TouchedPage(b, way[j], pageSize));
    }
  }

  /** The pages of the way as the put will have them: touched, and the leaf without the key. */
  function PagesForPut(b: Books, way: seq<PageNo>, o: real, pageSize: int): seq<Page> {
    seq(|way|, j requires 0 <= j < |way| =>
      var p := TouchedPage(b, way[j], pageSize);
      if j + 1 == |way| && p.NodePage? then PageRemove(p, o) else p)
  }

  /** All pages still fit after a put, told from the tree before it. */
  ghost predicate PutFits(b: Books, t: Tree, key: Key, value: Bytes, pageSize: int) {
    t.root == INVALID_PAGE ||
    exists way :: WayTo(t, way, key.ord) && WayTakes(PagesForPut(b, way, key.ord, pageSize), key, value, pageSize)
  }

  /** Those of the known pages that are not on the path are what they were, and in the tree. */
  ghost predicate OthersStay(was: Pages, known: set<PageNo>, now: Pages, frames: Frames, path: seq<PageNo>) {
    forall q :: q in was && q in known && q !in path ==> q in now && now[q] == was[q] && q in frames
  }

  lemma StayOn(was: Pages, known: set<PageNo>, mid: Pages, middle: Frames, now: Pages, frames: Frames, path: seq<PageNo>, r: PageNo)
    requires |path| > 0 && OthersStay(was, known, mid, middle, path) && OthersStay(mid, known + {r}, now, frames, Front(path))
    ensures OthersStay(was, known, now, frames, path)
  {
  }

  lemma FirstFits(b: Books, t: Tree, key: Key, value: Bytes, pageSize: int)
    requires t.root == INVALID_PAGE
    ensures PutFits(b, t, key, value, pageSize)
  {
  }

  /** The pages of a path of dirty pages. */
  function PagesOn(dirty: Pages, path: seq<PageNo>): seq<Page> {
    seq(|path|, j requires 0 <= j < |path| => if path[j] in dirty then dirty[path[j]] else Torn)
  }

  lemma PagesFront(dirty: Pages, path: seq<PageNo>)
    requires |path| > 0
    ensures PagesOn(dirty, path)[..|path| - 1] == PagesOn(dirty, Front(path))
    ensures Last(path) in dirty ==> PagesOn(dirty, path)[|path| - 1] == dirty[Last(path)]
  {
  }

  /** A branch without room for a separator is divided, and those above take its middle key. */
  lemma TakesBelow(dirty: Pages, path: seq<PageNo>, key: Key, pageSize: int)
    requires |path| > 0 && Last(path) in dirty && dirty[Last(path)].NodePage?
    requires SpaceNeeded(key, []) >= SpaceLeft(pageSize, dirty[Last(path)])
    ensures var p := dirty[Last(path)];
      TakesKey(PagesOn(dirty, path), key, pageSize) <==>
        BranchFits(p, SeparatorNode(key), pageSize) && TakesKey(PagesOn(dirty, Front(path)), MiddleKey(p, key), pageSize)
  {
    hide BranchFits, MiddleKey, SpaceLeft;
    PagesFront(dirty, path);
  }

  /** A branch with room takes the separator, and above the root there is nothing that has to. */
  lemma RoomTakes(dirty: Pages, path: seq<PageNo>, key: Key, pageSize: int)
    requires |path| > 0 && Last(path) in dirty && dirty[Last(path)].NodePage?
    ensures SpaceNeeded(key, []) < SpaceLeft(pageSize, dirty[Last(path)]) ==> TakesKey(PagesOn(dirty, path), key, pageSize)
    ensures |path| == 1 ==> forall k :: TakesKey(PagesOn(dirty, Front(path)), k, pageSize)
  {
    hide BranchFits, MiddleKey, SpaceLeft;
    PagesFront(dirty, path);
  }

  lemma LeafTakes(dirty: Pages, path: seq<PageNo>, key: Key, value: Bytes, pageSize: int)
    requires |path| > 0 && Last(path) in dirty && dirty[Last(path)].NodePage?
    requires SpaceNeeded(key, value) <= SpaceLeft(pageSize, dirty[Last(path)])
    ensures WayTakes(PagesOn(dirty, path), key, value, pageSize)
  {
    hide SplitFits, SplitKey, TakesKey, SpaceLeft;
    PagesFront(dirty, path);
  }

  /** An empty leaf takes any entry. */
  lemma FirstTakes(dirty: Pages, n: PageNo, key: Key, value: Bytes, pageSize: int)
    requires n in dirty && Empty(dirty[n], true) && |dirty[n].history| == 0 && |key.data| <= MAX_KEY_SIZE && pageSize >= MIN_PAGE_SIZE
    ensures WayTakes(PagesOn(dirty, [n]), key, value, pageSize)
  {
  }

  lemma RemovedShape(p: Page, q: Page, o: real)
    requires SameShape(p, q) && p.leaf
    ensures SameShape(PageRemove(p, o), PageRemove(q, o)) && PageRemove(p, o).NodePage? && PageRemove(p, o).leaf
  {
    hide Remove, Contains;
  }

  /** The path after the search, without the key in its leaf, takes what the tree before the put says it does. */
  lemma RetracedForPut(found: Pages, after: Pages, path: seq<PageNo>, b: Books, t: Tree, way: seq<PageNo>, key: Key, value: Bytes,
                       lim: Limits)
    requires Retraces(found, path, b, way, lim.pageSize) && WayTo(t, way, key.ord) && t.root != INVALID_PAGE && TxnOk(b, t, {}, lim)
    requires |path| > 0 && Last(path) in found && found[Last(path)].NodePage? && found[Last(path)].leaf
    requires forall j :: 0 <= j < |path| - 1 ==> path[j] != Last(path)
    requires after == found[Last(path) := PageRemove(found[Last(path)], key.ord)]
    ensures PutFits(b, t, key, value, lim.pageSize) <==> WayTakes(PagesOn(after, path), key, value, lim.pageSize)
  {
    hide SameShape, TouchedPage, WayTakes, PageRemove, BooksOk, LocalsOk, WayTo;
    var ps, qs := PagesOn(after, path), PagesForPut(b, way, key.ord, lim.pageSize);
    forall j | 0 <= j < |path| ensures SameShape(ps[j], qs[j]) {
      ArePages(found[path[j]], TouchedPage(b, way[j], lim.pageSize));
      if j == |path| - 1 {
        RemovedShape(found[path[j]], TouchedPage(b, way[j], lim.pageSize), key.ord);
      }
    }
    RemovedShape(found[Last(path)], TouchedPage(b, way[|path| - 1], lim.pageSize), key.ord);
    SameWayTakes(ps, qs, key, value, lim.pageSize);
    if PutFits(b, t, key, value, lim.pageSize) {
      var w :| WayTo(t, w, key.ord) && WayTakes(PagesForPut(b, w, key.ord, lim.pageSize), key, value, lim.pageSize);
      WayIsUnique(t, w, way, key.ord);
    }
  }

  lemma EndApart(b: Books, t: Tree, path: seq<PageNo>, level: nat, o: real, lim: Limits, h: Health)
    requires DownTo(b, t, path, level, o, lim, h)
    ensures |path| > 0 && forall j :: 0 <= j < |path| - 1 ==> path[j] != Last(path)
  {
    hide TxnOk, Healthy;
    assert path[|path| - 1] in t.frames;
    forall j | 0 <= j < |path| - 1 ensures path[j] != Last(path) {
      assert path[j] in t.frames;
    }
  }

  /** What a full leaf says of its halves and of the branches above. */
  lemma LeafDecides(dirty: Pages, path: seq<PageNo>, nd: Node, key: Key, value: Bytes, lim: Limits)
    requires |path| > 0 && Last(path) in dirty && dirty[Last(path)].NodePage?
    requires SpaceNeeded(key, value) > SpaceLeft(lim.pageSize, dirty[Last(path)])
    requires nd.key == key && SpaceNeededFor(nd) == SpaceNeeded(key, value) && NodeLocal(true, nd, lim)
    ensures var p := dirty[Last(path)];
      WayTakes(PagesOn(dirty, path), key, value, lim.pageSize) <==>
        SplitFits(p, nd, lim.pageSize) && TakesKey(PagesOn(dirty, Front(path)), SplitKey(p, nd, lim.pageSize), lim.pageSize)
  {
    hide SplitFits, SplitKey, TakesKey, SpaceLeft;
    PagesFront(dirty, path);
    AnyOverflow(dirty[Last(path)], nd, LeafNode(key, value), lim.pageSize);
  }
}

// The way down from the root to a page, which stands for the parent pointers set by the last search.
module Descent {
  import opened HBtreeRecords
  import opened OrderedNodes
  import opened TreeInvariant
  import opened TreeSteps
  import opened PageAccounts
  import opened Transaction

  ghost predicate Inside(f: Frame, g: Frame) {
    g.lo <= f.lo && f.hi <= g.hi
  }

  /** Pages of the tree, each the parent of the next, from the root down to a page at the given level. */
  ghost predicate PathOk(t: Tree, path: seq<PageNo>, level: nat) {
    && |path| > 0 && path[0] == t.root
    && (forall j :: 0 <= j < |path| ==> path[j] in t.frames && t.frames[path[j]].level == level + |path| - 1 - j)
    && (forall j :: 0 <= j < |path| - 1 ==> Inside(t.frames[path[j + 1]], t.frames[path[j]]))
  }

  ghost predicate AllDirty(b: Books, path: seq<PageNo>) {
    forall j :: 0 <= j < |path| ==> path[j] in b.dirty && b.dirty[path[j]].NodePage?
  }

  function Last(path: seq<PageNo>): PageNo
    requires |path| > 0
  {
    path[|path| - 1]
  }

  function Front(path: seq<PageNo>): seq<PageNo>
    requires |path| > 0
  {
    path[..|path| - 1]
  }

  /** The child of a branch that covers o, as searchPageRoot finds it. */
  function ChildIndex(ns: seq<Node>, o: real): int {
    UpperBound(ns, o) - 1
  }

  lemma ChildCovers(v: Pages, t: Tree, p: PageNo, o: real)
    requires TreeOk(v, t) && p in t.frames && t.frames[p].level > 0 && Covers(t.frames[p], o)
    ensures p in v && v[p].NodePage?
    ensures var i := ChildIndex(v[p].nodes, o);
      && 0 <= i < |v[p].nodes| && v[p].nodes[i].value.Child? && ChildAt(v, t.frames, p, i, v[p].nodes[i].value.page)
      && var c := v[p].nodes[i].value.page;
      && c in t.frames && c != t.root && c != p && Covers(t.frames[c], o) && t.frames[c].level == t.frames[p].level - 1
      && Inside(t.frames[c], t.frames[p])
  {
    assert BranchOk(v[p], t.frames[p], t.frames);
    var i := ChildIndex(v[p].nodes, o);
    assert LinkOk(v[p].nodes, i, t.frames[p], t.frames);
    LinkedBelow(v, t, p, i, v[p].nodes[i].value.page);
  }

  lemma PathFront(t: Tree, path: seq<PageNo>, level: nat)
    requires PathOk(t, path, level) && |path| > 1
    ensures PathOk(t, Front(path), level + 1)
    ensures t.frames[Last(Front(path))].level == t.frames[Last(path)].level + 1
    ensures Inside(t.frames[Last(path)], t.frames[Last(Front(path))])
  {
    assert path[|path| - 1] in t.frames && path[|path| - 2] in t.frames;
  }

  lemma PathExtend(t: Tree, path: seq<PageNo>, level: nat, c: PageNo)
    requires PathOk(t, path, level + 1) && c in t.frames && t.frames[c].level == level
    requires Inside(t.frames[c], t.frames[Last(path)])
    ensures PathOk(t, path + [c], level)
  {
  }

  /** Touching a page below the path does not change the path. */
  lemma PathRenamed(t: Tree, path: seq<PageNo>, level: nat, p: PageNo, n: PageNo, root: PageNo)
    requires PathOk(t, path, level) && p in t.frames && t.frames[p].level < level && n !in t.frames && root == t.root
    ensures PathOk(t.(root := root, frames := Renamed(t.frames, p, n)), path, level)
  {
    forall j | 0 <= j < |path| ensures path[j] != p && path[j] != n {
      assert path[j] in t.frames;
    }
  }

  /** The child index of the page below in its parent, from the frames the parents see. */
  lemma ParentIndex(v: Pages, fr: Frames, shown: Frames, parent: PageNo, c: PageNo) returns (i: nat)
    requires RangesOk(shown) && BranchesOk(v, fr, shown) && parent in fr && fr[parent].level > 0 && c in shown
    requires shown[c].level + 1 == fr[parent].level && Inside(shown[c], fr[parent])
    ensures parent in v && v[parent].NodePage? && i < |v[parent].nodes| && v[parent].nodes[i].value == Child(c)
    ensures v[parent].nodes[i].key.ord == shown[c].lo
  {
    assert BranchOk(v[parent], fr[parent], shown);
    var ns := v[parent].nodes;
    i := ChildIndex(ns, shown[c].lo);
    assert LinkOk(ns, i, fr[parent], shown);
    var d := ns[i].value.page;
    assert shown[d].lo <= shown[c].lo < shown[d].hi;
  }

  /** Splitting the last page of a path leaves the pages above it as they are. */
  lemma PathDivided(t: Tree, path: seq<PageNo>, level: nat, l: PageNo, r: PageNo, sk: real)
    requires PathOk(t, path, level) && l in t.frames && t.frames[l].level < level && r !in t.frames
    ensures PathOk(t.(frames := Divided(t.frames, l, r, sk)), path, level)
  {
    forall j | 0 <= j < |path| ensures path[j] != l && path[j] != r {
      assert path[j] in t.frames;
    }
  }

  lemma PathGrown(t: Tree, path: seq<PageNo>, level: nat, n: PageNo)
    requires PathOk(t, path, level) && |path| == 1 && RangesOk(t.frames) && RootOk(t.root, t.frames) && n !in t.frames
    ensures PathOk(Grown(t, n), [n] + path, level)
    ensures PathOk(Grown(t, n), [n], level + 1)
  {
    assert path[0] in t.frames;
  }

  // ---- one step of searchPageRoot with modify --------------------------------------------------------------

  /** A transaction with a path of dirty pages down to one that covers o. */
  ghost predicate DownTo(b: Books, t: Tree, path: seq<PageNo>, level: nat, o: real, lim: Limits, h: Health) {
    && TxnOk(b, t, {}, lim) && Healthy(b.View(), t, {}, lim.pageSize, h)
    && PathOk(t, path, level) && AllDirty(b, path) && Covers(t.frames[Last(path)], o)
  }

  /** The page at the end of the path covers o and may have lost too many nodes; it fits if all others do. */
  ghost predicate OpenTo(b: Books, t: Tree, path: seq<PageNo>, level: nat, x: set<PageNo>, o: real, lim: Limits, h: Health) {
    && PathOk(t, path, level) && AllDirty(b, path) && Covers(t.frames[Last(path)], o)
    && TxnOk(b, t, x, lim) && Healthy(b.View(), t, {Last(path)}, lim.pageSize, h)
    && (h.fit ==> PageFits(b.dirty[Last(path)], lim.pageSize))
  }

  lemma DownToChild(b: Books, t: Tree, path: seq<PageNo>, level: nat, o: real, lim: Limits, h: Health)
    requires DownTo(b, t, path, level, o, lim, h)
    ensures var p := b.dirty[Last(path)]; p == b.View()[Last(path)] && (p.leaf <==> level == 0)
    ensures BooksOk(b)
    ensures level > 0 ==> var p := b.dirty[Last(path)];
      var i := ChildIndex(p.nodes, o);
      && 0 <= i < |p.nodes| && p.nodes[i].value.Child? && ChildAt(b.View(), t.frames, Last(path), i, p.nodes[i].value.page)
      && var c := p.nodes[i].value.page;
      && c in t.frames && Covers(t.frames[c], o) && t.frames[c].level == level - 1 && Inside(t.frames[c], t.frames[Last(path)])
      && c in b.View() && b.View()[c].NodePage? && (c !in b.dirty ==> c in b.work.live && c in b.disk && b.disk[c].NodePage?)
      && (c in b.dirty ==> DownTo(b, t, path + [c], level - 1, o, lim, h))
  {
    hide BooksOk, TreeOk, LocalsOk, Healthy;
    var p := Last(path);
    assert p in b.dirty && b.View()[p] == b.dirty[p];
    LiveInView(b.View(), t);
    if level > 0 {
      ChildCovers(b.View(), t, p, o);
      var c := b.dirty[p].nodes[ChildIndex(b.dirty[p].nodes, o)].value.page;
      PathExtend(t, path, level - 1, c);
      if c in b.dirty {
        DirtyExtend(b, path, c);
      }
    }
  }

  lemma DirtyExtend(b: Books, path: seq<PageNo>, c: PageNo)
    requires AllDirty(b, path) && c in b.dirty && b.dirty[c].NodePage?
    ensures AllDirty(b, path + [c])
  {
  }

  lemma TouchDown(b: Books, t: Tree, path: seq<PageNo>, level: nat, o: real, i: nat, c: PageNo, n: PageNo, lim: Limits, h: Health)
    requires DownTo(b, t, path, level + 1, o, lim, h) && i < |b.dirty[Last(path)].nodes|
    requires ChildAt(b.View(), t.frames, Last(path), i, c) && c in t.frames && c !in b.dirty && MayTake(b, n)
    requires Covers(t.frames[c], o) && t.frames[c].level == level && Inside(t.frames[c], t.frames[Last(path)])
    requires c in b.View() && b.View()[c].NodePage?
    ensures DownTo(TouchBelow(b, c, n, Last(path), i, lim.pageSize), t.(frames := Renamed(t.frames, c, n)), path + [n], level, o, lim, h)
  {
    hide BooksOk, TreeOk, LocalsOk, FitBut, FullBut, MayTake, ChildAt;
    var parent := Last(path);
    assert parent in b.dirty;
    TouchTxn(b, t, {}, c, n, parent, i, lim, {});
    var d := TouchBelow(b, c, n, parent, i, lim.pageSize);
    var u := t.(frames := Renamed(t.frames, c, n));
    PathRenamed(t, path, level + 1, c, n, t.root);
    PathExtend(u, path, level, n);
    assert AllDirty(d, path + [n]);
  }

  lemma TouchDownTop(b: Books, t: Tree, o: real, n: PageNo, lim: Limits, h: Health)
    requires TxnOk(b, t, {}, lim) && Healthy(b.View(), t, {}, lim.pageSize, h) && 0.0 <= o < TOP
    requires t.root in t.frames && t.root in b.View() && b.View()[t.root].NodePage? && t.root !in b.dirty && MayTake(b, n)
    ensures DownTo(TouchTop(b, t.root, n, lim.pageSize), t.(root := n, frames := Renamed(t.frames, t.root, n)), [n],
                   t.frames[t.root].level, o, lim, h)
  {
    hide BooksOk, TreeOk, LocalsOk, FitBut, FullBut, MayTake, TouchTop;
    RootFrame(b.View(), t);
    TouchRootTxn(b, t, {}, n, lim);
    TouchTopIsDirty(b, t.root, n, lim.pageSize);
  }

  lemma TouchTopIsDirty(b: Books, p: PageNo, n: PageNo, pageSize: int)
    requires p in b.View() && b.View()[p].NodePage?
    ensures var c := TouchTop(b, p, n, pageSize); n in c.dirty && c.dirty[n].NodePage?
  {
  }

  lemma RootFrame(v: Pages, t: Tree)
    requires TreeOk(v, t) && t.root in t.frames
    ensures t.frames[t.root].lo == 0.0 && t.frames[t.root].hi == TOP
  {
  }

  lemma AtRoot(b: Books, t: Tree, o: real, lim: Limits, h: Health)
    requires TxnOk(b, t, {}, lim) && Healthy(b.View(), t, {}, lim.pageSize, h) && 0.0 <= o < TOP
    requires t.root != INVALID_PAGE
    ensures t.root in t.frames && t.root in b.View() && b.View()[t.root].NodePage? && BooksOk(b)
    ensures t.root in b.dirty ==> DownTo(b, t, [t.root], t.frames[t.root].level, o, lim, h)
    ensures t.root !in b.dirty ==> t.root in b.work.live && t.root in b.disk && b.disk[t.root] == b.View()[t.root]
  {
    hide BooksOk, LocalsOk, AllFit, FullBut, LeavesOk, BranchesOk, ChainsOk;
    LiveInView(b.View(), t);
  }

  // ---- the leaves while pages are touched --------------------------------------------------------------------

  /** Page q of one tree is a leaf with the interval and the nodes of leaf p of the other. */
  ghost predicate LeafLike(v: Pages, fr: Frames, p: PageNo, w: Pages, gr: Frames, q: PageNo) {
    p in fr && q in gr && fr[p] == gr[q] && p in v && q in w && v[p].NodePage? && w[q].NodePage? && v[p].nodes == w[q].nodes
  }

  ghost predicate SameLeaves(v: Pages, fr: Frames, w: Pages, gr: Frames) {
    forall q :: q in gr && gr[q].level == 0 && q in w && w[q].NodePage? ==> exists p :: LeafLike(v, fr, p, w, gr, q)
  }

  lemma LeavesStay(v: Pages, fr: Frames)
    ensures SameLeaves(v, fr, v, fr)
  {
    forall q | q in fr && fr[q].level == 0 && q in v && v[q].NodePage? ensures exists p :: LeafLike(v, fr, p, v, fr, q) {
      assert LeafLike(v, fr, q, v, fr, q);
    }
  }

  lemma LeavesOnward(v: Pages, fr: Frames, w: Pages, gr: Frames, x: Pages, hr: Frames)
    requires SameLeaves(v, fr, w, gr) && SameLeaves(w, gr, x, hr)
    ensures SameLeaves(v, fr, x, hr)
  {
    forall q | q in hr && hr[q].level == 0 && q in x && x[q].NodePage? ensures exists p :: LeafLike(v, fr, p, x, hr, q) {
      var m :| LeafLike(w, gr, m, x, hr, q);
      var p :| LeafLike(v, fr, p, w, gr, m);
      assert LeafLike(v, fr, p, x, hr, q);
    }
  }

  lemma TouchKeepsLeaves(b: Books, p: PageNo, n: PageNo, pageSize: int, fr: Frames)
    requires p in b.View() && b.View()[p].NodePage? && p in fr
    ensures SameLeaves(b.View(), fr, TouchTop(b, p, n, pageSize).View(), Renamed(fr, p, n))
  {
    var w, gr := TouchTop(b, p, n, pageSize).View(), Renamed(fr, p, n);
    forall q | q in gr && gr[q].level == 0 && q in w && w[q].NodePage? ensures exists p' :: LeafLike(b.View(), fr, p', w, gr, q) {
      assert LeafLike(b.View(), fr, if q == n then p else q, w, gr, q);
    }
  }

  /** Linking the copy in its parent changes no leaf. */
  lemma LinkKeepsLeaves(b: Books, p: PageNo, n: PageNo, parent: PageNo, i: int, pageSize: int, fr: Frames)
    requires BooksOk(b) && MayTake(b, n) && p in b.View() && b.View()[p].NodePage? && p in fr && p !in b.dirty
    requires parent in b.dirty && b.dirty[parent].NodePage? && 0 <= i < |b.dirty[parent].nodes|
    requires parent in fr && fr[parent].level > 0
    ensures SameLeaves(b.View(), fr, TouchBelow(b, p, n, parent, i, pageSize).View(), Renamed(fr, p, n))
  {
    hide BooksOk, Touch, Renamed;
    NewPageIsUnreachable(b, n);
    TouchKeepsLeaves(b, p, n, pageSize, fr);
    TouchBelowInSteps(b, p, n, parent, i, pageSize);
    var w, x, gr := TouchTop(b, p, n, pageSize).View(), TouchBelow(b, p, n, parent, i, pageSize).View(), Renamed(fr, p, n);
    RenamedElsewhere(fr, p, n, parent);
    forall q | q in gr && gr[q].level == 0 && q in x && x[q].NodePage? ensures exists p' :: LeafLike(b.View(), fr, p', x, gr, q) {
      assert q != parent && q in w && w[q] == x[q];
      var p' :| LeafLike(b.View(), fr, p', w, gr, q);
      assert LeafLike(b.View(), fr, p', x, gr, q);
    }
  }

  lemma RenamedElsewhere(fr: Frames, p: PageNo, n: PageNo, q: PageNo)
    requires p in fr && q in fr && q != p && q != n
    ensures q in Renamed(fr, p, n) && Renamed(fr, p, n)[q] == fr[q]
  {
  }

  lemma PathEnd(b: Books, t: Tree, path: seq<PageNo>, level: nat, o: real, lim: Limits, h: Health)
    requires DownTo(b, t, path, level, o, lim, h)
    ensures Last(path) in t.frames && t.frames[Last(path)].level == level && Covers(t.frames[Last(path)], o)
    ensures Last(path) in b.dirty && b.dirty[Last(path)].NodePage? && Last(path) in b.View() && b.View()[Last(path)] == b.dirty[Last(path)]
  {
    hide TxnOk, Healthy;
    assert path[|path| - 1] in t.frames && path[|path| - 1] in b.dirty;
  }

  lemma TouchBelowInSteps(b: Books, p: PageNo, n: PageNo, parent: PageNo, i: int, pageSize: int)
    requires p in b.View() && b.View()[p].NodePage?
    requires parent in b.dirty && b.dirty[parent].NodePage? && 0 <= i < |b.dirty[parent].nodes|
    ensures TouchBelow(b, p, n, parent, i, pageSize)
      == Edit(TouchTop(b, p, n, pageSize), parent, Rewired(b.dirty[parent], i, n))
  {
  }

  lemma TouchTopElsewhere(b: Books, p: PageNo, n: PageNo, pageSize: int, q: PageNo)
    requires BooksOk(b) && MayTake(b, n) && p in b.View() && b.View()[p].NodePage? && q in b.dirty
    ensures var c := TouchTop(b, p, n, pageSize); q in c.dirty && c.dirty[q] == b.dirty[q]
  {
    hide BooksOk;
    NewPageIsUnreachable(b, n);
  }
}

// The shape that put and del keep: what a reader of the pages can rely on without knowing the frames.
module TreeShape {
  import opened HBtreeRecords
  import opened OrderedNodes
  import opened TreeInvariant
  import opened Transaction
  import opened CursorSteps

  ghost predicate LinkedTo(p: Page, c: PageNo) {
    p.NodePage? && !p.leaf && exists i :: 0 <= i < |p.nodes| && p.nodes[i].value == Child(c)
  }

  /** A way down from the root along the links of the branches. */
  ghost predicate WayDown(v: Pages, root: PageNo, way: seq<PageNo>) {
    && |way| > 0 && way[0] == root && (forall k :: 0 <= k < |way| ==> way[k] in v)
    && forall k :: 0 <= k < |way| - 1 ==> LinkedTo(v[way[k]], way[k + 1])
  }

  lemma {:induction false} WayLevels(v: Pages, t: Tree, way: seq<PageNo>)
    requires TreeOk(v, t) && t.root != INVALID_PAGE && WayDown(v, t.root, way)
    ensures var p := way[|way| - 1]; p in t.frames && t.frames[p].level + |way| - 1 == t.frames[t.root].level
    ensures var p := way[|way| - 1]; v[p].NodePage? && (v[p].leaf <==> t.frames[p].level == 0)
  {
    hide TreeOk;
    LiveInView(v, t);
    RootIsThere(v, t);
    if |way| > 1 {
      var front := way[..|way| - 1];
      assert forall k :: 0 <= k < |front| ==> front[k] == way[k];
      WayLevels(v, t, front);
      var q := front[|front| - 1];
      assert LinkedTo(v[way[|way| - 2]], way[|way| - 1]);
      var i :| 0 <= i < |v[q].nodes| && v[q].nodes[i].value == Child(way[|way| - 1]);
      ChildLink(v, t, q, i);
    }
  }

  lemma RootIsThere(v: Pages, t: Tree)
    requires TreeOk(v, t) && t.root != INVALID_PAGE
    ensures t.root in t.frames && t.frames[t.root].lo == 0.0
  {
  }

  /** All leaves are at the same depth. */
  lemma LeavesAtOneDepth(v: Pages, t: Tree, a: seq<PageNo>, b: seq<PageNo>)
    requires TreeOk(v, t) && t.root != INVALID_PAGE && WayDown(v, t.root, a) && WayDown(v, t.root, b)
    requires v[a[|a| - 1]].NodePage? && v[a[|a| - 1]].leaf && v[b[|b| - 1]].NodePage? && v[b[|b| - 1]].leaf
    ensures |a| == |b|
  {
    WayLevels(v, t, a);
    WayLevels(v, t, b);
  }

  /** A branch has at least two children; below its first key no child starts lower, and a child that is a branch starts with
      the separator its parent has for it. On the leftmost way that is the empty key's place. */
  lemma BranchShape(v: Pages, t: Tree, p: PageNo, i: nat)
    requires TreeOk(v, t) && FullBut(v, t, {}) && p in t.frames && t.frames[p].level > 0
    requires p in v && v[p].NodePage? && i < |v[p].nodes|
    ensures |v[p].nodes| >= 2 && Sorted(v[p].nodes) && v[p].nodes[i].value.Child?
    ensures var c := v[p].nodes[i].value.page;
      && c in t.frames && c in v && v[c].NodePage? && |v[c].nodes| > 0 && v[p].nodes[i].key.ord <= v[c].nodes[0].key.ord
      && (!v[c].leaf ==> v[c].nodes[0].key.ord == v[p].nodes[i].key.ord)
      && (i + 1 < |v[p].nodes| ==> v[c].nodes[|v[c].nodes| - 1].key.ord < v[p].nodes[i + 1].key.ord)
    ensures t.frames[p].lo == 0.0 ==> v[p].nodes[0].key.ord == 0.0
  {
    hide TreeOk;
    LiveInView(v, t);
    ChildLink(v, t, p, i);
    var c := v[p].nodes[i].value.page;
    LeafSorted(v, t, p);
    LeafSorted(v, t, c);
    if !v[c].leaf {
      ChildLink(v, t, c, 0);
    }
  }
}

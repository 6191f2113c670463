// The page-level steps of the B+tree, each shown to turn a tree into a tree.
module TreeSteps {
  import opened HBtreeRecords
  import opened OrderedNodes
  import opened TreeInvariant

  /** A page is the child of one branch at one place. */
  lemma OneParent(v: Pages, fr: Frames, shown: Frames, q: PageNo, j: int, p: PageNo, i: int)
    requires RangesOk(fr) && BranchesOk(v, fr, shown)
    requires q in fr && fr[q].level > 0 && 0 <= j < |v[q].nodes|
    requires p in fr && fr[p].level > 0 && 0 <= i < |v[p].nodes|
    requires v[q].nodes[j].value == v[p].nodes[i].value
    ensures q == p && i == j
  {
    assert BranchOk(v[q], fr[q], shown) && BranchOk(v[p], fr[p], shown);
    assert LinkOk(v[q].nodes, j, fr[q], shown);
    assert LinkOk(v[p].nodes, i, fr[p], shown);
    assert Covers(fr[q], v[q].nodes[j].key.ord) && Covers(fr[p], v[p].nodes[i].key.ord);
  }

  ghost predicate ChildAt(v: Pages, fr: Frames, parent: PageNo, i: int, p: PageNo) {
    && parent in fr && fr[parent].level > 0 && parent in v && v[parent].NodePage?
    && 0 <= i < |v[parent].nodes| && v[parent].nodes[i].value == Child(p)
  }

  // ---- touching: a page moves to a new number --------------------------------------------------------------

  ghost function Renamed(fr: Frames, p: PageNo, n: PageNo): Frames
    requires p in fr
  {
    (map q | q in fr && q != p :: fr[q])[n := fr[p]]
  }

  lemma RenamedRanges(fr: Frames, p: PageNo, n: PageNo, root: PageNo)
    requires RangesOk(fr) && RootOk(root, fr) && p in fr && n !in fr
    ensures RangesOk(Renamed(fr, p, n)) && RootOk(if root == p then n else root, Renamed(fr, p, n))
  {
    var r := Renamed(fr, p, n);
    forall a, b | a in r && b in r && a != b && r[a].level == r[b].level
      ensures r[a].hi <= r[b].lo || r[b].hi <= r[a].lo
    {
      var a0, b0 := if a == n then p else a, if b == n then p else b;
      assert fr[a0] == r[a] && fr[b0] == r[b];
    }
  }

  lemma RenamedLeaves(v: Pages, fr: Frames, p: PageNo, n: PageNo, w: Pages, entries: Entries, chains: Chains)
    requires LeavesOk(v, fr, entries, chains) && p in fr && n !in fr
    requires p in v && n in w && SameContent(v[p], w[n])
    requires forall q :: q in fr && q != p && fr[q].level == 0 ==> q in v && q in w && SameContent(v[q], w[q])
    ensures LeavesOk(w, Renamed(fr, p, n), entries, chains)
  {
    var r := Renamed(fr, p, n);
    forall q | q in r && r[q].level == 0 ensures q in w && LeafOk(w[q], r[q], entries, chains) {
      var q0 := if q == n then p else q;
      assert LeafOk(v[q0], fr[q0], entries, chains);
    }
  }

  lemma RenamedBranch(v: Pages, fr: Frames, p: PageNo, n: PageNo, parent: PageNo, i: int, q: PageNo, page: Page)
    requires RangesOk(fr) && BranchesOk(v, fr, fr) && p in fr && n !in fr && ChildAt(v, fr, parent, i, p)
    requires q in fr && fr[q].level > 0 && page.NodePage? && !page.leaf
    requires page.nodes == if q == parent then v[parent].nodes[i := v[parent].nodes[i].(value := Child(n))] else v[q].nodes
    ensures BranchOk(page, fr[q], Renamed(fr, p, n))
  {
    var r := Renamed(fr, p, n);
    assert BranchOk(v[q], fr[q], fr);
    forall j | 0 <= j < |page.nodes| ensures LinkOk(page.nodes, j, fr[q], r) {
      assert LinkOk(v[q].nodes, j, fr[q], fr);
      if v[q].nodes[j].value.page == p {
        OneParent(v, fr, fr, q, j, parent, i);
      }
    }
  }

  lemma ChildIsNotRoot(v: Pages, fr: Frames, root: PageNo, parent: PageNo, i: int, p: PageNo)
    requires RootOk(root, fr) && BranchesOk(v, fr, fr) && p in fr && ChildAt(v, fr, parent, i, p)
    ensures root != p && BranchOk(v[parent], fr[parent], fr)
  {
    assert BranchOk(v[parent], fr[parent], fr);
    assert LinkOk(v[parent].nodes, i, fr[parent], fr);
  }

  lemma TouchedBranches(v: Pages, fr: Frames, p: PageNo, n: PageNo, parent: PageNo, i: int, w: Pages)
    requires RangesOk(fr) && BranchesOk(v, fr, fr) && p in fr && n !in fr && ChildAt(v, fr, parent, i, p) && !v[parent].leaf
    requires p in v && n in w && SameContent(v[p], w[n]) && p != parent
    requires parent in w && SameContent(
      v[parent].(nodes := v[parent].nodes[i := v[parent].nodes[i].(value := Child(n))]), w[parent])
    requires Agree(v, w, fr.Keys - {p, parent})
    ensures BranchesOk(w, Renamed(fr, p, n), Renamed(fr, p, n))
  {
    hide RangesOk, LinkOk, Within, Sorted;
    var r := Renamed(fr, p, n);
    forall q | q in r && r[q].level > 0 ensures q in w && BranchOk(w[q], r[q], r) {
      var q0 := if q == n then p else q;
      assert fr[q0] == r[q] && BranchOk(v[q0], fr[q0], fr);
      RenamedBranch(v, fr, p, n, parent, i, q0, w[q]);
    }
  }

  /** touchNodePage on a page below the root: the copy takes its place in the parent. */
  lemma TouchChild(v: Pages, t: Tree, p: PageNo, n: PageNo, parent: PageNo, i: int, w: Pages)
    requires TreeOk(v, t) && p in t.frames && n !in t.Live() && n != INVALID_PAGE
    requires ChildAt(v, t.frames, parent, i, p)
    requires n in w && SameContent(v[p], w[n])
    requires parent in w && SameContent(
      v[parent].(nodes := v[parent].nodes[i := v[parent].nodes[i].(value := Child(n))]), w[parent])
    requires Agree(v, w, t.Live() - {p, parent})
    ensures TreeOk(w, t.(frames := Renamed(t.frames, p, n)))
  {
    hide RangesOk, RootOk, LeavesOk, BranchesOk, ChainsOk, LinkOk, Sorted, Within;
    var fr := t.frames;
    ChildIsNotRoot(v, fr, t.root, parent, i, p);
    ChildDiffers(v, fr, parent, i, p);
    RenamedRanges(fr, p, n, t.root);
    HasPage(v, fr, t.entries, t.chains, p);
    TouchedLeaves(v, fr, p, n, parent, w, t.entries, t.chains);
    AgreeChains(v, w, t.chains);
    TouchedBranches(v, fr, p, n, parent, i, w);
  }

  lemma HasPage(v: Pages, fr: Frames, entries: Entries, chains: Chains, p: PageNo)
    requires LeavesOk(v, fr, entries, chains) && BranchesOk(v, fr, fr) && p in fr
    ensures p in v && v[p].NodePage?
  {
    assert fr[p].level == 0 ==> LeafOk(v[p], fr[p], entries, chains);
    assert fr[p].level > 0 ==> BranchOk(v[p], fr[p], fr);
  }

  lemma ChildDiffers(v: Pages, fr: Frames, parent: PageNo, i: int, p: PageNo)
    requires BranchesOk(v, fr, fr) && p in fr && ChildAt(v, fr, parent, i, p)
    ensures p != parent && fr[p].level == fr[parent].level - 1
  {
    assert BranchOk(v[parent], fr[parent], fr);
    assert LinkOk(v[parent].nodes, i, fr[parent], fr);
  }

  lemma TouchedLeaves(v: Pages, fr: Frames, p: PageNo, n: PageNo, parent: PageNo, w: Pages, entries: Entries, chains: Chains)
    requires LeavesOk(v, fr, entries, chains) && p in fr && n !in fr && parent in fr && fr[parent].level > 0
    requires p in v && n in w && SameContent(v[p], w[n]) && Agree(v, w, fr.Keys - {p, parent})
    ensures LeavesOk(w, Renamed(fr, p, n), entries, chains)
  {
    RenamedLeaves(v, fr, p, n, w, entries, chains);
  }

  lemma TouchedRootBranches(v: Pages, fr: Frames, root: PageNo, n: PageNo, w: Pages)
    requires RootOk(root, fr) && BranchesOk(v, fr, fr) && n !in fr
    requires root in v && n in w && SameContent(v[root], w[n]) && Agree(v, w, fr.Keys - {root})
    ensures BranchesOk(w, Renamed(fr, root, n), Renamed(fr, root, n))
  {
    hide Sorted, Within;
    var r := Renamed(fr, root, n);
    forall q | q in r && r[q].level > 0 ensures q in w && BranchOk(w[q], r[q], r) {
      var q0 := if q == n then root else q;
      assert BranchOk(v[q0], fr[q0], fr);
      forall j | 0 <= j < |w[q].nodes| ensures LinkOk(w[q].nodes, j, r[q], r) {
        assert LinkOk(v[q0].nodes, j, fr[q0], fr);
      }
    }
  }

  /** touchNodePage on the root. */
  lemma TouchRoot(v: Pages, t: Tree, n: PageNo, w: Pages)
    requires TreeOk(v, t) && t.root != INVALID_PAGE && n !in t.Live() && n != INVALID_PAGE
    requires n in w && SameContent(v[t.root], w[n])
    requires Agree(v, w, t.Live() - {t.root})
    ensures TreeOk(w, t.(root := n, frames := Renamed(t.frames, t.root, n)))
  {
    hide RangesOk, LeavesOk, BranchesOk, ChainsOk;
    var fr := t.frames;
    HasPage(v, fr, t.entries, t.chains, t.root);
    RenamedRanges(fr, t.root, n, t.root);
    RenamedLeaves(v, fr, t.root, n, w, t.entries, t.chains);
    AgreeChains(v, w, t.chains);
    TouchedRootBranches(v, fr, t.root, n, w);
  }

  // ---- entries come and go in one leaf ---------------------------------------------------------------------

  ghost predicate SameOutside(f: Frame, a: Entries, b: Entries, ca: Chains, cb: Chains) {
    && (forall o :: !Covers(f, o) ==> (o in a <==> o in b))
    && (forall o :: !Covers(f, o) && o in a ==> a[o] == b[o])
    && (forall c :: c in ca && !Covers(f, ca[c].owner) ==> c in cb && cb[c] == ca[c])
  }

  /** A leaf takes new contents; entries outside its interval are as before. */
  lemma LeafUpdate(v: Pages, t: Tree, p: PageNo, w: Pages, entries: Entries, chains: Chains)
    requires TreeOk(v, t) && p in t.frames && t.frames[p].level == 0
    requires p in w && LeafOk(w[p], t.frames[p], entries, chains)
    requires Agree(v, w, t.frames.Keys - {p})
    requires SameOutside(t.frames[p], t.entries, entries, t.chains, chains)
    requires t.frames.Keys !! chains.Keys && ChainsOk(w, chains) && OwnersOk(chains, entries)
    requires forall o :: o in entries ==> 0.0 <= o < TOP
    ensures TreeOk(w, t.(entries := entries, chains := chains))
  {
    var fr := t.frames;
    assert LeavesOk(w, fr, entries, chains) by {
      forall q | q in fr && fr[q].level == 0 ensures q in w && LeafOk(w[q], fr[q], entries, chains) {
        if q != p {
          LeafElsewhere(v[q], w[q], fr[q], fr[p], t, entries, chains);
        }
      }
    }
    assert BranchesOk(w, fr, fr) by {
      forall q | q in fr && fr[q].level > 0 ensures q in w && BranchOk(w[q], fr[q], fr) {
        assert BranchOk(v[q], fr[q], fr);
      }
    }
  }

  lemma LeafElsewhere(a: Page, b: Page, f: Frame, g: Frame, t: Tree, entries: Entries, chains: Chains)
    requires LeafOk(a, f, t.entries, t.chains) && SameContent(a, b)
    requires f.hi <= g.lo || g.hi <= f.lo
    requires SameOutside(g, t.entries, entries, t.chains, chains)
    ensures LeafOk(b, f, entries, chains)
  {
    forall i | 0 <= i < |b.nodes| ensures Holds(b.nodes[i], entries, chains) {
      assert Holds(a.nodes[i], t.entries, t.chains) && Covers(f, a.nodes[i].key.ord);
    }
  }

  /** Putting a key into the leaf that covers it, over no entry of that key. */
  lemma LeafInsert(p: Page, f: Frame, entries: Entries, chains: Chains, nd: Node, data: Bytes, chains': Chains)
    requires LeafOk(p, f, entries, chains) && nd.key.ord !in entries
    requires 0.0 <= nd.key.ord && Covers(f, nd.key.ord)
    requires forall c :: c in chains ==> c in chains' && chains'[c] == chains[c]
    requires Holds(nd, entries[nd.key.ord := data], chains')
    ensures LeafOk(p.(nodes := Insert(p.nodes, nd)), f, entries[nd.key.ord := data], chains')
    ensures !Contains(p.nodes, nd.key.ord)
  {
    var i := LowerBound(p.nodes, nd.key.ord);
    assert Sorted(p.nodes) && !Contains(p.nodes, nd.key.ord) by {
      assert i < |p.nodes| ==> Holds(p.nodes[i], entries, chains);
    }
    InsertShifts(p.nodes, nd);
    LeafGrows(p, f, entries, chains, nd, data, chains', i, Insert(p.nodes, nd));
  }

  lemma LeafGrows(p: Page, f: Frame, entries: Entries, chains: Chains, nd: Node, data: Bytes, chains': Chains,
                  i: nat, ns: seq<Node>)
    requires LeafOk(p, f, entries, chains) && nd.key.ord !in entries && Covers(f, nd.key.ord)
    requires forall c :: c in chains ==> c in chains' && chains'[c] == chains[c]
    requires Holds(nd, entries[nd.key.ord := data], chains')
    requires Sorted(ns) && |ns| == |p.nodes| + 1 && i < |ns| && ns[i] == nd
    requires forall k :: 0 <= k < |p.nodes| ==> ns[if k < i then k else k + 1] == p.nodes[k]
    ensures LeafOk(p.(nodes := ns), f, entries[nd.key.ord := data], chains')
  {
    forall j | 0 <= j < |ns| ensures Covers(f, ns[j].key.ord) && Holds(ns[j], entries[nd.key.ord := data], chains') {
      if j != i {
        var k := if j < i then j else j - 1;
        assert ns[if k < i then k else k + 1] == p.nodes[k] && Holds(p.nodes[k], entries, chains);
      }
    }
    forall o | o in entries && Covers(f, o) ensures HasKey(ns, o) {
      var k :| 0 <= k < |p.nodes| && p.nodes[k].key.ord == o;
      assert ns[if k < i then k else k + 1].key.ord == o;
    }
  }

  /** Taking the key at position i out of the leaf that holds it. */
  lemma LeafRemove(p: Page, f: Frame, entries: Entries, chains: Chains, i: nat, chains': Chains)
    requires LeafOk(p, f, entries, chains) && i < |p.nodes|
    requires forall c :: c in chains && chains[c].owner != p.nodes[i].key.ord ==> c in chains' && chains'[c] == chains[c]
    ensures LeafOk(p.(nodes := Remove(p.nodes, p.nodes[i].key.ord)), f, entries - {p.nodes[i].key.ord}, chains')
  {
    RemoveIs(p.nodes, i);
    LeafShrinks(p, f, entries, chains, i, chains', Remove(p.nodes, p.nodes[i].key.ord));
  }

  lemma LeafShrinks(p: Page, f: Frame, entries: Entries, chains: Chains, i: nat, chains': Chains, ns: seq<Node>)
    requires LeafOk(p, f, entries, chains) && i < |p.nodes|
    requires forall c :: c in chains && chains[c].owner != p.nodes[i].key.ord ==> c in chains' && chains'[c] == chains[c]
    requires Sorted(ns) && |ns| == |p.nodes| - 1
    requires forall k :: 0 <= k < |ns| ==> ns[k] == p.nodes[if k < i then k else k + 1]
    ensures LeafOk(p.(nodes := ns), f, entries - {p.nodes[i].key.ord}, chains')
  {
    var o0 := p.nodes[i].key.ord;
    forall j | 0 <= j < |ns| ensures Covers(f, ns[j].key.ord) && Holds(ns[j], entries - {o0}, chains') {
      assert Holds(p.nodes[if j < i then j else j + 1], entries, chains);
    }
    forall o | o in entries && o != o0 && Covers(f, o) ensures HasKey(ns, o) {
      var k :| 0 <= k < |p.nodes| && p.nodes[k].key.ord == o;
      var j := if k < i then k else k - 1;
      assert ns[j] == p.nodes[if j < i then j else j + 1];
    }
  }

  // ---- the root comes, grows and goes ----------------------------------------------------------------------

  lemma FirstRoot(v: Pages, t: Tree, n: PageNo, w: Pages)
    requires TreeOk(v, t) && t.root == INVALID_PAGE && n != INVALID_PAGE && n !in t.chains
    requires n in w && w[n].NodePage? && w[n].leaf && w[n].nodes == []
    requires Agree(v, w, t.chains.Keys)
    ensures TreeOk(w, t.(root := n, frames := map[n := Frame(0.0, TOP, 0)]))
  {
    AgreeChains(v, w, t.chains);
  }

  ghost function Grown(t: Tree, n: PageNo): Tree
    requires t.root in t.frames
  {
    t.(root := n, frames := t.frames[n := Frame(0.0, TOP, t.frames[t.root].level + 1)])
  }

  /** split on a page without parent first puts a branch with one child above it. */
  lemma GrowRoot(v: Pages, t: Tree, n: PageNo, w: Pages)
    requires TreeOk(v, t) && t.root != INVALID_PAGE && n !in t.Live() && n != INVALID_PAGE
    requires n in w && w[n].NodePage? && !w[n].leaf && w[n].nodes == [Node(EMPTY_KEY, Child(t.root))]
    requires Agree(v, w, t.Live())
    ensures TreeOk(w, Grown(t, n))
  {
    var fr, r := t.frames, Grown(t, n).frames;
    AgreeChains(v, w, t.chains);
    assert LeavesOk(w, r, t.entries, t.chains) by {
      AgreeLeaves(v, w, fr, t.entries, t.chains);
    }
    assert BranchesOk(w, r, r) by {
      forall q | q in r && r[q].level > 0 ensures q in w && BranchOk(w[q], r[q], r) {
        if q == n {
          assert LinkOk(w[q].nodes, 0, r[q], r);
        } else {
          assert BranchOk(v[q], fr[q], fr);
          forall j | 0 <= j < |w[q].nodes| ensures LinkOk(w[q].nodes, j, r[q], r) {
            assert LinkOk(v[q].nodes, j, fr[q], fr);
          }
        }
      }
    }
  }

  /** rebalance: an empty root leaves an empty tree. */
  lemma EmptyRoot(v: Pages, t: Tree)
    requires TreeOk(v, t) && t.root != INVALID_PAGE && t.root in v && v[t.root].NodePage? && v[t.root].nodes == []
    ensures TreeOk(v, t.(root := INVALID_PAGE, frames := map[]))
    ensures t.entries == map[] && t.frames.Keys == {t.root}
  {
    var f := t.frames[t.root];
    assert f.level == 0;
    assert LeafOk(v[t.root], f, t.entries, t.chains);
    forall o | o in t.entries ensures false {
      assert Covers(f, o);
    }
    assert t.entries == map[];
    forall p | p in t.frames ensures p == t.root {
      assert t.frames[p].level == 0;
    }
  }

  /** rebalance: a root branch with one child gives way to the child. */
  lemma CollapseRoot(v: Pages, t: Tree, c: PageNo)
    requires TreeOk(v, t) && ChildAt(v, t.frames, t.root, 0, c) && |v[t.root].nodes| == 1
    ensures c in t.frames
    ensures TreeOk(v, t.(root := c, frames := t.frames - {t.root}))
  {
    var fr := t.frames;
    var r := fr - {t.root};
    assert BranchOk(v[t.root], fr[t.root], fr);
    assert LinkOk(v[t.root].nodes, 0, fr[t.root], fr);
    assert c != t.root;
    forall q | q in r ensures fr[q].level <= fr[c].level {
      assert fr[q].level != fr[t.root].level;
    }
    assert LeavesOk(v, r, t.entries, t.chains);
    assert BranchesOk(v, r, r) by {
      forall q | q in r && r[q].level > 0 ensures q in v && BranchOk(v[q], r[q], r) {
        assert BranchOk(v[q], fr[q], fr);
        forall j | 0 <= j < |v[q].nodes| ensures LinkOk(v[q].nodes, j, r[q], r) {
          assert LinkOk(v[q].nodes, j, fr[q], fr);
        }
      }
    }
  }

  // ---- dividing a page and linking the new half ------------------------------------------------------------

  ghost function Divided(fr: Frames, l: PageNo, r: PageNo, sk: real): Frames
    requires l in fr
  {
    fr[l := Frame(fr[l].lo, sk, fr[l].level)][r := Frame(sk, fr[l].hi, fr[l].level)]
  }

  /** The nodes of l are shared out: the first si stay, the others go to r. */
  ghost predicate SharedOut(v: Pages, w: Pages, fr: Frames, l: PageNo, r: PageNo, si: int) {
    && l in fr && l in v && l in w && r in w && r !in fr
    && v[l].NodePage? && w[l].NodePage? && w[r].NodePage?
    && w[l].leaf == v[l].leaf && w[r].leaf == v[l].leaf
    && 0 < si < |v[l].nodes| && w[l].nodes == v[l].nodes[..si] && w[r].nodes == v[l].nodes[si..]
  }

  lemma DividedRanges(fr: Frames, l: PageNo, r: PageNo, sk: real, root: PageNo)
    requires RangesOk(fr) && RootOk(root, fr) && l in fr && r !in fr && root != l
    requires fr[l].lo < sk < fr[l].hi
    ensures RangesOk(Divided(fr, l, r, sk)) && RootOk(root, Divided(fr, l, r, sk))
  {
    var d := Divided(fr, l, r, sk);
    forall a, b | a in d && b in d && a != b && d[a].level == d[b].level
      ensures d[a].hi <= d[b].lo || d[b].hi <= d[a].lo
    {
      DividedPair(fr, l, r, sk, a, b);
    }
  }

  lemma DividedPair(fr: Frames, l: PageNo, r: PageNo, sk: real, a: PageNo, b: PageNo)
    requires RangesOk(fr) && l in fr && r !in fr && fr[l].lo < sk < fr[l].hi
    requires var d := Divided(fr, l, r, sk); a in d && b in d && a != b && d[a].level == d[b].level
    ensures var d := Divided(fr, l, r, sk); d[a].hi <= d[b].lo || d[b].hi <= d[a].lo
  {
    var a0, b0 := if a == r then l else a, if b == r then l else b;
    assert a0 in fr && b0 in fr;
    if a0 != b0 {
      assert fr[a0].hi <= fr[b0].lo || fr[b0].hi <= fr[a0].lo;
    }
  }

  /** The halves of a sorted list hold the keys below and from the cut. */
  lemma HalvesHaveKeys(ns: seq<Node>, si: int, o: real)
    requires Sorted(ns) && 0 <= si < |ns| && HasKey(ns, o)
    ensures o < ns[si].key.ord ==> HasKey(ns[..si], o)
    ensures ns[si].key.ord <= o ==> HasKey(ns[si..], o)
  {
    var k :| 0 <= k < |ns| && ns[k].key.ord == o;
    if k < si {
      assert ns[..si][k].key.ord == o;
    } else {
      assert ns[si..][k - si].key.ord == o;
    }
  }

  lemma HalvesSorted(ns: seq<Node>, si: int, f: Frame)
    requires Sorted(ns) && Within(ns, f) && 0 <= si < |ns|
    ensures Sorted(ns[..si]) && Within(ns[..si], Frame(f.lo, ns[si].key.ord, f.level))
    ensures Sorted(ns[si..]) && Within(ns[si..], Frame(ns[si].key.ord, f.hi, f.level))
  {
  }

  lemma DividedLeafLow(p: Page, f: Frame, entries: Entries, chains: Chains, si: int, a: Page)
    requires LeafOk(p, f, entries, chains) && 0 < si < |p.nodes|
    requires a.NodePage? && a.leaf && a.nodes == p.nodes[..si]
    ensures LeafOk(a, Frame(f.lo, p.nodes[si].key.ord, 0), entries, chains)
  {
    hide Sorted, HasKey, Holds;
    HalvesSorted(p.nodes, si, f);
    assert Covers(f, p.nodes[si].key.ord);
    forall o | o in entries && f.lo <= o < p.nodes[si].key.ord ensures HasKey(a.nodes, o) {
      assert Covers(f, o);
      HalvesHaveKeys(p.nodes, si, o);
    }
  }

  lemma DividedLeafHigh(p: Page, f: Frame, entries: Entries, chains: Chains, si: int, b: Page)
    requires LeafOk(p, f, entries, chains) && 0 < si < |p.nodes|
    requires b.NodePage? && b.leaf && b.nodes == p.nodes[si..]
    ensures LeafOk(b, Frame(p.nodes[si].key.ord, f.hi, 0), entries, chains)
  {
    hide Sorted, HasKey, Holds;
    HalvesSorted(p.nodes, si, f);
    assert Covers(f, p.nodes[si].key.ord);
    forall o | o in entries && p.nodes[si].key.ord <= o < f.hi ensures HasKey(b.nodes, o) {
      assert Covers(f, o);
      HalvesHaveKeys(p.nodes, si, o);
    }
  }

  lemma DividedBranch(p: Page, f: Frame, shown: Frames, si: int, a: Page, b: Page)
    requires BranchOk(p, f, shown) && 0 < si < |p.nodes|
    requires a.NodePage? && !a.leaf && a.nodes == p.nodes[..si]
    requires b.NodePage? && !b.leaf && b.nodes == p.nodes[si..]
    ensures BranchOk(a, Frame(f.lo, p.nodes[si].key.ord, f.level), shown)
    ensures BranchOk(b, Frame(p.nodes[si].key.ord, f.hi, f.level), shown)
  {
    forall i | 0 <= i < |a.nodes| ensures LinkOk(a.nodes, i, Frame(f.lo, p.nodes[si].key.ord, f.level), shown) {
      assert LinkOk(p.nodes, i, f, shown);
    }
    forall i | 0 <= i < |b.nodes| ensures LinkOk(b.nodes, i, Frame(p.nodes[si].key.ord, f.hi, f.level), shown) {
      assert LinkOk(p.nodes, si + i, f, shown);
    }
  }

  /** split: after the nodes are shared out every page is right except that the parent still shows one page. */
  lemma Divide(v: Pages, t: Tree, l: PageNo, r: PageNo, si: int, w: Pages)
    requires NodesOk(v, t) && l != t.root && SharedOut(v, w, t.frames, l, r, si)
    requires Agree(v, w, t.frames.Keys - {l})
    ensures t.frames[l].lo < v[l].nodes[si].key.ord < t.frames[l].hi
    ensures RangesOk(Divided(t.frames, l, r, v[l].nodes[si].key.ord))
    ensures RootOk(t.root, Divided(t.frames, l, r, v[l].nodes[si].key.ord))
    ensures LeavesOk(w, Divided(t.frames, l, r, v[l].nodes[si].key.ord), t.entries, t.chains)
    ensures BranchesOk(w, Divided(t.frames, l, r, v[l].nodes[si].key.ord), t.frames)
  {
    var fr := t.frames;
    var sk := v[l].nodes[si].key.ord;
    var d := Divided(fr, l, r, sk);
    if fr[l].level == 0 {
      DividedLeafLow(v[l], fr[l], t.entries, t.chains, si, w[l]);
      DividedLeafHigh(v[l], fr[l], t.entries, t.chains, si, w[r]);
    } else {
      DividedBranch(v[l], fr[l], fr, si, w[l], w[r]);
    }
    assert Covers(fr[l], sk) && Covers(fr[l], v[l].nodes[0].key.ord);
    DividedRanges(fr, l, r, sk, t.root);
    forall q | q in d && d[q].level == 0 ensures q in w && LeafOk(w[q], d[q], t.entries, t.chains) {
      if q != l && q != r {
        assert LeafOk(v[q], fr[q], t.entries, t.chains);
      }
    }
    forall q | q in d && d[q].level > 0 ensures q in w && BranchOk(w[q], d[q], fr) {
      if q != l && q != r {
        assert BranchOk(v[q], fr[q], fr);
      }
    }
  }

  ghost function Linked(ns: seq<Node>, i: int, key: Key, r: PageNo): seq<Node>
    requires 0 <= i < |ns|
  {
    ns[..i + 1] + [Node(key, Child(r))] + ns[i + 1..]
  }

  lemma LinkedParent(p: Page, f: Frame, fr: Frames, l: PageNo, r: PageNo, i: int, key: Key, p': Page)
    requires BranchOk(p, f, fr) && l in fr && r !in fr && 0 <= i < |p.nodes| && p.nodes[i].value == Child(l)
    requires fr[l].lo < key.ord < fr[l].hi
    requires p'.NodePage? && !p'.leaf && p'.nodes == Linked(p.nodes, i, key, r)
    ensures BranchOk(p', f, Divided(fr, l, r, key.ord))
  {
    hide Sorted, Within;
    var d := Divided(fr, l, r, key.ord);
    assert LinkOk(p.nodes, i, f, fr);
    var ns := p'.nodes;
    LinkedSorted(p.nodes, i, key, r, f);
    forall j | 0 <= j < |ns| ensures LinkOk(ns, j, f, d) {
      if j != i + 1 {
        var k := if j <= i then j else j - 1;
        assert LinkOk(p.nodes, k, f, fr);
        if k != i {
          KeysDiffer(p.nodes, k, i);
        }
      }
    }
  }

  lemma KeysDiffer(ns: seq<Node>, i: int, j: int)
    requires Sorted(ns) && 0 <= i < |ns| && 0 <= j < |ns| && i != j
    ensures ns[i].key.ord != ns[j].key.ord
  {
  }

  lemma LinkedSorted(ns: seq<Node>, i: int, key: Key, r: PageNo, f: Frame)
    requires Sorted(ns) && Within(ns, f) && 0 <= i < |ns| && ns[i].key.ord < key.ord < NextOrd(ns, i, f.hi)
    ensures var ms := Linked(ns, i, key, r);
      && Sorted(ms) && Within(ms, f) && |ms| == |ns| + 1 && ms[i + 1] == Node(key, Child(r))
      && forall j :: 0 <= j < |ms| && j != i + 1 ==> ms[j] == ns[if j <= i then j else j - 1]
  {
    var ms := Linked(ns, i, key, r);
    assert Covers(f, ns[i].key.ord);
    assert i + 1 < |ns| ==> Covers(f, ns[i + 1].key.ord);
    assert forall j :: 0 <= j <= i ==> ns[j].key.ord <= ns[i].key.ord;
    assert forall j :: i + 1 < j < |ns| ==> ns[i + 1].key.ord < ns[j].key.ord;
  }

  /** The parent learns of the new page and shows the frames as they are. */
  lemma LinkParent(v: Pages, fr: Frames, l: PageNo, r: PageNo, parent: PageNo, i: int, key: Key, w: Pages)
    requires l in fr && r !in fr && fr[l].lo < key.ord < fr[l].hi && RangesOk(Divided(fr, l, r, key.ord))
    requires BranchesOk(v, Divided(fr, l, r, key.ord), fr)
    requires parent in fr && parent != l && fr[parent].level > 0 && parent in v && v[parent].NodePage?
    requires 0 <= i < |v[parent].nodes| && v[parent].nodes[i].value == Child(l)
    requires Agree(v, w, Divided(fr, l, r, key.ord).Keys - {parent})
    requires parent in w && w[parent].NodePage? && !w[parent].leaf
    requires w[parent].nodes == Linked(v[parent].nodes, i, key, r)
    ensures BranchesOk(w, Divided(fr, l, r, key.ord), Divided(fr, l, r, key.ord))
  {
    var d := Divided(fr, l, r, key.ord);
    forall q | q in d && d[q].level > 0 ensures q in w && BranchOk(w[q], d[q], d) {
      assert BranchOk(v[q], d[q], fr);
      if q == parent {
        LinkedParent(v[q], d[q], fr, l, r, i, key, w[q]);
      } else {
        forall j | 0 <= j < |w[q].nodes| ensures LinkOk(w[q].nodes, j, d[q], d) {
          assert LinkOk(v[q].nodes, j, d[q], fr);
          if v[q].nodes[j].value.page == l {
            OneParent(v, d, fr, q, j, parent, i);
          }
        }
      }
    }
  }

  // ---- merging two neighbours ------------------------------------------------------------------------------

  ghost function Joined(fr: Frames, a: PageNo, b: PageNo, dst: PageNo): Frames
    requires a in fr && b in fr
  {
    (fr - {a, b})[dst := Frame(fr[a].lo, fr[b].hi, fr[a].level)]
  }

  ghost predicate Neighbours(v: Pages, fr: Frames, parent: PageNo, i: int, a: PageNo, b: PageNo) {
    ChildAt(v, fr, parent, i, a) && ChildAt(v, fr, parent, i + 1, b)
  }

  lemma NeighbourFrames(v: Pages, fr: Frames, parent: PageNo, i: int, a: PageNo, b: PageNo)
    requires RangesOk(fr) && BranchesOk(v, fr, fr) && Neighbours(v, fr, parent, i, a, b)
    ensures a in fr && b in fr && a != b && a != parent && b != parent
    ensures fr[a].level == fr[b].level == fr[parent].level - 1
    ensures fr[a].lo == v[parent].nodes[i].key.ord
    ensures fr[a].hi == fr[b].lo == v[parent].nodes[i + 1].key.ord
    ensures fr[b].hi == NextOrd(v[parent].nodes, i + 1, fr[parent].hi)
  {
    assert BranchOk(v[parent], fr[parent], fr);
    assert LinkOk(v[parent].nodes, i, fr[parent], fr) && LinkOk(v[parent].nodes, i + 1, fr[parent], fr);
  }

  lemma JoinedRanges(fr: Frames, a: PageNo, b: PageNo, dst: PageNo, root: PageNo)
    requires RangesOk(fr) && RootOk(root, fr) && a in fr && b in fr && a != b && root != a && root != b
    requires fr[a].hi == fr[b].lo && fr[a].level == fr[b].level && (dst == a || dst == b)
    ensures RangesOk(Joined(fr, a, b, dst)) && RootOk(root, Joined(fr, a, b, dst))
  {
    var d := Joined(fr, a, b, dst);
    forall x, y | x in d && y in d && x != y && d[x].level == d[y].level
      ensures d[x].hi <= d[y].lo || d[y].hi <= d[x].lo
    {
      if x == dst || y == dst {
        var z := if x == dst then y else x;
        assert z in fr && d[z] == fr[z];
        assert fr[z].hi <= fr[a].lo || fr[a].hi <= fr[z].lo;
        assert fr[z].hi <= fr[b].lo || fr[b].hi <= fr[z].lo;
      }
    }
  }

  lemma JoinedLeaf(a: Page, f: Frame, b: Page, g: Frame, entries: Entries, chains: Chains, p: Page)
    requires LeafOk(a, f, entries, chains) && LeafOk(b, g, entries, chains) && f.hi == g.lo && f.lo <= f.hi <= g.hi
    requires p.NodePage? && p.leaf && p.nodes == a.nodes + b.nodes
    ensures LeafOk(p, Frame(f.lo, g.hi, 0), entries, chains)
  {
    hide Sorted, Holds;
    forall i | 0 <= i < |p.nodes| ensures Covers(Frame(f.lo, g.hi, 0), p.nodes[i].key.ord) && Holds(p.nodes[i], entries, chains) {
      if i < |a.nodes| {
        assert Covers(f, a.nodes[i].key.ord) && Holds(a.nodes[i], entries, chains);
      } else {
        assert Covers(g, b.nodes[i - |a.nodes|].key.ord) && Holds(b.nodes[i - |a.nodes|], entries, chains);
      }
    }
    JoinedSorted(a.nodes, f, b.nodes, g);
    forall o | o in entries && Covers(Frame(f.lo, g.hi, 0), o) ensures HasKey(p.nodes, o) {
      JoinedHasKey(a.nodes, b.nodes, o);
      assert Covers(f, o) || Covers(g, o);
    }
  }

  lemma JoinedHasKey(a: seq<Node>, b: seq<Node>, o: real)
    ensures HasKey(a, o) || HasKey(b, o) ==> HasKey(a + b, o)
  {
    if HasKey(a, o) {
      var k :| 0 <= k < |a| && a[k].key.ord == o;
      assert (a + b)[k].key.ord == o;
    }
    if HasKey(b, o) {
      var k :| 0 <= k < |b| && b[k].key.ord == o;
      assert (a + b)[|a| + k].key.ord == o;
    }
  }

  lemma JoinedSorted(a: seq<Node>, f: Frame, b: seq<Node>, g: Frame)
    requires Sorted(a) && Within(a, f) && Sorted(b) && Within(b, g) && f.hi == g.lo
    ensures Sorted(a + b)
  {
    var r := a + b;
    forall i, j | 0 <= i < j < |r| ensures r[i].key.ord < r[j].key.ord {
      if i < |a| <= j {
        assert Covers(f, a[i].key.ord) && Covers(g, b[j - |a|].key.ord);
      }
    }
  }

  lemma JoinedBranch(a: Page, f: Frame, b: Page, g: Frame, shown: Frames, p: Page)
    requires BranchOk(a, f, shown) && BranchOk(b, g, shown) && f.hi == g.lo && f.level == g.level
    requires p.NodePage? && !p.leaf && p.nodes == a.nodes + b.nodes
    ensures BranchOk(p, Frame(f.lo, g.hi, f.level), shown)
  {
    var h := Frame(f.lo, g.hi, f.level);
    var n := |a.nodes|;
    assert Covers(g, b.nodes[0].key.ord) && Covers(f, a.nodes[0].key.ord);
    forall i | 0 <= i < |p.nodes| ensures Covers(h, p.nodes[i].key.ord) && LinkOk(p.nodes, i, h, shown) {
      if i < n {
        assert Covers(f, a.nodes[i].key.ord) && LinkOk(a.nodes, i, f, shown);
      } else {
        assert Covers(g, b.nodes[i - n].key.ord) && LinkOk(b.nodes, i - n, g, shown);
      }
    }
    JoinedSorted(a.nodes, f, b.nodes, g);
  }

  ghost function Unlinked(ns: seq<Node>, i: int, dst: PageNo): seq<Node>
    requires 0 <= i < |ns| - 1
  {
    ns[..i] + [Node(ns[i].key, Child(dst))] + ns[i + 2..]
  }

  lemma UnlinkedParent(p: Page, f: Frame, fr: Frames, a: PageNo, b: PageNo, dst: PageNo, i: int, p': Page)
    requires BranchOk(p, f, fr) && a in fr && b in fr && (dst == a || dst == b)
    requires 0 <= i < |p.nodes| - 1 && p.nodes[i].value == Child(a) && p.nodes[i + 1].value == Child(b)
    requires p'.NodePage? && !p'.leaf && p'.nodes == Unlinked(p.nodes, i, dst)
    ensures BranchOk(p', f, Joined(fr, a, b, dst))
  {
    hide Sorted, Within;
    var d := Joined(fr, a, b, dst);
    var ns := p'.nodes;
    assert LinkOk(p.nodes, i, f, fr) && LinkOk(p.nodes, i + 1, f, fr);
    UnlinkedSorted(p.nodes, i, dst, f);
    forall j | 0 <= j < |ns| ensures LinkOk(ns, j, f, d) {
      if j != i {
        var k := if j < i then j else j + 1;
        assert LinkOk(p.nodes, k, f, fr);
        KeysDiffer(p.nodes, k, i);
        KeysDiffer(p.nodes, k, i + 1);
      }
    }
  }

  lemma UnlinkedSorted(ns: seq<Node>, i: int, dst: PageNo, f: Frame)
    requires Sorted(ns) && Within(ns, f) && 0 <= i < |ns| - 1
    ensures var ms := Unlinked(ns, i, dst);
      && Sorted(ms) && Within(ms, f) && |ms| == |ns| - 1 && ms[i] == Node(ns[i].key, Child(dst))
      && forall j :: 0 <= j < |ms| && j != i ==> ms[j] == ns[if j < i then j else j + 1]
  {
    var ms := Unlinked(ns, i, dst);
    assert forall j :: 0 <= j < |ms| ==> ms[j].key == ns[if j <= i then j else j + 1].key;
  }

  /** mergePages: the nodes of two neighbours come together in one of them, the parent forgets the other. */
  lemma Merge(v: Pages, t: Tree, parent: PageNo, i: int, a: PageNo, b: PageNo, dst: PageNo, w: Pages)
    requires NodesOk(v, t) && Neighbours(v, t.frames, parent, i, a, b) && (dst == a || dst == b)
    requires a in v && b in v && v[a].NodePage? && v[b].NodePage?
    requires a in t.frames && b in t.frames && Agree(v, w, t.frames.Keys - {a, b, parent})
    requires dst in w && w[dst].NodePage? && w[dst].leaf == v[dst].leaf && w[dst].nodes == v[a].nodes + v[b].nodes
    requires parent in w && w[parent].NodePage? && !w[parent].leaf && w[parent].nodes == Unlinked(v[parent].nodes, i, dst)
    ensures NodesOk(w, t.(frames := Joined(t.frames, a, b, dst)))
  {
    var fr := t.frames;
    var d := Joined(fr, a, b, dst);
    NeighbourFrames(v, fr, parent, i, a, b);
    JoinedRanges(fr, a, b, dst, t.root);
    MergeLeaves(v, t, parent, a, b, dst, w);
    forall q | q in d && d[q].level > 0 ensures q in w && BranchOk(w[q], d[q], d) {
      MergeBranch(v, t, parent, i, a, b, dst, w, q);
    }
  }

  lemma MergeLeaves(v: Pages, t: Tree, parent: PageNo, a: PageNo, b: PageNo, dst: PageNo, w: Pages)
    requires RangesOk(t.frames) && LeavesOk(v, t.frames, t.entries, t.chains)
    requires a in t.frames && b in t.frames && a != b && t.frames[a].level == t.frames[b].level
    requires t.frames[a].hi == t.frames[b].lo && parent in t.frames && t.frames[parent].level > 0
    requires Agree(v, w, t.frames.Keys - {a, b, parent}) && (dst == a || dst == b)
    requires a in v && b in v && v[a].NodePage? && v[b].NodePage?
    requires dst in w && w[dst].NodePage? && w[dst].leaf == v[dst].leaf && w[dst].nodes == v[a].nodes + v[b].nodes
    ensures LeavesOk(w, Joined(t.frames, a, b, dst), t.entries, t.chains)
  {
    var d := Joined(t.frames, a, b, dst);
    forall q | q in d && d[q].level == 0 ensures q in w && LeafOk(w[q], d[q], t.entries, t.chains) {
      if q == dst {
        assert LeafOk(v[a], t.frames[a], t.entries, t.chains) && LeafOk(v[b], t.frames[b], t.entries, t.chains);
        JoinedLeaf(v[a], t.frames[a], v[b], t.frames[b], t.entries, t.chains, w[dst]);
      } else {
        assert LeafOk(v[q], t.frames[q], t.entries, t.chains);
      }
    }
  }

  lemma MergeBranch(v: Pages, t: Tree, parent: PageNo, i: int, a: PageNo, b: PageNo, dst: PageNo, w: Pages, q: PageNo)
    requires RangesOk(t.frames) && BranchesOk(v, t.frames, t.frames)
    requires Neighbours(v, t.frames, parent, i, a, b) && (dst == a || dst == b)
    requires a in v && b in v && v[a].NodePage? && v[b].NodePage?
    requires a in t.frames && b in t.frames && Agree(v, w, t.frames.Keys - {a, b, parent})
    requires dst in w && w[dst].NodePage? && w[dst].leaf == v[dst].leaf && w[dst].nodes == v[a].nodes + v[b].nodes
    requires parent in w && w[parent].NodePage? && !w[parent].leaf && w[parent].nodes == Unlinked(v[parent].nodes, i, dst)
    requires q in Joined(t.frames, a, b, dst) && Joined(t.frames, a, b, dst)[q].level > 0
    ensures q in w && BranchOk(w[q], Joined(t.frames, a, b, dst)[q], Joined(t.frames, a, b, dst))
  {
    var fr := t.frames;
    var d := Joined(fr, a, b, dst);
    NeighbourFrames(v, fr, parent, i, a, b);
    var p: Page, f: Frame;
    if q == dst {
      assert BranchOk(v[a], fr[a], fr) && BranchOk(v[b], fr[b], fr);
      JoinedBranch(v[a], fr[a], v[b], fr[b], fr, w[dst]);
      p, f := w[dst], d[dst];
    } else {
      assert BranchOk(v[q], fr[q], fr);
      p, f := v[q], fr[q];
    }
    if q == parent {
      UnlinkedParent(p, f, fr, a, b, dst, i, w[q]);
    } else {
      forall j | 0 <= j < |p.nodes| ensures LinkOk(p.nodes, j, f, d) {
        assert LinkOk(p.nodes, j, f, fr);
        if q != dst {
          if p.nodes[j].value == Child(a) { OneParent(v, fr, fr, q, j, parent, i); }
          if p.nodes[j].value == Child(b) { OneParent(v, fr, fr, q, j, parent, i + 1); }
        }
      }
    }
  }

  // ---- shifting the boundary between two neighbours --------------------------------------------------------

  ghost function Shifted(fr: Frames, a: PageNo, b: PageNo, sk: real): Frames
    requires a in fr && b in fr
  {
    fr[a := Frame(fr[a].lo, sk, fr[a].level)][b := Frame(sk, fr[b].hi, fr[a].level)]
  }

  /** moveNode: the nodes of two neighbours are shared out anew, the parent takes the new separator. */
  lemma Shift(v: Pages, t: Tree, parent: PageNo, i: int, a: PageNo, b: PageNo, si: int, key: Key, w: Pages)
    requires NodesOk(v, t) && Neighbours(v, t.frames, parent, i, a, b)
    requires a in v && b in v && v[a].NodePage? && v[b].NodePage? && v[a].leaf == v[b].leaf
    requires a in t.frames && b in t.frames && Agree(v, w, t.frames.Keys - {a, b, parent})
    requires 0 < si < |v[a].nodes + v[b].nodes| && key == (v[a].nodes + v[b].nodes)[si].key
    requires a in w && w[a].NodePage? && w[a].leaf == v[a].leaf && w[a].nodes == (v[a].nodes + v[b].nodes)[..si]
    requires b in w && w[b].NodePage? && w[b].leaf == v[a].leaf && w[b].nodes == (v[a].nodes + v[b].nodes)[si..]
    requires parent in w && w[parent].NodePage? && !w[parent].leaf
    requires w[parent].nodes == v[parent].nodes[i + 1 := Node(key, Child(b))]
    ensures NodesOk(w, t.(frames := Shifted(t.frames, a, b, key.ord)))
  {
    hide LeavesOk, BranchesOk, RangesOk, RootOk;
    NeighbourFrames(v, t.frames, parent, i, a, b);
    ChildIsNotRoot(v, t.frames, t.root, parent, i, a);
    var ns := v[parent].nodes;
    var u := t.(frames := Joined(t.frames, a, b, a));
    var v1 := v[a := v[a].(nodes := v[a].nodes + v[b].nodes)][parent := v[parent].(nodes := Unlinked(ns, i, a), leaf := false)];
    Merge(v, t, parent, i, a, b, a, v1);
    var w1 := w[parent := v1[parent]];
    Divide(v1, u, a, b, si, w1);
    var d := Divided(u.frames, a, b, key.ord);
    assert w[parent].nodes == Linked(v1[parent].nodes, i, key, b) by {
      assert ns[i] == Node(ns[i].key, Child(a));
    }
    LinkParent(w1, u.frames, a, b, parent, i, key, w);
    assert d == Shifted(t.frames, a, b, key.ord);
    ShiftLeaves(w1, w, d, t, parent);
  }

  lemma ShiftLeaves(v: Pages, w: Pages, d: Frames, t: Tree, parent: PageNo)
    requires LeavesOk(v, d, t.entries, t.chains) && parent in d && d[parent].level > 0
    requires forall q :: q in d && q != parent && q in v ==> q in w && w[q] == v[q]
    ensures LeavesOk(w, d, t.entries, t.chains)
  {
  }
}

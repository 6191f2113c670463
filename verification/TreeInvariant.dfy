// What it means for a set of pages to be a B+tree that stands for a map.
//
// Every page of a tree has a frame: the half-open interval of keys it is responsible for and its height above the
// leaves. All conditions are local: a branch agrees with the frames of its children, a leaf with the entries of its
// own interval. `shown` is the frames as the branches see them; it differs from the frames only while a split has
// divided a page and not yet told the page's parent.
module TreeInvariant {
  import opened HBtreeRecords
  import opened OrderedNodes

  datatype Frame = Frame(lo: real, hi: real, level: nat)
  type Frames = map<PageNo, Frame>

  /** An overflow page holds `rest` from its first byte on, for the entry at `owner`. */
  datatype Chain = Chain(owner: real, rest: Bytes)
  type Chains = map<PageNo, Chain>
  type Entries = map<real, Bytes>

  ghost predicate Covers(f: Frame, o: real) {
    f.lo <= o < f.hi
  }

  ghost predicate Within(ns: seq<Node>, f: Frame) {
    forall i :: 0 <= i < |ns| ==> Covers(f, ns[i].key.ord)
  }

  ghost predicate HasKey(ns: seq<Node>, o: real) {
    exists i :: 0 <= i < |ns| && ns[i].key.ord == o
  }

  /** Where the interval of child i ends. */
  ghost function NextOrd(ns: seq<Node>, i: int, hi: real): real
    requires 0 <= i < |ns|
  {
    if i + 1 < |ns| then ns[i + 1].key.ord else hi
  }

  ghost predicate Holds(nd: Node, entries: Entries, chains: Chains) {
    && 0.0 <= nd.key.ord
    && nd.key.ord in entries
    && match nd.value
       case Inline(d) => entries[nd.key.ord] == d
       case Overflow(f) => f in chains && chains[f] == Chain(nd.key.ord, entries[nd.key.ord])
       case Child(_) => false
  }

  ghost predicate LeafOk(p: Page, f: Frame, entries: Entries, chains: Chains) {
    && p.NodePage? && p.leaf && f.level == 0 && Sorted(p.nodes) && Within(p.nodes, f)
    && (forall i :: 0 <= i < |p.nodes| ==> Holds(p.nodes[i], entries, chains))
    && (forall o :: o in entries && Covers(f, o) ==> HasKey(p.nodes, o))
  }

  ghost predicate LinkOk(ns: seq<Node>, i: int, f: Frame, shown: Frames)
    requires 0 <= i < |ns|
  {
    && ns[i].value.Child? && ns[i].value.page in shown && f.level > 0
    && shown[ns[i].value.page] == Frame(ns[i].key.ord, NextOrd(ns, i, f.hi), f.level - 1)
  }

  ghost predicate BranchOk(p: Page, f: Frame, shown: Frames) {
    && p.NodePage? && !p.leaf && f.level > 0 && Sorted(p.nodes) && Within(p.nodes, f)
    && |p.nodes| > 0 && p.nodes[0].key.ord == f.lo
    && (forall i :: 0 <= i < |p.nodes| ==> LinkOk(p.nodes, i, f, shown))
  }

  ghost predicate RangesOk(fr: Frames) {
    && (forall p :: p in fr ==> 0.0 <= fr[p].lo < fr[p].hi <= TOP)
    && (forall p, q :: p in fr && q in fr && p != q && fr[p].level == fr[q].level ==>
          fr[p].hi <= fr[q].lo || fr[q].hi <= fr[p].lo)
  }

  ghost predicate RootOk(root: PageNo, fr: Frames) {
    && root in fr && fr[root].lo == 0.0 && fr[root].hi == TOP
    && forall p :: p in fr ==> fr[p].level <= fr[root].level
  }

  ghost predicate LeavesOk(v: Pages, fr: Frames, entries: Entries, chains: Chains) {
    forall p :: p in fr && fr[p].level == 0 ==> p in v && LeafOk(v[p], fr[p], entries, chains)
  }

  ghost predicate BranchesOk(v: Pages, fr: Frames, shown: Frames) {
    forall p :: p in fr && fr[p].level > 0 ==> p in v && BranchOk(v[p], fr[p], shown)
  }

  ghost predicate ChainOk(p: Page, c: Chain, chains: Chains) {
    && p.OverflowPage? && |p.data| > 0
    && if p.next == INVALID_PAGE then c.rest == p.data
       else p.next in chains && chains[p.next].owner == c.owner && c.rest == p.data + chains[p.next].rest
  }

  ghost predicate ChainsOk(v: Pages, chains: Chains) {
    forall p :: p in chains ==> p in v && p != INVALID_PAGE && ChainOk(v[p], chains[p], chains)
  }

  /** The value at position o has overflow pages only if an entry is there. */
  ghost predicate OwnersOk(chains: Chains, entries: Entries) {
    forall p :: p in chains ==> chains[p].owner in entries
  }

  datatype Tree = Tree(root: PageNo, frames: Frames, chains: Chains, entries: Entries) {
    ghost function Live(): set<PageNo> {
      frames.Keys + chains.Keys
    }
  }

  const EMPTY_TREE := Tree(INVALID_PAGE, map[], map[], map[])

  /** The pages v hold the tree t. */
  ghost predicate TreeOk(v: Pages, t: Tree) {
    && t.frames.Keys !! t.chains.Keys && ChainsOk(v, t.chains) && OwnersOk(t.chains, t.entries)
    && (forall o :: o in t.entries ==> 0.0 <= o < TOP)
    && if t.root == INVALID_PAGE then t.frames == map[] && t.entries == map[]
       else INVALID_PAGE !in t.frames && NodesOk(v, t)
  }

  /** The tree part of TreeOk for a tree that is not empty. */
  ghost predicate NodesOk(v: Pages, t: Tree) {
    && RangesOk(t.frames) && RootOk(t.root, t.frames)
    && LeavesOk(v, t.frames, t.entries, t.chains) && BranchesOk(v, t.frames, t.frames)
  }

  // ---- pages that differ in their bookkeeping only --------------------------------------------------------

  ghost predicate SameContent(a: Page, b: Page) {
    if a.NodePage? then b.NodePage? && a.leaf == b.leaf && a.nodes == b.nodes else a == b
  }

  ghost predicate Agree(v: Pages, w: Pages, s: set<PageNo>) {
    forall q :: q in s ==> q in v && q in w && SameContent(v[q], w[q])
  }

  lemma AgreeLeaves(v: Pages, w: Pages, fr: Frames, entries: Entries, chains: Chains)
    requires LeavesOk(v, fr, entries, chains) && Agree(v, w, fr.Keys)
    ensures LeavesOk(w, fr, entries, chains)
  {
    forall p | p in fr && fr[p].level == 0 ensures p in w && LeafOk(w[p], fr[p], entries, chains) {
      assert LeafOk(v[p], fr[p], entries, chains);
    }
  }

  lemma AgreeBranches(v: Pages, w: Pages, fr: Frames, shown: Frames)
    requires BranchesOk(v, fr, shown) && Agree(v, w, fr.Keys)
    ensures BranchesOk(w, fr, shown)
  {
    forall p | p in fr && fr[p].level > 0 ensures p in w && BranchOk(w[p], fr[p], shown) {
      assert BranchOk(v[p], fr[p], shown);
    }
  }

  lemma AgreeChains(v: Pages, w: Pages, chains: Chains)
    requires ChainsOk(v, chains) && Agree(v, w, chains.Keys)
    ensures ChainsOk(w, chains)
  {
    forall p | p in chains ensures p in w && p != INVALID_PAGE && ChainOk(w[p], chains[p], chains) {
      assert ChainOk(v[p], chains[p], chains);
    }
  }

  /** A tree depends on the contents of its own pages only. */
  lemma AgreeTree(v: Pages, w: Pages, t: Tree)
    requires TreeOk(v, t) && Agree(v, w, t.Live())
    ensures TreeOk(w, t)
  {
    hide LeavesOk, BranchesOk, ChainsOk;
    AgreeChains(v, w, t.chains);
    if t.root != INVALID_PAGE {
      AgreeLeaves(v, w, t.frames, t.entries, t.chains);
      AgreeBranches(v, w, t.frames, t.frames);
    }
  }
}

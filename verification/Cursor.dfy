// Cursors over a tree that does not change meanwhile: first, last, next, previous, seek and seekRange.
module Cursors {
  import opened HBtreeRecords
  import opened OrderedNodes
  import opened TreeInvariant
  import opened Transaction
  import opened Descent
  import opened LeafUpdates
  import opened Rebalancing
  import opened CursorSteps
  import HBtree

  datatype Search = SearchKey(key: Key) | SearchFirst | SearchLast
  datatype RangePolicy = EqualOrGreater | EqualOrLess

  /** The child the search goes to. */
  function Way(ns: seq<Node>, st: Search): int {
    match st
    case SearchKey(key) => ChildIndex(ns, key.ord)
    case SearchFirst => 0
    case SearchLast => |ns| - 1
  }

  /** Where the search must end. */
  ghost predicate Leads(f: Frame, st: Search) {
    match st
    case SearchKey(key) => Covers(f, key.ord)
    case SearchFirst => f.lo == 0.0
    case SearchLast => f.hi == TOP
  }

  lemma WayLeads(v: Pages, t: Tree, p: PageNo, st: Search)
    requires TreeOk(v, t) && p in t.frames && t.frames[p].level > 0 && p in v && v[p].NodePage? && Leads(t.frames[p], st)
    ensures 0 <= Way(v[p].nodes, st) < |v[p].nodes| && v[p].nodes[Way(v[p].nodes, st)].value.Child?
    ensures var c := v[p].nodes[Way(v[p].nodes, st)].value.page;
      c in t.frames && Leads(t.frames[c], st) && t.frames[c].level == t.frames[p].level - 1
  {
    hide TreeOk, ChildIndex;
    BranchNodes(v, t, p);
    match st
    case SearchKey(key) => ChildCovers(v, t, p, key.ord);
    case SearchFirst => ChildLink(v, t, p, 0);
    case SearchLast => ChildLink(v, t, p, |v[p].nodes| - 1);
  }

  lemma BranchNodes(v: Pages, t: Tree, p: PageNo)
    requires TreeOk(v, t) && p in t.frames && t.frames[p].level > 0
    ensures p in v && v[p].NodePage? && |v[p].nodes| > 0
  {
    assert BranchOk(v[p], t.frames[p], t.frames);
  }

  class Cursor {
    const btree: HBtree.HBtree
    const root: PageNo
    ghost const tree: Tree

    var key: Key
    var value: Bytes
    var valid: bool
    var lastLeaf: PageNo

    ghost function View(): Pages
      reads btree
    {
      btree.Accounts().View()
    }

    /** The pages below the root hold the tree, and no leaf is empty. */
    ghost predicate Reads()
      reads btree
    {
      TreeOk(View(), tree) && FullBut(View(), tree, {}) && LocalsOk(View(), tree.frames, btree.lim) && root == tree.root
    }

    constructor (btree: HBtree.HBtree, root: PageNo, ghost tree: Tree)
      requires TreeOk(btree.Accounts().View(), tree) && FullBut(btree.Accounts().View(), tree, {}) && root == tree.root
      requires LocalsOk(btree.Accounts().View(), tree.frames, btree.lim)
      ensures this.btree == btree && this.root == root && this.tree == tree && Positioned()
      ensures !valid && key == EMPTY_KEY && value == []
    {
      this.btree, this.root, this.tree := btree, root, tree;
      key, value, valid, lastLeaf := EMPTY_KEY, [], false, INVALID_PAGE;
    }

    /** The cursor is at an entry or nowhere, and the leaf it remembers is one of the tree. */
    ghost predicate Positioned()
      reads this, btree
    {
      && Reads()
      && (valid ==>
            && key.ord in tree.entries && value == tree.entries[key.ord] && key.ord == btree.lim.place(key.data)
            && (lastLeaf != INVALID_PAGE ==> IsLeaf(tree, lastLeaf)))
    }

    /** next and previous look into the last leaf first, until an entry has been deleted. */
    predicate TrustsLeaf()
      reads this, btree
    {
      valid && lastLeaf != INVALID_PAGE && !btree.cursorDisrupted
    }

    /** The last leaf is the one that the cursor's entry is in. */
    ghost predicate Settled()
      reads this, btree
    {
      Positioned() && (valid && lastLeaf != INVALID_PAGE ==> Covers(tree.frames[lastLeaf], key.ord))
    }

    /** No entry lies between the cursor and a last leaf above it. */
    ghost predicate NextIsNear()
      requires Positioned()
      reads this, btree
    {
      TrustsLeaf() ==> NothingBelow(tree, lastLeaf, key.ord, false)
    }

    ghost predicate LeafHas(p: PageNo)
      reads btree
    {
      p in View() && View()[p].NodePage? && |View()[p].nodes| > 0
    }

    /** The last leaf has a node at the cursor's key or above it. If it has none, previous reads behind its last node. */
    ghost predicate CanGoBack()
      reads this, btree
    {
      TrustsLeaf() ==> LeafHas(lastLeaf) && LowerBound(View()[lastLeaf].nodes, key.ord) < |View()[lastLeaf].nodes|
    }

    ghost predicate FirstOfLeaf(o: real)
      reads btree
    {
      exists p :: IsLeaf(tree, p) && LeafHas(p) && View()[p].nodes[0].key.ord == o
    }

    /** The last leaf has a node below the cursor's key, or the key is the first of the leaf it is in. */
    ghost predicate PreviousIsNear()
      requires CanGoBack()
      reads this, btree
    {
      TrustsLeaf() && LowerBound(View()[lastLeaf].nodes, key.ord) == 0 ==> FirstOfLeaf(key.ord)
    }

    /** From the leaf of the cursor's entry both directions are right. */
    lemma SettledIsNear()
      requires Settled()
      ensures NextIsNear() && CanGoBack() && PreviousIsNear()
    {
      hide TreeOk, LocalsOk, FullBut, ChainsOk;
      if TrustsLeaf() {
        LeafFacts(View(), tree, lastLeaf);
        var ns := View()[lastLeaf].nodes;
        var k :| 0 <= k < |ns| && ns[k].key.ord == key.ord;
        assert IsLeaf(tree, lastLeaf) && LeafHas(lastLeaf);
      }
    }

    /** Once an entry has been deleted, both directions are right wherever the last leaf is. */
    lemma DisruptedIsNear()
      requires Positioned() && btree.cursorDisrupted
      ensures NextIsNear() && CanGoBack() && PreviousIsNear()
    {
    }

    /** The cursor is at the entry after o, or at o itself if `at` says so; it is invalid if there is none. */
    ghost predicate IsAtNext(o: real, at: bool)
      reads this
    {
      if valid then IsAfter(tree.entries, o, key.ord, at) else NoneAfter(tree.entries, o, at)
    }

    ghost predicate IsAtPrevious(o: real, at: bool)
      reads this
    {
      if valid then IsBefore(tree.entries, o, key.ord, at) else NoneBefore(tree.entries, o, at)
    }

    // ---- searching -------------------------------------------------------------------------------------------

    method GetRightSibling(rightQ: seq<PageNo>, ghost his: seq<real>) returns (n: PageNo)
      requires Reads() && |his| == |rightQ| + 1 && RightsOk(tree, rightQ, his, 0)
      ensures if n == INVALID_PAGE then his[|rightQ|] == TOP else IsLeaf(tree, n) && tree.frames[n].lo == his[|rightQ|]
    {
      hide TreeOk, LocalsOk, FullBut;
      var q, idx := rightQ, 0;
      while |q| > 0 && q[|q| - 1] == INVALID_PAGE
        invariant |q| <= |rightQ| && q == rightQ[..|q|] && idx == |rightQ| - |q| && his[|q|] == his[|rightQ|]
      {
        assert StartsAt(tree, rightQ[|q| - 1], his[|q|], his[|q| - 1], 0 + |rightQ| - 1 - (|q| - 1));
        q, idx := q[..|q| - 1], idx + 1;
      }
      if |q| == 0 {
        return INVALID_PAGE;
      }
      n := q[|q| - 1];
      assert StartsAt(tree, rightQ[|q| - 1], his[|q|], his[|q| - 1], 0 + |rightQ| - 1 - (|q| - 1));
      LiveInView(View(), tree);
      while idx > 0
        invariant n in tree.frames && tree.frames[n].lo == his[|rightQ|] && tree.frames[n].level == idx >= 0
      {
        BranchNodes(View(), tree, n);
        ChildLink(View(), tree, n, 0);
        var page := btree.GetPage(n);
        n, idx := page.nodes[0].value.page, idx - 1;
      }
    }

    method GetLeftSibling(leftQ: seq<PageNo>, ghost los: seq<real>) returns (n: PageNo)
      requires Reads() && |los| == |leftQ| + 1 && LeftsOk(tree, leftQ, los, 0)
      ensures if n == INVALID_PAGE then los[|leftQ|] == 0.0 else IsLeaf(tree, n) && tree.frames[n].hi == los[|leftQ|]
    {
      hide TreeOk, LocalsOk, FullBut;
      var q, idx := leftQ, 0;
      while |q| > 0 && q[|q| - 1] == INVALID_PAGE
        invariant |q| <= |leftQ| && q == leftQ[..|q|] && idx == |leftQ| - |q| && los[|q|] == los[|leftQ|]
      {
        assert EndsAt(tree, leftQ[|q| - 1], los[|q|], los[|q| - 1], 0 + |leftQ| - 1 - (|q| - 1));
        q, idx := q[..|q| - 1], idx + 1;
      }
      if |q| == 0 {
        return INVALID_PAGE;
      }
      n := q[|q| - 1];
      assert EndsAt(tree, leftQ[|q| - 1], los[|q|], los[|q| - 1], 0 + |leftQ| - 1 - (|q| - 1));
      LiveInView(View(), tree);
      while idx > 0
        invariant n in tree.frames && tree.frames[n].hi == los[|leftQ|] && tree.frames[n].level == idx >= 0
      {
        BranchNodes(View(), tree, n);
        ChildLink(View(), tree, n, |View()[n].nodes| - 1);
        var page := btree.GetPage(n);
        n, idx := page.nodes[|page.nodes| - 1].value.page, idx - 1;
      }
    }

    /** searchPage: the leaf the search leads to, with the leaves to its left and right. */
    method SearchPage(st: Search) returns (leaf: PageNo, left: PageNo, right: PageNo)
      requires Reads() && root != INVALID_PAGE && (st.SearchKey? ==> 0.0 <= st.key.ord < TOP)
      ensures IsLeaf(tree, leaf) && Leads(tree.frames[leaf], st)
      ensures if right == INVALID_PAGE then tree.frames[leaf].hi == TOP
              else IsLeaf(tree, right) && tree.frames[right].lo == tree.frames[leaf].hi
      ensures if left == INVALID_PAGE then tree.frames[leaf].lo == 0.0
              else IsLeaf(tree, left) && tree.frames[left].hi == tree.frames[leaf].lo
    {
      hide TreeOk, LocalsOk, FullBut, RightsOk, LeftsOk;
      ghost var v := View();
      RootInFrames(v, tree);
      LiveInView(v, tree);
      leaf := root;
      var rightQ, leftQ: seq<PageNo> := [], [];
      ghost var his, los := [TOP], [0.0];
      EmptyStacks(tree, tree.frames[root].level);
      var page := btree.GetPage(leaf);
      while !page.leaf
        invariant leaf in tree.frames && page == v[leaf] && page.NodePage? && Leads(tree.frames[leaf], st)
        invariant |his| == |rightQ| + 1 && RightsOk(tree, rightQ, his, tree.frames[leaf].level) && his[|rightQ|] == tree.frames[leaf].hi
        invariant |los| == |leftQ| + 1 && LeftsOk(tree, leftQ, los, tree.frames[leaf].level) && los[|leftQ|] == tree.frames[leaf].lo
        decreases tree.frames[leaf].level
      {
        WayLeads(v, tree, leaf, st);
        var i := Way(page.nodes, st);
        StacksStep(v, tree, leaf, i, rightQ, his, leftQ, los);
        rightQ, leftQ := rightQ + [RightOf(page.nodes, i)], leftQ + [LeftOf(page.nodes, i)];
        leaf := page.nodes[i].value.page;
        his, los := his + [tree.frames[leaf].hi], los + [tree.frames[leaf].lo];
        page := btree.GetPage(leaf);
      }
      right := GetRightSibling(rightQ, his);
      left := GetLeftSibling(leftQ, los);
    }

    /** getDataFromNode, and the cursor stands at the node. */
    method StandAt(leaf: PageNo, i: nat)
      requires Reads() && IsLeaf(tree, leaf) && leaf in View() && View()[leaf].NodePage? && i < |View()[leaf].nodes|
      modifies `key, `value, `valid
      ensures valid && key == View()[leaf].nodes[i].key && key.ord in tree.entries && value == tree.entries[key.ord]
      ensures key.ord == btree.lim.place(key.data)
    {
      hide TreeOk, LocalsOk, FullBut, ChainsOk;
      LeafFacts(View(), tree, leaf);
      KeyHasPlace(View(), tree, leaf, i, btree.lim);
      var page := btree.GetPage(leaf);
      var node := page.nodes[i];
      assert Holds(node, tree.entries, tree.chains);
      key, valid := node.key, true;
      if node.value.Overflow? {
        var pages;
        value, pages := btree.WalkOverflowPages(node.value.first, tree.chains);
      } else {
        value := node.value.data;
      }
    }

    method Fail()
      modifies `key, `value, `valid
      ensures !valid && key == EMPTY_KEY && value == []
    {
      key, value, valid := EMPTY_KEY, [], false;
    }

    /** The cursor stands at a node of a leaf it remembers, or at a node of the neighbour and remembers none. */
    method Land(leaf: PageNo, i: nat, remember: bool)
      requires Reads() && IsLeaf(tree, leaf) && leaf in View() && View()[leaf].NodePage? && i < |View()[leaf].nodes|
      modifies `key, `value, `valid, `lastLeaf
      ensures valid && key == View()[leaf].nodes[i].key && Settled() && lastLeaf in {leaf, INVALID_PAGE}
      ensures remember ==> lastLeaf == leaf
    {
      hide TreeOk, LocalsOk, FullBut;
      LeafFacts(View(), tree, leaf);
      StandAt(leaf, i);
      lastLeaf := if remember then leaf else INVALID_PAGE;
    }

    // ---- first and last --------------------------------------------------------------------------------------

    method First() returns (ok: bool)
      requires Reads()
      modifies `key, `value, `valid, `lastLeaf
      ensures ok == valid && Settled() && IsAtNext(0.0, true) && (ok ==> lastLeaf != INVALID_PAGE)
    {
      hide TreeOk, LocalsOk, FullBut;
      EntriesInRange(View(), tree);
      if root == INVALID_PAGE {
        Fail();
        return false;
      }
      var leaf, left, right := SearchPage(SearchFirst);
      LeafNotEmpty(View(), tree, leaf);
      LeafFacts(View(), tree, leaf);
      NodeIsAfter(View(), tree, leaf, 0, 0.0, true);
      Land(leaf, 0, true);
      ok := true;
    }

    method Last() returns (ok: bool)
      requires Reads()
      modifies `key, `value, `valid, `lastLeaf
      ensures ok == valid && Settled() && IsAtPrevious(TOP, false) && (ok ==> lastLeaf != INVALID_PAGE)
    {
      hide TreeOk, LocalsOk, FullBut;
      EntriesInRange(View(), tree);
      if root == INVALID_PAGE {
        Fail();
        return false;
      }
      var leaf, left, right := SearchPage(SearchLast);
      LeafNotEmpty(View(), tree, leaf);
      var page := btree.GetPage(leaf);
      LeafFacts(View(), tree, leaf);
      NodeIsBefore(View(), tree, leaf, |page.nodes| - 1, TOP, false);
      Land(leaf, |page.nodes| - 1, true);
      ok := true;
    }

    // ---- next and previous -----------------------------------------------------------------------------------

    /** The leaf is exhausted: the next entry is the first of the leaf to the right. */
    method GoRight(ghost leaf: PageNo, right: PageNo, o: real, at: bool, remember: PageNo) returns (ok: bool)
      requires Reads() && IsLeaf(tree, leaf) && leaf in View() && View()[leaf].NodePage? && tree.frames[leaf].lo <= o
      requires forall i :: 0 <= i < |View()[leaf].nodes| ==>
        View()[leaf].nodes[i].key.ord < o || (!at && View()[leaf].nodes[i].key.ord == o)
      requires o < tree.frames[leaf].hi && (remember == INVALID_PAGE || remember == leaf)
      requires if right == INVALID_PAGE then tree.frames[leaf].hi == TOP
               else IsLeaf(tree, right) && tree.frames[right].lo == tree.frames[leaf].hi
      modifies `key, `value, `valid, `lastLeaf
      ensures ok == valid && Positioned() && IsAtNext(o, at) && (remember == INVALID_PAGE ==> Settled())
      ensures ok ==> lastLeaf == remember
    {
      hide TreeOk, LocalsOk, FullBut;
      LeafExhausted(View(), tree, leaf, o, at);
      if right == INVALID_PAGE {
        Fail();
        return false;
      }
      LeafNotEmpty(View(), tree, right);
      LeafFacts(View(), tree, right);
      var page := btree.GetPage(right);
      var i := if at then LowerBound(page.nodes, o) else 0;
      NodeIsAfter(View(), tree, right, i, o, at);
      StandAt(right, i);
      lastLeaf := remember;
      ok := true;
    }

    /** The entry before the leaf is the last of the leaf to the left. It is the one before o if the leaf has none below o. */
    method GoLeft(ghost leaf: PageNo, left: PageNo, ghost o: real, ghost at: bool, remember: PageNo) returns (ok: bool)
      requires Reads() && IsLeaf(tree, leaf) && LeafHas(leaf) && Covers(tree.frames[leaf], o)
      requires remember == INVALID_PAGE || remember == leaf
      requires if left == INVALID_PAGE then tree.frames[leaf].lo == 0.0
               else IsLeaf(tree, left) && tree.frames[left].hi == tree.frames[leaf].lo
      modifies `key, `value, `valid, `lastLeaf
      ensures ok == valid && Positioned() && CanGoBack() && (remember == INVALID_PAGE ==> Settled())
      ensures ok ==> lastLeaf == remember && key.ord < o
      ensures IsAtPrevious(o, at) <==> !HasBelow(leaf, o, at)
    {
      hide TreeOk, LocalsOk, FullBut;
      LeafFacts(View(), tree, leaf);
      if left == INVALID_PAGE {
        LeafIsLeast(leaf, o, at);
        Fail();
        return false;
      }
      LeafNotEmpty(View(), tree, left);
      LeafFacts(View(), tree, left);
      var page := btree.GetPage(left);
      var i := |page.nodes| - 1;
      LeafIsNext(leaf, left, o, at);
      StandAt(left, i);
      lastLeaf := remember;
      ok := true;
    }

    ghost predicate HasBelow(leaf: PageNo, o: real, at: bool)
      requires LeafHas(leaf)
      reads btree
    {
      var ns := View()[leaf].nodes;
      exists i :: 0 <= i < |ns| && (ns[i].key.ord < o || (at && ns[i].key.ord == o))
    }

    lemma LeafIsLeast(leaf: PageNo, o: real, at: bool)
      requires Reads() && IsLeaf(tree, leaf) && LeafHas(leaf) && Covers(tree.frames[leaf], o) && tree.frames[leaf].lo == 0.0
      ensures NoneBefore(tree.entries, o, at) <==> !HasBelow(leaf, o, at)
    {
      hide TreeOk, LocalsOk, FullBut, ChainsOk;
      LeafFacts(View(), tree, leaf);
      if HasBelow(leaf, o, at) {
        var ns := View()[leaf].nodes;
        var i :| 0 <= i < |ns| && (ns[i].key.ord < o || (at && ns[i].key.ord == o));
        assert Holds(ns[i], tree.entries, tree.chains);
      } else {
        LeafExhaustedLeft(View(), tree, leaf, o, at);
      }
    }

    lemma LeafIsNext(leaf: PageNo, left: PageNo, o: real, at: bool)
      requires Reads() && IsLeaf(tree, leaf) && LeafHas(leaf) && Covers(tree.frames[leaf], o)
      requires IsLeaf(tree, left) && LeafHas(left) && tree.frames[left].hi == tree.frames[leaf].lo
      ensures var last := View()[left].nodes[|View()[left].nodes| - 1].key.ord;
        IsBefore(tree.entries, o, last, at) <==> !HasBelow(leaf, o, at)
    {
      hide TreeOk, LocalsOk, FullBut, ChainsOk;
      LeafFacts(View(), tree, leaf);
      LeafFacts(View(), tree, left);
      var j := |View()[left].nodes| - 1;
      assert Covers(tree.frames[left], View()[left].nodes[j].key.ord);
      if HasBelow(leaf, o, at) {
        var ns := View()[leaf].nodes;
        var i :| 0 <= i < |ns| && (ns[i].key.ord < o || (at && ns[i].key.ord == o));
        assert Holds(ns[i], tree.entries, tree.chains) && Covers(tree.frames[leaf], ns[i].key.ord);
      } else {
        LeafExhaustedLeft(View(), tree, leaf, o, at);
        NodeIsBefore(View(), tree, left, j, o, at);
      }
    }

    /** The next node of the last leaf, if it has one; otherwise whether the key is its last node. */
    method NextInLastLeaf() returns (found: bool, checkRight: bool, i: nat)
      requires Positioned() && valid && lastLeaf != INVALID_PAGE
      ensures LeafHas(lastLeaf) && IsLeaf(tree, lastLeaf)
      ensures found ==> i < |View()[lastLeaf].nodes| && key.ord < View()[lastLeaf].nodes[i].key.ord
                        && (IsAfter(tree.entries, key.ord, View()[lastLeaf].nodes[i].key.ord, false) <==>
                            NothingBelow(tree, lastLeaf, key.ord, false))
      ensures !found ==> NothingBelow(tree, lastLeaf, key.ord, false)
      ensures checkRight ==> Covers(tree.frames[lastLeaf], key.ord)
                             && forall k :: 0 <= k < |View()[lastLeaf].nodes| ==> View()[lastLeaf].nodes[k].key.ord <= key.ord
    {
      hide TreeOk, LocalsOk, FullBut;
      LeafFacts(View(), tree, lastLeaf);
      LeafNotEmpty(View(), tree, lastLeaf);
      var page := btree.GetPage(lastLeaf);
      found, checkRight := false, false;
      i := LowerBound(page.nodes, key.ord);
      if i != |page.nodes| {
        if key.ord < page.nodes[i].key.ord {
          found := true;
        } else if i + 1 != |page.nodes| {
          i := i + 1;
          found := true;
        } else {
          checkRight := true;
        }
      }
      if found && NothingBelow(tree, lastLeaf, key.ord, false) {
        NodeIsAfter(View(), tree, lastLeaf, i, key.ord, false);
      }
    }

    /** next: from the entry at the cursor to the one after it, exactly when none lies between it and a last leaf above it;
        without a position, to the first. */
    method Next() returns (ok: bool)
      requires Positioned()
      modifies `key, `value, `valid, `lastLeaf
      ensures ok == valid && Settled()
      ensures old(valid) ==> (IsAtNext(old(key.ord), false) <==> old(NextIsNear()))
      ensures old(valid) ==> if ok then old(key.ord) < key.ord else old(NextIsNear())
      ensures old(valid) && btree.cursorDisrupted ==> IsAtNext(old(key.ord), false)
      ensures !old(valid) ==> IsAtNext(0.0, true)
    {
      hide TreeOk, LocalsOk, FullBut, IsAfter;
      if !valid {
        ok := First();
        return;
      }
      var o, checkRight := key.ord, false;
      if TrustsLeaf() {
        var found, i;
        found, checkRight, i := NextInLastLeaf();
        if found {
          Land(lastLeaf, i, true);
          return true;
        }
      }
      ok := NextBySearch(checkRight);
      NextIsAbove(o);
    }

    lemma NextIsAbove(o: real)
      requires IsAtNext(o, false)
      ensures valid ==> o < key.ord
    {
    }

    /** next by way of a search for the key at the cursor. */
    method NextBySearch(isLast: bool) returns (ok: bool)
      requires Positioned() && valid
      requires isLast ==>
        && IsLeaf(tree, lastLeaf) && Covers(tree.frames[lastLeaf], key.ord)
        && lastLeaf in View() && View()[lastLeaf].NodePage?
        && forall k :: 0 <= k < |View()[lastLeaf].nodes| ==> View()[lastLeaf].nodes[k].key.ord <= key.ord
      modifies `key, `value, `valid, `lastLeaf
      ensures ok == valid && Settled() && IsAtNext(old(key.ord), false)
    {
      hide TreeOk, LocalsOk, FullBut, IsAfter, NoneAfter;
      EntriesInRange(View(), tree);
      var o := key.ord;
      var leaf, left, right := SearchPage(SearchKey(key));
      LeafFacts(View(), tree, leaf);
      var page := btree.GetPage(leaf);
      var i, checkRight := LowerBound(page.nodes, o), isLast;
      if isLast {
        SameLevel(View(), tree, lastLeaf, leaf, o);
      } else if i == |page.nodes| {
        checkRight := true;
      } else if page.nodes[i].key.ord == o {
        i := i + 1;
        checkRight := i == |page.nodes|;
      }
      if checkRight {
        ok := GoRight(leaf, right, o, false, INVALID_PAGE);
      } else {
        NodeIsAfter(View(), tree, leaf, i, o, false);
        Land(leaf, i, true);
        ok := true;
      }
    }

    /** The previous node of the last leaf, if it has one; otherwise whether the key is its first node. */
    method PreviousInLastLeaf() returns (found: bool, checkLeft: bool, i: nat)
      requires Positioned() && CanGoBack() && TrustsLeaf()
      ensures LeafHas(lastLeaf) && IsLeaf(tree, lastLeaf) && found == !checkLeft
      ensures checkLeft <==> LowerBound(View()[lastLeaf].nodes, key.ord) == 0
      ensures found ==> i < |View()[lastLeaf].nodes| && View()[lastLeaf].nodes[i].key.ord < key.ord && IsBefore(tree.entries, key.ord, View()[lastLeaf].nodes[i].key.ord, false)
    {
      hide TreeOk, LocalsOk, FullBut;
      LeafFacts(View(), tree, lastLeaf);
      var page := btree.GetPage(lastLeaf);
      i := LowerBound(page.nodes, key.ord);
      found := i != 0;
      checkLeft := !found;
      if found {
        i := i - 1;
        NodeIsBefore(View(), tree, lastLeaf, i, key.ord, false);
      }
    }

    /** previous: from the entry at the cursor to the one before it, exactly when the last leaf has a node below it or it is the
        first of its leaf; without a position, to the last. */
    method Previous() returns (ok: bool)
      requires Positioned() && CanGoBack()
      modifies `key, `value, `valid, `lastLeaf
      ensures ok == valid && Settled()
      ensures old(valid) ==> (IsAtPrevious(old(key.ord), false) <==> old(PreviousIsNear()))
      ensures old(valid) && btree.cursorDisrupted ==> IsAtPrevious(old(key.ord), false)
      ensures old(valid) && ok ==> key.ord < old(key.ord)
      ensures !old(valid) ==> IsAtPrevious(TOP, false)
    {
      hide TreeOk, LocalsOk, FullBut, IsBefore, NoneBefore;
      if !valid {
        ok := Last();
        return;
      }
      var checkLeft := false;
      if TrustsLeaf() {
        var found, i;
        found, checkLeft, i := PreviousInLastLeaf();
        if found {
          Land(lastLeaf, i, true);
          return true;
        }
      }
      ok := PreviousBySearch(checkLeft);
    }

    /** previous by way of a search for the key at the cursor. If the key was taken for the first of its leaf, what is before it
        in that leaf is passed over. */
    method PreviousBySearch(isFirst: bool) returns (ok: bool)
      requires Positioned() && valid
      modifies `key, `value, `valid, `lastLeaf
      ensures ok == valid && Settled() && (ok ==> key.ord < old(key.ord))
      ensures IsAtPrevious(old(key.ord), false) <==> isFirst ==> old(FirstOfLeaf(key.ord))
    {
      hide TreeOk, LocalsOk, FullBut, IsBefore, NoneBefore, FirstOfLeaf, HasBelow, CanGoBack, NextIsNear, PreviousIsNear;
      EntriesInRange(View(), tree);
      var o := key.ord;
      var leaf, left, right := SearchPage(SearchKey(key));
      LeafFacts(View(), tree, leaf);
      var page := btree.GetPage(leaf);
      var i := LowerBound(page.nodes, o);
      FirstIsLowest(leaf, o);
      if isFirst || i == 0 {
        ok := GoLeft(leaf, left, o, false, INVALID_PAGE);
      } else {
        NodeIsBefore(View(), tree, leaf, i - 1, o, false);
        Land(leaf, i - 1, true);
        ok := true;
      }
    }

    lemma FirstIsLowest(leaf: PageNo, o: real)
      requires Reads() && IsLeaf(tree, leaf) && Covers(tree.frames[leaf], o) && o in tree.entries
      ensures LeafHas(leaf)
      ensures LowerBound(View()[leaf].nodes, o) == 0 <==> FirstOfLeaf(o)
      ensures LowerBound(View()[leaf].nodes, o) == 0 <==> !HasBelow(leaf, o, false)
    {
      hide TreeOk, LocalsOk, FullBut, ChainsOk;
      LeafFacts(View(), tree, leaf);
      var ns := View()[leaf].nodes;
      var k :| 0 <= k < |ns| && ns[k].key.ord == o;
      if LowerBound(ns, o) == 0 {
        assert ns[0].key.ord == o;
        assert IsLeaf(tree, leaf) && LeafHas(leaf);
      } else {
        assert ns[0].key.ord < o;
      }
      if p :| IsLeaf(tree, p) && LeafHas(p) && View()[p].nodes[0].key.ord == o {
        LeafFacts(View(), tree, p);
        SameLevel(View(), tree, p, leaf, o);
      }
    }

    // ---- seek and seekRange ----------------------------------------------------------------------------------

    /** seek: at the entry of the key, or nowhere. The last leaf stays what it was. */
    method Seek(matchKey: Key) returns (ok: bool)
      requires Positioned() && UserKey(matchKey)
      modifies `key, `value, `valid, `lastLeaf
      ensures ok == valid && (ok <==> matchKey.ord in tree.entries) && Positioned()
      ensures ok ==> key.ord == matchKey.ord && value == tree.entries[matchKey.ord] && key.ord == btree.lim.place(key.data)
      ensures lastLeaf == if old(valid) then old(lastLeaf) else INVALID_PAGE
    {
      hide TreeOk, LocalsOk, FullBut, ChainsOk;
      EntriesInRange(View(), tree);
      if !valid {
        lastLeaf := INVALID_PAGE;
      }
      if root == INVALID_PAGE {
        Fail();
        return false;
      }
      var leaf, left, right := SearchPage(SearchKey(matchKey));
      LeafFacts(View(), tree, leaf);
      LeafLookup(View(), tree, leaf, matchKey.ord);
      var page := btree.GetPage(leaf);
      ok := Contains(page.nodes, matchKey.ord);
      if ok {
        StandAt(leaf, LowerBound(page.nodes, matchKey.ord));
      } else {
        Fail();
      }
    }

    /** From the leaf of a key, the entry next to the key is near. */
    lemma SeekIsNear(o: real)
      requires Positioned() && (valid ==> IsLeaf(tree, lastLeaf) && Covers(tree.frames[lastLeaf], o))
      requires IsAtNext(o, true) || IsAtPrevious(o, true)
      ensures NextIsNear()
      ensures IsAtPrevious(o, true) ==> CanGoBack()
    {
      hide TreeOk, LocalsOk, FullBut, ChainsOk;
      if TrustsLeaf() && IsAtPrevious(o, true) {
        LeafFacts(View(), tree, lastLeaf);
        LeafNotEmpty(View(), tree, lastLeaf);
        var ns := View()[lastLeaf].nodes;
        assert ns[0].key.ord <= key.ord ==> Covers(tree.frames[lastLeaf], key.ord);
      }
    }

    /** seekRange: at the entry of the key or, by the policy, at the one after it or before it. The last leaf is the one of the
        key that was sought. */
    method SeekRange(matchKey: Key, policy: RangePolicy) returns (ok: bool)
      requires Reads() && UserKey(matchKey)
      modifies `key, `value, `valid, `lastLeaf
      ensures ok == valid && Positioned() && NextIsNear() && (policy.EqualOrLess? ==> CanGoBack())
      ensures ok ==> IsLeaf(tree, lastLeaf) && Covers(tree.frames[lastLeaf], matchKey.ord)
      ensures if policy.EqualOrGreater? then IsAtNext(matchKey.ord, true) else IsAtPrevious(matchKey.ord, true)
    {
      hide TreeOk, LocalsOk, FullBut, IsAfter, NoneAfter, IsBefore, NoneBefore, NextIsNear, CanGoBack;
      EntriesInRange(View(), tree);
      ok := SeekNear(matchKey, policy);
      SeekIsNear(matchKey.ord);
    }

    method SeekNear(matchKey: Key, policy: RangePolicy) returns (ok: bool)
      requires Reads() && UserKey(matchKey)
      modifies `key, `value, `valid, `lastLeaf
      ensures ok == valid && Positioned()
      ensures if policy.EqualOrGreater? then IsAtNext(matchKey.ord, true) else IsAtPrevious(matchKey.ord, true)
      ensures ok ==> IsLeaf(tree, lastLeaf) && Covers(tree.frames[lastLeaf], matchKey.ord)
    {
      hide TreeOk, LocalsOk, FullBut, IsAfter, NoneAfter, IsBefore, NoneBefore, NextIsNear, CanGoBack;
      EntriesInRange(View(), tree);
      if root == INVALID_PAGE {
        NoEntries(tree, matchKey.ord);
        Fail();
        return false;
      }
      var o := matchKey.ord;
      var leaf, left, right := SearchPage(SearchKey(matchKey));
      LeafFacts(View(), tree, leaf);
      var page := btree.GetPage(leaf);
      var i := LowerBound(page.nodes, o);
      if Contains(page.nodes, o) {
        NodeIsAfter(View(), tree, leaf, i, o, true);
        NodeIsBefore(View(), tree, leaf, i, o, true);
        Land(leaf, i, true);
        ok := true;
      } else if policy.EqualOrGreater? {
        if i != |page.nodes| {
          NodeIsAfter(View(), tree, leaf, i, o, true);
          Land(leaf, i, true);
          ok := true;
        } else {
          ok := GoRight(leaf, right, o, true, leaf);
        }
      } else if i == 0 {
        LowestNode(page.nodes, o);
        LeafNotEmpty(View(), tree, leaf);
        ok := GoLeft(leaf, left, o, true, leaf);
      } else {
        NodeIsBefore(View(), tree, leaf, i - 1, o, true);
        Land(leaf, i - 1, true);
        ok := true;
      }
    }

    // ---- scans -----------------------------------------------------------------------------------------------

    /** Repeated next from where the cursor is. */
    method NextUntilEnd(ghost from: real) returns (keys: seq<Key>, values: seq<Bytes>)
      requires Positioned() && NextIsNear() && IsAtNext(from, true)
      modifies `key, `value, `valid, `lastLeaf
      ensures Lists(tree.entries, keys, values, from) && AllPlaced(keys, btree.lim) && !valid
    {
      hide TreeOk, LocalsOk, FullBut, Reads;
      keys, values := [], [];
      var ok := valid;
      ghost var left := set e | e in tree.entries && from <= e;
      while ok
        invariant ok == valid && Positioned() && NextIsNear() && ListedSoFar(tree.entries, keys, values, from)
        invariant AllPlaced(keys, btree.lim)
        invariant if |keys| == 0 then IsAtNext(from, true) else IsAtNext(keys[|keys| - 1].ord, false)
        invariant forall e :: e in left <==> e in tree.entries && from <= e && (|keys| > 0 ==> keys[|keys| - 1].ord < e)
        decreases |left|
      {
        ListedOneMore(tree.entries, keys, values, from, key, value);
        keys, values := keys + [key], values + [value];
        assert key.ord in left;
        ghost var fewer := set e | e in left && key.ord < e;
        assert fewer <= left - {key.ord};
        Fewer(fewer, left, key.ord);
        left := fewer;
        ok := Next();
        SettledIsNear();
      }
    }

    /** first and then repeated next lists every entry once, in order. */
    method ScanForward() returns (keys: seq<Key>, values: seq<Bytes>)
      requires Reads()
      modifies `key, `value, `valid, `lastLeaf
      ensures Lists(tree.entries, keys, values, 0.0) && |keys| == |tree.entries| && AllPlaced(keys, btree.lim)
    {
      hide TreeOk, LocalsOk, FullBut, ListedSoFar;
      EntriesInRange(View(), tree);
      var ok := First();
      SettledIsNear();
      keys, values := NextUntilEnd(0.0);
      ListsAll(tree.entries, keys, values, 0.0);
    }

    /** seekRange and then repeated next lists the entries from the key on. */
    method ScanFrom(start: Key) returns (keys: seq<Key>, values: seq<Bytes>)
      requires Reads() && UserKey(start)
      modifies `key, `value, `valid, `lastLeaf
      ensures Lists(tree.entries, keys, values, start.ord) && AllPlaced(keys, btree.lim)
    {
      var ok := SeekRange(start, EqualOrGreater);
      keys, values := NextUntilEnd(start.ord);
    }

    /** last and then repeated previous lists every entry once, in reverse order. */
    method ScanBackward() returns (keys: seq<Key>, values: seq<Bytes>)
      requires Reads()
      modifies `key, `value, `valid, `lastLeaf
      ensures ListsDown(tree.entries, keys, values) && AllPlaced(keys, btree.lim)
    {
      hide TreeOk, LocalsOk, FullBut;
      EntriesInRange(View(), tree);
      keys, values := [], [];
      var ok := Last();
      ghost var left := set e | e in tree.entries;
      while ok
        invariant ok == valid && Settled() && ListedDown(tree.entries, keys, values)
        invariant AllPlaced(keys, btree.lim)
        invariant if |keys| == 0 then IsAtPrevious(TOP, false) else IsAtPrevious(keys[|keys| - 1].ord, false)
        invariant forall e :: e in left <==> e in tree.entries && (|keys| > 0 ==> e < keys[|keys| - 1].ord)
        decreases |left|
      {
        ListedOneLess(tree.entries, keys, values, key, value);
        keys, values := keys + [key], values + [value];
        ghost var fewer := set e | e in left && e < key.ord;
        assert fewer <= left - {key.ord};
        Fewer(fewer, left, key.ord);
        left := fewer;
        SettledIsNear();
        ok := Previous();
      }
    }
  }

  // ---- lists of entries --------------------------------------------------------------------------------------

  /** The bytes of the keys are those that have these places. */
  ghost predicate AllPlaced(keys: seq<Key>, lim: Limits) {
    forall k :: 0 <= k < |keys| ==> keys[k].ord == lim.place(keys[k].data)
  }

  lemma KeyHasPlace(v: Pages, t: Tree, p: PageNo, i: nat, lim: Limits)
    requires LocalsOk(v, t.frames, lim) && p in t.frames && p in v && v[p].NodePage? && i < |v[p].nodes|
    ensures v[p].nodes[i].key.ord == lim.place(v[p].nodes[i].key.data)
  {
    assert NodeLocal(v[p].leaf, v[p].nodes[i], lim);
  }

  /** A cursor may read the committed tree of a file that no transaction writes to. */
  lemma CommittedIsReadable(btree: HBtree.HBtree)
    requires btree.Idle() && btree.committedHealth.full
    ensures var v, t := btree.Accounts().View(), btree.committed;
      TreeOk(v, t) && FullBut(v, t, {}) && LocalsOk(v, t.frames, btree.lim) && t.root == btree.rootPage
  {
    hide TreeOk, LocalsOk, FullBut;
    btree.IdleParts();
    assert btree.Accounts().View() == btree.disk;
  }

  /** Distinct entries from `from` on in increasing order. */
  ghost predicate Rising(entries: Entries, keys: seq<Key>, values: seq<Bytes>, from: real) {
    && |keys| == |values|
    && (forall k :: 0 <= k < |keys| ==> keys[k].ord in entries && values[k] == entries[keys[k].ord] && from <= keys[k].ord)
    && (forall j, k :: 0 <= j < k < |keys| ==> keys[j].ord < keys[k].ord)
  }

  ghost predicate Listed(keys: seq<Key>, e: real) {
    exists k :: 0 <= k < |keys| && keys[k].ord == e
  }

  /** All entries from `from` on, each once and in order. */
  ghost predicate Lists(entries: Entries, keys: seq<Key>, values: seq<Bytes>, from: real) {
    Rising(entries, keys, values, from) && forall e :: e in entries && from <= e ==> Listed(keys, e)
  }

  ghost predicate ListedSoFar(entries: Entries, keys: seq<Key>, values: seq<Bytes>, from: real) {
    && Rising(entries, keys, values, from)
    && forall e :: e in entries && from <= e && |keys| > 0 && e <= keys[|keys| - 1].ord ==> Listed(keys, e)
  }

  lemma ListedOneMore(entries: Entries, keys: seq<Key>, values: seq<Bytes>, from: real, key: Key, value: Bytes)
    requires ListedSoFar(entries, keys, values, from) && key.ord in entries && value == entries[key.ord]
    requires if |keys| == 0 then IsAfter(entries, from, key.ord, true) else IsAfter(entries, keys[|keys| - 1].ord, key.ord, false)
    ensures ListedSoFar(entries, keys + [key], values + [value], from)
  {
    var r := keys + [key];
    forall e | e in entries && from <= e && e <= key.ord ensures Listed(r, e) {
      if e == key.ord {
        assert r[|keys|].ord == e;
      } else {
        assert Listed(keys, e);
        var k :| 0 <= k < |keys| && keys[k].ord == e;
        assert r[k].ord == e;
      }
    }
  }

  /** All entries, each once and in reverse order. */
  ghost predicate ListsDown(entries: Entries, keys: seq<Key>, values: seq<Bytes>) {
    Falling(entries, keys, values) && forall e :: e in entries ==> Listed(keys, e)
  }

  ghost predicate Falling(entries: Entries, keys: seq<Key>, values: seq<Bytes>) {
    && |keys| == |values|
    && (forall k :: 0 <= k < |keys| ==> keys[k].ord in entries && values[k] == entries[keys[k].ord])
    && (forall j, k :: 0 <= j < k < |keys| ==> keys[k].ord < keys[j].ord)
  }

  ghost predicate ListedDown(entries: Entries, keys: seq<Key>, values: seq<Bytes>) {
    && Falling(entries, keys, values)
    && forall e :: e in entries && |keys| > 0 && keys[|keys| - 1].ord <= e ==> Listed(keys, e)
  }

  lemma ListedOneLess(entries: Entries, keys: seq<Key>, values: seq<Bytes>, key: Key, value: Bytes)
    requires ListedDown(entries, keys, values) && key.ord in entries && value == entries[key.ord]
    requires if |keys| == 0 then IsBefore(entries, TOP, key.ord, false) else IsBefore(entries, keys[|keys| - 1].ord, key.ord, false)
    requires forall e :: e in entries ==> e < TOP
    ensures ListedDown(entries, keys + [key], values + [value])
  {
    var r := keys + [key];
    forall e | e in entries && key.ord <= e ensures Listed(r, e) {
      if e == key.ord {
        assert r[|keys|].ord == e;
      } else {
        assert Listed(keys, e);
        var k :| 0 <= k < |keys| && keys[k].ord == e;
        assert r[k].ord == e;
      }
    }
  }

  lemma Fewer(a: set<real>, b: set<real>, e: real)
    requires a <= b - {e} && e in b
    ensures |a| < |b|
  {
    SubsetSize(a, b - {e});
  }

  lemma SubsetSize(a: set<real>, b: set<real>)
    requires a <= b
    ensures |a| <= |b|
  {
    assert b == a + (b - a) && a * (b - a) == {};
  }

  /** A list of all entries has as many keys as there are entries. */
  lemma ListsAll(entries: Entries, keys: seq<Key>, values: seq<Bytes>, from: real)
    requires Lists(entries, keys, values, from) && forall e :: e in entries ==> from <= e
    ensures |keys| == |entries|
  {
    var ords := set k | 0 <= k < |keys| :: keys[k].ord;
    assert ords == entries.Keys by {
      forall e | e in entries.Keys ensures e in ords {
        assert Listed(keys, e);
      }
    }
    DistinctSize(keys);
  }

  lemma {:induction false} DistinctSize(keys: seq<Key>)
    requires forall j, k :: 0 <= j < k < |keys| ==> keys[j].ord < keys[k].ord
    ensures |set k | 0 <= k < |keys| :: keys[k].ord| == |keys|
  {
    if keys != [] {
      var front := keys[..|keys| - 1];
      DistinctSize(front);
      var a, b := set k | 0 <= k < |front| :: front[k].ord, set k | 0 <= k < |keys| :: keys[k].ord;
      assert b == a + {keys[|keys| - 1].ord} by {
        forall e | e in a ensures e in b {
          var k :| 0 <= k < |front| && front[k].ord == e;
          assert keys[k].ord == e;
        }
        forall e | e in b && e != keys[|keys| - 1].ord ensures e in a {
          var k :| 0 <= k < |keys| && keys[k].ord == e;
          assert front[k].ord == e;
        }
      }
    }
  }

  lemma RootInFrames(v: Pages, t: Tree)
    requires TreeOk(v, t) && t.root != INVALID_PAGE
    ensures t.root in t.frames && t.frames[t.root].lo == 0.0 && t.frames[t.root].hi == TOP
  {
  }

  lemma EmptyStacks(t: Tree, level: nat)
    ensures RightsOk(t, [], [TOP], level) && LeftsOk(t, [], [0.0], level)
  {
  }

  lemma EntriesInRange(v: Pages, t: Tree)
    requires TreeOk(v, t)
    ensures forall e :: e in t.entries ==> 0.0 <= e < TOP
    ensures t.root == INVALID_PAGE ==> t.entries == map[]
  {
  }

  lemma LeafNotEmpty(v: Pages, t: Tree, p: PageNo)
    requires TreeOk(v, t) && FullBut(v, t, {}) && IsLeaf(t, p)
    ensures p in v && v[p].NodePage? && |v[p].nodes| > 0
  {
    hide TreeOk;
    LeafFacts(v, t, p);
  }

  lemma LowestNode(ns: seq<Node>, o: real)
    requires Sorted(ns) && LowerBound(ns, o) == 0
    ensures forall i :: 0 <= i < |ns| ==> o <= ns[i].key.ord
    ensures !Contains(ns, o) ==> forall i :: 0 <= i < |ns| ==> o < ns[i].key.ord
  {
  }

  lemma NoEntries(t: Tree, o: real)
    requires t.entries == map[]
    ensures NoneAfter(t.entries, o, true) && NoneBefore(t.entries, o, true)
  {
  }
}

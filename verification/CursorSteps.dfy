// Where a cursor goes: neighbours in the order of the entries, and the neighbour leaves that hold them.
module CursorSteps {
  import opened HBtreeRecords
  import opened OrderedNodes
  import opened TreeInvariant
  import opened TreeSteps
  import opened Transaction
  import opened Descent

  // ---- neighbours in the map -------------------------------------------------------------------------------

  /** n is the entry next after o, or at o if `at` allows it. */
  ghost predicate IsAfter(entries: Entries, o: real, n: real, at: bool) {
    n in entries && (o < n || (at && o == n)) && forall e :: e in entries && (o < e || (at && o == e)) ==> n <= e
  }

  ghost predicate NoneAfter(entries: Entries, o: real, at: bool) {
    forall e :: e in entries ==> !(o < e || (at && o == e))
  }

  ghost predicate IsBefore(entries: Entries, o: real, n: real, at: bool) {
    n in entries && (n < o || (at && o == n)) && forall e :: e in entries && (e < o || (at && o == e)) ==> e <= n
  }

  ghost predicate NoneBefore(entries: Entries, o: real, at: bool) {
    forall e :: e in entries ==> !(e < o || (at && o == e))
  }

  // ---- leaves ----------------------------------------------------------------------------------------------

  ghost predicate IsLeaf(t: Tree, p: PageNo) {
    p in t.frames && t.frames[p].level == 0
  }

  /** No entry lies between o and the leaf when o is below it. */
  ghost predicate NothingBelow(t: Tree, p: PageNo, o: real, at: bool)
    requires p in t.frames
  {
    forall e :: e in t.entries && e < t.frames[p].lo ==> e < o || (!at && e == o)
  }

  ghost predicate NothingAbove(t: Tree, p: PageNo, o: real, at: bool)
    requires p in t.frames
  {
    forall e :: e in t.entries && t.frames[p].hi <= e ==> o < e || (!at && e == o)
  }

  lemma LeafFacts(v: Pages, t: Tree, p: PageNo)
    requires TreeOk(v, t) && IsLeaf(t, p)
    ensures p in v && v[p].NodePage? && v[p].leaf && Sorted(v[p].nodes) && ChainsOk(v, t.chains) && p != INVALID_PAGE
    ensures forall i :: 0 <= i < |v[p].nodes| ==>
      Holds(v[p].nodes[i], t.entries, t.chains) && Covers(t.frames[p], v[p].nodes[i].key.ord)
    ensures forall e :: e in t.entries && Covers(t.frames[p], e) ==> HasKey(v[p].nodes, e)
  {
    assert LeafOk(v[p], t.frames[p], t.entries, t.chains);
  }

  /** The first node of a leaf above o is the entry after o, if nothing lies between o and the leaf. */
  lemma NodeIsAfter(v: Pages, t: Tree, p: PageNo, i: nat, o: real, at: bool)
    requires TreeOk(v, t) && IsLeaf(t, p) && p in v && v[p].NodePage? && i < |v[p].nodes| && NothingBelow(t, p, o, at)
    requires o < v[p].nodes[i].key.ord || (at && o == v[p].nodes[i].key.ord)
    requires i > 0 ==> v[p].nodes[i - 1].key.ord < o || (!at && o == v[p].nodes[i - 1].key.ord)
    ensures IsAfter(t.entries, o, v[p].nodes[i].key.ord, at)
  {
    hide TreeOk, ChainsOk;
    LeafFacts(v, t, p);
    var ns := v[p].nodes;
    assert forall k :: 0 <= k < i ==> ns[k].key.ord <= ns[i - 1].key.ord;
    forall e | e in t.entries && (o < e || (at && o == e)) ensures ns[i].key.ord <= e {
      if Covers(t.frames[p], e) {
        var k :| 0 <= k < |ns| && ns[k].key.ord == e;
      }
    }
  }

  lemma NodeIsBefore(v: Pages, t: Tree, p: PageNo, i: nat, o: real, at: bool)
    requires TreeOk(v, t) && IsLeaf(t, p) && p in v && v[p].NodePage? && i < |v[p].nodes| && NothingAbove(t, p, o, at)
    requires v[p].nodes[i].key.ord < o || (at && o == v[p].nodes[i].key.ord)
    requires i + 1 < |v[p].nodes| ==> o < v[p].nodes[i + 1].key.ord || (!at && o == v[p].nodes[i + 1].key.ord)
    ensures IsBefore(t.entries, o, v[p].nodes[i].key.ord, at)
  {
    hide TreeOk, ChainsOk;
    LeafFacts(v, t, p);
    var ns := v[p].nodes;
    assert forall k :: i < k < |ns| ==> ns[i + 1].key.ord <= ns[k].key.ord;
    forall e | e in t.entries && (e < o || (at && o == e)) ensures e <= ns[i].key.ord {
      if Covers(t.frames[p], e) {
        var k :| 0 <= k < |ns| && ns[k].key.ord == e;
      }
    }
  }

  /** With all its nodes below o, a leaf has nothing after o: the next entry is in the leaf to the right, if there is one. */
  lemma LeafExhausted(v: Pages, t: Tree, p: PageNo, o: real, at: bool)
    requires TreeOk(v, t) && IsLeaf(t, p) && p in v && v[p].NodePage? && t.frames[p].lo <= o
    requires forall i :: 0 <= i < |v[p].nodes| ==> v[p].nodes[i].key.ord < o || (!at && v[p].nodes[i].key.ord == o)
    ensures t.frames[p].hi == TOP ==> NoneAfter(t.entries, o, at)
    ensures forall q :: q in t.frames && t.frames[q].lo == t.frames[p].hi ==> NothingBelow(t, q, o, at)
  {
    LeafFacts(v, t, p);
    forall e | e in t.entries && e < t.frames[p].hi && t.frames[p].lo <= e ensures e < o || (!at && e == o) {
      var k :| 0 <= k < |v[p].nodes| && v[p].nodes[k].key.ord == e;
    }
  }

  lemma LeafExhaustedLeft(v: Pages, t: Tree, p: PageNo, o: real, at: bool)
    requires TreeOk(v, t) && IsLeaf(t, p) && p in v && v[p].NodePage? && o < t.frames[p].hi
    requires forall i :: 0 <= i < |v[p].nodes| ==> o < v[p].nodes[i].key.ord || (!at && v[p].nodes[i].key.ord == o)
    ensures t.frames[p].lo == 0.0 ==> NoneBefore(t.entries, o, at)
    ensures forall q :: q in t.frames && t.frames[q].hi == t.frames[p].lo ==> NothingAbove(t, q, o, at)
  {
    LeafFacts(v, t, p);
    forall e | e in t.entries && e < t.frames[p].hi && t.frames[p].lo <= e ensures o < e || (!at && e == o) {
      var k :| 0 <= k < |v[p].nodes| && v[p].nodes[k].key.ord == e;
    }
  }

  // ---- the way down ----------------------------------------------------------------------------------------

  lemma ChildLink(v: Pages, t: Tree, p: PageNo, i: nat)
    requires TreeOk(v, t) && p in t.frames && t.frames[p].level > 0 && p in v && v[p].NodePage? && i < |v[p].nodes|
    ensures v[p].nodes[i].value.Child?
    ensures var c := v[p].nodes[i].value.page;
      && c in t.frames && c in v && v[c].NodePage? && (v[c].leaf <==> t.frames[c].level == 0) && c != INVALID_PAGE
      && t.frames[c].level == t.frames[p].level - 1 && t.frames[c].lo == v[p].nodes[i].key.ord
      && t.frames[c].hi == NextOrd(v[p].nodes, i, t.frames[p].hi) && t.frames[c].lo < t.frames[c].hi
    ensures t.frames[p].lo == v[p].nodes[0].key.ord
  {
    assert BranchOk(v[p], t.frames[p], t.frames);
    assert LinkOk(v[p].nodes, i, t.frames[p], t.frames);
    LiveInView(v, t);
  }

  /** Page n starts where a page ends at `hi`; or there is none, and the page ends where its parent does, at `up`. */
  ghost predicate StartsAt(t: Tree, n: PageNo, hi: real, up: real, level: int) {
    if n == INVALID_PAGE then hi == up else n in t.frames && t.frames[n].lo == hi && t.frames[n].level == level
  }

  ghost predicate EndsAt(t: Tree, n: PageNo, lo: real, up: real, level: int) {
    if n == INVALID_PAGE then lo == up else n in t.frames && t.frames[n].hi == lo && t.frames[n].level == level
  }

  /** What the stack of right neighbours holds on the way down: the number of the next child at each branch, or none where
      the way takes the last child; `his` are the upper ends of the pages on the way. */
  ghost predicate RightsOk(t: Tree, q: seq<PageNo>, his: seq<real>, level: nat) {
    && |his| == |q| + 1 && his[0] == TOP
    && forall k :: 0 <= k < |q| ==> StartsAt(t, q[k], his[k + 1], his[k], level + |q| - 1 - k)
  }

  ghost predicate LeftsOk(t: Tree, q: seq<PageNo>, los: seq<real>, level: nat) {
    && |los| == |q| + 1 && los[0] == 0.0
    && forall k :: 0 <= k < |q| ==> EndsAt(t, q[k], los[k + 1], los[k], level + |q| - 1 - k)
  }

  function RightOf(ns: seq<Node>, i: nat): PageNo
    requires i < |ns| && forall k :: 0 <= k < |ns| ==> ns[k].value.Child?
  {
    if i + 1 == |ns| then INVALID_PAGE else ns[i + 1].value.page
  }

  function LeftOf(ns: seq<Node>, i: nat): PageNo
    requires i < |ns| && forall k :: 0 <= k < |ns| ==> ns[k].value.Child?
  {
    if i == 0 then INVALID_PAGE else ns[i - 1].value.page
  }

  lemma RightsStep(t: Tree, q: seq<PageNo>, his: seq<real>, level: nat, n: PageNo, hi: real)
    requires RightsOk(t, q, his, level + 1) && |his| == |q| + 1 && StartsAt(t, n, hi, his[|q|], level)
    ensures RightsOk(t, q + [n], his + [hi], level)
  {
    hide StartsAt;
    var r, s := q + [n], his + [hi];
    forall k | 0 <= k < |r| ensures StartsAt(t, r[k], s[k + 1], s[k], level + |r| - 1 - k) {
      if k < |q| {
        assert StartsAt(t, q[k], his[k + 1], his[k], level + 1 + |q| - 1 - k);
      }
    }
  }

  lemma LeftsStep(t: Tree, q: seq<PageNo>, los: seq<real>, level: nat, n: PageNo, lo: real)
    requires LeftsOk(t, q, los, level + 1) && |los| == |q| + 1 && EndsAt(t, n, lo, los[|q|], level)
    ensures LeftsOk(t, q + [n], los + [lo], level)
  {
    hide EndsAt;
    var r, s := q + [n], los + [lo];
    forall k | 0 <= k < |r| ensures EndsAt(t, r[k], s[k + 1], s[k], level + |r| - 1 - k) {
      if k < |q| {
        assert EndsAt(t, q[k], los[k + 1], los[k], level + 1 + |q| - 1 - k);
      }
    }
  }

  /** One step down keeps both stacks right. */
  lemma StacksStep(v: Pages, t: Tree, p: PageNo, i: nat, rightQ: seq<PageNo>, his: seq<real>, leftQ: seq<PageNo>, los: seq<real>)
    requires TreeOk(v, t) && p in t.frames && t.frames[p].level > 0 && p in v && v[p].NodePage? && i < |v[p].nodes|
    requires RightsOk(t, rightQ, his, t.frames[p].level) && |his| == |rightQ| + 1 && his[|rightQ|] == t.frames[p].hi
    requires LeftsOk(t, leftQ, los, t.frames[p].level) && |los| == |leftQ| + 1 && los[|leftQ|] == t.frames[p].lo
    ensures forall k :: 0 <= k < |v[p].nodes| ==> v[p].nodes[k].value.Child?
    ensures var c := v[p].nodes[i].value.page;
      && c in t.frames && RightsOk(t, rightQ + [RightOf(v[p].nodes, i)], his + [t.frames[c].hi], t.frames[p].level - 1)
      && LeftsOk(t, leftQ + [LeftOf(v[p].nodes, i)], los + [t.frames[c].lo], t.frames[p].level - 1)
  {
    hide TreeOk, RightsOk, LeftsOk;
    forall k | 0 <= k < |v[p].nodes| ensures v[p].nodes[k].value.Child? {
      ChildLink(v, t, p, k);
    }
    ChildLink(v, t, p, i);
    if i + 1 < |v[p].nodes| {
      ChildLink(v, t, p, i + 1);
    }
    if i > 0 {
      ChildLink(v, t, p, i - 1);
    }
    var c := v[p].nodes[i].value.page;
    RightsStep(t, rightQ, his, t.frames[c].level, RightOf(v[p].nodes, i), t.frames[c].hi);
    LeftsStep(t, leftQ, los, t.frames[c].level, LeftOf(v[p].nodes, i), t.frames[c].lo);
  }
}

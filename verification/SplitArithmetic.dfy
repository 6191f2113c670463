// Where split cuts a page, and when the two halves fit.
module SplitArithmetic {
  import opened HBtreeRecords
  import opened OrderedNodes
  import opened Transaction

  /** Bytes of nodes with their index entries. */
  function ByteCount(ns: seq<Node>): int {
    UpperBytes(ns) + INDEX_SIZE * |ns|
  }

  /** What split counts: every node with room for an index entry and a history node. */
  function Counted(ns: seq<Node>): int {
    if ns == [] then 0 else Counted(ns[..|ns| - 1]) + SpaceNeededFor(ns[|ns| - 1])
  }

  function Threshold(pageSize: int, p: Page): int
    requires p.NodePage?
  {
    Capacity(pageSize, p) / 2 - OVERFLOW_THRESHOLD / 2
  }

  /** Split cuts a leaf at the first point where the count reaches the threshold. */
  function CutFrom(ns: seq<Node>, threshold: int, i: nat): (r: nat)
    requires i <= |ns|
    ensures i <= r <= |ns|
    ensures r < |ns| ==> Counted(ns[..r]) >= threshold
    ensures forall j :: i <= j < r ==> Counted(ns[..j]) < threshold
    decreases |ns| - i
  {
    if i == |ns| || Counted(ns[..i]) >= threshold then i else CutFrom(ns, threshold, i + 1)
  }

  function Cut(ns: seq<Node>, threshold: int): (r: nat)
    ensures r <= |ns|
    ensures r < |ns| ==> Counted(ns[..r]) >= threshold
    ensures forall j :: 0 <= j < r ==> Counted(ns[..j]) < threshold
  {
    CutFrom(ns, threshold, 0)
  }

  lemma {:induction false} CountedIsBytes(ns: seq<Node>, lim: Limits)
    requires NodesLocal(true, ns, lim)
    ensures Counted(ns) == ByteCount(ns) + HISTORY_NODE_SIZE * |ns|
  {
    if ns != [] {
      assert NodeLocal(true, ns[|ns| - 1], lim);
      CountedIsBytes(ns[..|ns| - 1], lim);
    }
  }

  lemma {:induction false} BytesConcat(a: seq<Node>, b: seq<Node>)
    ensures ByteCount(a + b) == ByteCount(a) + ByteCount(b)
  {
    UpperBytesConcat(a, b);
  }

  /** Nodes of at least m bytes each. */
  lemma {:induction false} BytesAtLeast(ns: seq<Node>, m: int)
    requires forall i :: 0 <= i < |ns| ==> m <= ns[i].Size() + INDEX_SIZE
    ensures m * |ns| <= ByteCount(ns)
  {
    if ns != [] {
      BytesAtLeast(ns[..|ns| - 1], m);
      assert m * |ns| == m * (|ns| - 1) + m;
    }
  }

  lemma {:induction false} BytesAtMost(ns: seq<Node>, m: int)
    requires forall i :: 0 <= i < |ns| ==> ns[i].Size() + INDEX_SIZE <= m
    ensures ByteCount(ns) <= m * |ns|
  {
    if ns != [] {
      BytesAtMost(ns[..|ns| - 1], m);
      assert m * |ns| == m * (|ns| - 1) + m;
    }
  }

  /** A leaf that cannot take the node nd, and its nodes with nd. */
  ghost predicate Overfull(p: Page, nd: Node, ns: seq<Node>, pageSize: int, lim: Limits) {
    && pageSize >= MIN_PAGE_SIZE && PageLocal(p, lim) && p.leaf && |p.history| <= 3
    && NodesLocal(true, ns, lim) && ByteCount(ns) == SpaceUsed(p) + nd.Size() + INDEX_SIZE && ns != []
    && SpaceNeededFor(nd) > SpaceLeft(pageSize, p) && NodeLocal(true, nd, lim)
  }

  /** Room for nodes in a page with h history nodes. */
  predicate RoomFor(ns: seq<Node>, pageSize: int, h: nat) {
    ByteCount(ns) <= pageSize - HeaderSize(h)
  }

  /** The cut of an overfull leaf is strictly inside, and the left half always fits, with one more history node. */
  lemma CutInside(p: Page, nd: Node, ns: seq<Node>, pageSize: int, lim: Limits)
    requires Overfull(p, nd, ns, pageSize, lim)
    ensures 0 < Cut(ns, Threshold(pageSize, p)) < |ns|
    ensures RoomFor(ns[..Cut(ns, Threshold(pageSize, p))], pageSize, |p.history| + 1)
  {
    var n, thr := |ns|, Threshold(pageSize, p);
    var last := ns[n - 1];
    assert NodeLocal(true, last, lim);
    assert ns == ns[..n - 1] + [last];
    CountedIsBytes(ns[..n - 1], lim);
    CountedIsBytes(ns, lim);
    assert Counted(ns[..n - 1]) >= thr;
    var si := Cut(ns, thr);
    assert Counted(ns[..0]) == 0;
    assert si <= n - 1;
    CountedIsBytes(ns[..si], lim);
    assert NodeLocal(true, ns[si - 1], lim);
    assert ns[..si][..si - 1] == ns[..si - 1];
  }

  /** Both halves have room. */
  ghost predicate HalvesFit(p: Page, ns: seq<Node>, pageSize: int)
    requires p.NodePage?
  {
    var si := Cut(ns, Threshold(pageSize, p));
    RoomFor(ns[..si], pageSize, |p.history|) && RoomFor(ns[si..], pageSize, 0)
  }

  // ---- when the halves fit, told before the split ------------------------------------------------------------

  /** How many nodes of the page will be before the cut: if the threshold is reached before the place of the new node, those
      up to it; else those that are left to reach it once the new node is counted. */
  function Before(p: Page, nd: Node, pageSize: int): (k: nat)
    requires p.NodePage?
    ensures k <= |p.nodes|
  {
    var i, thr := LowerBound(p.nodes, nd.key.ord), Threshold(pageSize, p);
    if Counted(p.nodes[..i]) >= thr then Cut(p.nodes, thr) else CutFrom(p.nodes, thr - SpaceNeededFor(nd), i)
  }

  predicate GoesRight(p: Page, nd: Node, pageSize: int)
    requires p.NodePage?
  {
    Counted(p.nodes[..LowerBound(p.nodes, nd.key.ord)]) >= Threshold(pageSize, p)
  }

  /** The space the page has, its history and the nodes before the cut make room for the new node if that goes right. */
  predicate SplitFits(p: Page, nd: Node, pageSize: int)
    requires p.NodePage?
  {
    (if GoesRight(p, nd, pageSize) then nd.Size() + INDEX_SIZE else 0)
    <= SpaceLeft(pageSize, p) + HISTORY_NODE_SIZE * |p.history| + ByteCount(p.nodes[..Before(p, nd, pageSize)])
  }

  lemma {:induction false} CountedGrows(ns: seq<Node>, j: nat, k: nat, lim: Limits)
    requires j <= k <= |ns| && NodesLocal(true, ns, lim)
    ensures Counted(ns[..j]) <= Counted(ns[..k])
  {
    if j < k {
      CountedGrows(ns, j, k - 1, lim);
      assert ns[..k][..k - 1] == ns[..k - 1];
      assert NodeLocal(true, ns[k - 1], lim);
    }
  }

  lemma {:induction false} CountedConcat(a: seq<Node>, b: seq<Node>)
    ensures Counted(a + b) == Counted(a) + Counted(b)
  {
    if b == [] {
      assert a + b == a;
    } else {
      CountedConcat(a, b[..|b| - 1]);
      assert (a + b)[..|a + b| - 1] == a + b[..|b| - 1];
    }
  }

  /** A list with one more node, and its first part. */
  lemma InsertedPart(ns: seq<Node>, nd: Node, i: nat, k: nat)
    requires i <= |ns| && k <= |ns|
    ensures var r := ns[..i] + [nd] + ns[i..];
      && (k <= i ==> r[..k] == ns[..k])
      && (i <= k ==> Counted(r[..k + 1]) == Counted(ns[..k]) + SpaceNeededFor(nd)
                     && ByteCount(r[..k + 1]) == ByteCount(ns[..k]) + nd.Size() + INDEX_SIZE)
  {
    hide Counted, ByteCount;
    var r := ns[..i] + [nd] + ns[i..];
    if i <= k {
      assert r[..k + 1] == ns[..i] + [nd] + ns[i..k];
      assert ns[..k] == ns[..i] + ns[i..k];
      CountedConcat(ns[..i] + [nd], ns[i..k]);
      CountedConcat(ns[..i], [nd]);
      CountedConcat(ns[..i], ns[i..k]);
      BytesConcat(ns[..i] + [nd], ns[i..k]);
      BytesConcat(ns[..i], [nd]);
      BytesConcat(ns[..i], ns[i..k]);
      OneNode(nd);
    }
  }

  lemma OneNode(nd: Node)
    ensures Counted([nd]) == SpaceNeededFor(nd) && ByteCount([nd]) == nd.Size() + INDEX_SIZE
  {
    assert [nd][..0] == [];
    UpperBytesOne(nd);
  }

  /** The threshold is reached before the new node: the left half is what it was. */
  lemma CutBeforeNode(ns: seq<Node>, nd: Node, i: nat, thr: int)
    requires i <= |ns| && Counted(ns[..i]) >= thr
    ensures Cut(ns, thr) <= i && Cut(ns[..i] + [nd] + ns[i..], thr) == Cut(ns, thr)
    ensures (ns[..i] + [nd] + ns[i..])[..Cut(ns, thr)] == ns[..Cut(ns, thr)]
  {
    hide Counted;
    var r, k := ns[..i] + [nd] + ns[i..], Cut(ns, thr);
    assert ns[..|ns|] == ns;
    forall j | 0 <= j <= k ensures r[..j] == ns[..j] {
    }
  }

  /** It is reached with the new node or after it: the left half has the new node. */
  lemma CutAfterNode(ns: seq<Node>, nd: Node, i: nat, thr: int, lim: Limits)
    requires i <= |ns| && NodesLocal(true, ns, lim) && Counted(ns[..i]) < thr
    requires Cut(ns[..i] + [nd] + ns[i..], thr) <= |ns|
    ensures var k := CutFrom(ns, thr - SpaceNeededFor(nd), i);
      && Cut(ns[..i] + [nd] + ns[i..], thr) == k + 1
      && ByteCount((ns[..i] + [nd] + ns[i..])[..k + 1]) == ByteCount(ns[..k]) + nd.Size() + INDEX_SIZE
  {
    hide Counted, ByteCount;
    var r, k := ns[..i] + [nd] + ns[i..], CutFrom(ns, thr - SpaceNeededFor(nd), i);
    var si := Cut(r, thr);
    if si <= i {
      CountedGrows(ns, si, i, lim);
      InsertedPart(ns, nd, i, si);
    }
    InsertedPart(ns, nd, i, si - 1);
    InsertedPart(ns, nd, i, k);
  }

  /** The halves of a leaf fit exactly when this can be told from the page and the new node before the split. */
  lemma HalvesFitIff(p: Page, nd: Node, pageSize: int, lim: Limits)
    requires p.NodePage? && Sorted(p.nodes) && !Contains(p.nodes, nd.key.ord) && Overfull(p, nd, Insert(p.nodes, nd), pageSize, lim)
    ensures HalvesFit(p, Insert(p.nodes, nd), pageSize) <==> SplitFits(p, nd, pageSize)
  {
    hide Cut, CutFrom, Counted, ByteCount, Sorted, NodesLocal, Insert;
    var ns, i, thr := Insert(p.nodes, nd), LowerBound(p.nodes, nd.key.ord), Threshold(pageSize, p);
    var si := Cut(ns, thr);
    InsertIs(p.nodes, nd, i);
    CutInside(p, nd, ns, pageSize, lim);
    if GoesRight(p, nd, pageSize) {
      CutBeforeNode(p.nodes, nd, i, thr);
    } else {
      CutAfterNode(p.nodes, nd, i, thr, lim);
    }
    BytesConcat(ns[..si], ns[si..]);
    assert ns[..si] + ns[si..] == ns;
  }

  /** Which new nodes are too big: when the threshold is reached before the place of the node, those above a bound that the
      page gives; when it is not, none at all. */
  lemma WhichSizesFail(p: Page, nd: Node, pageSize: int, lim: Limits)
    requires p.NodePage? && Sorted(p.nodes) && !Contains(p.nodes, nd.key.ord) && Overfull(p, nd, Insert(p.nodes, nd), pageSize, lim)
    requires PageFits(p, pageSize)
    ensures GoesRight(p, nd, pageSize) ==>
      (!HalvesFit(p, Insert(p.nodes, nd), pageSize) <==>
       nd.Size() + INDEX_SIZE
       > pageSize - HeaderSize(0) - (SpaceUsed(p) - ByteCount(p.nodes[..Cut(p.nodes, Threshold(pageSize, p))])))
    ensures !GoesRight(p, nd, pageSize) ==> HalvesFit(p, Insert(p.nodes, nd), pageSize)
  {
    hide Cut, CutFrom, Counted, Sorted, NodesLocal, Insert, Contains, HalvesFit, LowerBound;
    HalvesFitIff(p, nd, pageSize, lim);
    BytesAtLeast(p.nodes[..Before(p, nd, pageSize)], NODE_HEADER_SIZE + INDEX_SIZE);
  }

  /** With entries between m and big bytes the halves fit whenever big is small enough against m. */
  lemma HalvesFitWithin(p: Page, nd: Node, ns: seq<Node>, pageSize: int, lim: Limits, m: int, big: int)
    requires Overfull(p, nd, ns, pageSize, lim) && m > 0
    requires forall i :: 0 <= i < |ns| ==> m <= ns[i].Size() + INDEX_SIZE
    requires nd.Size() + INDEX_SIZE <= big
    requires (m + HISTORY_NODE_SIZE) * (big + HISTORY_NODE_SIZE * (1 - |p.history|)) <= m * Threshold(pageSize, p)
    requires PageFits(p, pageSize)
    ensures HalvesFit(p, ns, pageSize)
  {
    var thr := Threshold(pageSize, p);
    var si := Cut(ns, thr);
    CutInside(p, nd, ns, pageSize, lim);
    CountedIsBytes(ns[..si], lim);
    BytesAtLeast(ns[..si], m);
    BytesConcat(ns[..si], ns[si..]);
    assert ns[..si] + ns[si..] == ns;
    hide ByteCount, Cut, Counted, NodesLocal, PageLocal;
    LeftIsLarge(m, ByteCount(ns[..si]), si, thr, big + HISTORY_NODE_SIZE * (1 - |p.history|));
  }

  lemma LeftIsLarge(m: int, left: int, si: int, thr: int, need: int)
    requires m > 0 && left + 12 * si >= thr && m * si <= left && (m + 12) * need <= m * thr
    ensures need <= left
  {
    assert m * (left + 12 * si) >= m * thr;
    assert m * (left + 12 * si) == m * left + 12 * (m * si);
    assert (m + 12) * (need - left) <= 0;
  }

  const MIN_UNIFORM := 16
  const MAX_UNIFORM := 474

  /** Keys of one length from 16 (a uuid) to 474 bytes: a leaf split always fits. */
  lemma UniformHalvesFit(p: Page, nd: Node, ns: seq<Node>, pageSize: int, lim: Limits)
    requires Overfull(p, nd, ns, pageSize, lim) && PageFits(p, pageSize) && MIN_UNIFORM <= lim.keySize <= MAX_UNIFORM
    ensures HalvesFit(p, ns, pageSize)
  {
    var len, h := lim.keySize, |p.history|;
    forall i | 0 <= i < |ns| ensures 10 + len <= ns[i].Size() + INDEX_SIZE {
      assert NodeLocal(true, ns[i], lim);
    }
    var thr := Threshold(pageSize, p);
    UniformArithmetic(len, h, thr);
    HalvesFitWithin(p, nd, ns, pageSize, lim, 10 + len, 1010 + len);
  }

  lemma UniformArithmetic(len: int, h: int, thr: int)
    requires MIN_UNIFORM <= len <= MAX_UNIFORM && 0 <= h && thr >= 1534 - 6 * h
    ensures (22 + len) * (1010 + len + 12 * (1 - h)) <= (10 + len) * thr
  {
    var least := 1534 - 6 * h;
    Expanded(len, h);
    NotBelow(10 + len, thr, least);
    NotBelow(len - 16, 474 - len, 0);
    NotBelow(len, h, 0);
    Square(len);
  }

  lemma NotBelow(a: int, b: int, c: int)
    requires a >= 0 && b >= c
    ensures a * b >= a * c
  {
  }

  lemma Square(len: int)
    ensures (len - 16) * (474 - len) == 490 * len - len * len - 7584
  {
  }

  lemma Expanded(len: int, h: int)
    ensures (10 + len) * (1534 - 6 * h) == 15340 - 60 * h + 1534 * len - 6 * (len * h)
    ensures (22 + len) * (1010 + len + 12 * (1 - h)) == 22484 - 264 * h + 1044 * len + len * len - 12 * (len * h)
  {
  }

  // ---- branches --------------------------------------------------------------------------------------------

  /** A branch with keys of one length, apart from an empty first key, and one more node. */
  ghost predicate OverfullBranch(p: Page, nd: Node, ns: seq<Node>, pageSize: int, lim: Limits) {
    && pageSize >= MIN_PAGE_SIZE && PageLocal(p, lim) && !p.leaf && |p.history| <= 3 && PageFits(p, pageSize)
    && ByteCount(ns) == SpaceUsed(p) + nd.Size() + INDEX_SIZE && |ns| == |p.nodes| + 1 && |p.nodes| >= 1
    && (forall i :: 0 <= i < |ns| ==> ns[i].Size() + INDEX_SIZE <= 10 + lim.keySize)
    && (forall i :: 1 <= i < |ns| ==> ns[i].Size() + INDEX_SIZE == 10 + lim.keySize)
  }

  /** Where a branch with one more node is cut. */
  function Middle(p: Page): nat
    requires p.NodePage?
  {
    (|p.nodes| + 1) / 2
  }

  /** How many nodes of the branch are before the middle once the new one is in. */
  function LeftNodes(p: Page, nd: Node): (k: nat)
    requires p.NodePage?
    ensures k <= |p.nodes|
  {
    if LowerBound(p.nodes, nd.key.ord) < Middle(p) then Middle(p) - 1 else Middle(p)
  }

  /** The bytes before the middle: those of the nodes there, and of the new one if its place is there. */
  function LeftBytes(p: Page, nd: Node): int
    requires p.NodePage?
  {
    ByteCount(p.nodes[..LeftNodes(p, nd)]) + if LowerBound(p.nodes, nd.key.ord) < Middle(p) then nd.Size() + INDEX_SIZE else 0
  }

  /** The page, with its history, has room for what is before the middle, and an empty page for the rest. */
  predicate BranchFits(p: Page, nd: Node, pageSize: int)
    requires p.NodePage?
  {
    && LeftBytes(p, nd) <= Capacity(pageSize, p)
    && SpaceUsed(p) + nd.Size() + INDEX_SIZE - LeftBytes(p, nd) <= pageSize - HeaderSize(0)
  }

  /** Both halves of a branch, whatever the lengths of its keys, fit exactly when this can be told from the page and the
      separator before the split. */
  lemma BranchHalvesFitIff(p: Page, nd: Node, pageSize: int, lim: Limits)
    requires PageLocal(p, lim) && Sorted(p.nodes) && !Contains(p.nodes, nd.key.ord)
    ensures var ns := Insert(p.nodes, nd);
      && |ns| / 2 == Middle(p) <= |ns|
      && (RoomFor(ns[..Middle(p)], pageSize, |p.history|) && RoomFor(ns[Middle(p)..], pageSize, 0) <==> BranchFits(p, nd, pageSize))
  {
    hide Counted, ByteCount, Sorted, NodesLocal, Insert, LeftBytes, Contains, LowerBound;
    var ns, m := Insert(p.nodes, nd), Middle(p);
    InsertedBytes(p, nd);
    BytesConcat(ns[..m], ns[m..]);
    assert ns[..m] + ns[m..] == ns;
    PageBytes(p, lim);
  }

  lemma InsertedBytes(p: Page, nd: Node)
    requires p.NodePage? && Sorted(p.nodes) && !Contains(p.nodes, nd.key.ord)
    ensures var ns := Insert(p.nodes, nd);
      && |ns| == |p.nodes| + 1 && ByteCount(ns) == ByteCount(p.nodes) + nd.Size() + INDEX_SIZE
      && ByteCount(ns[..Middle(p)]) == LeftBytes(p, nd)
  {
    hide Counted, ByteCount, Sorted, Insert;
    var ns, i := Insert(p.nodes, nd), LowerBound(p.nodes, nd.key.ord);
    InsertIs(p.nodes, nd, i);
    InsertedPart(p.nodes, nd, i, LeftNodes(p, nd));
    InsertedPart(p.nodes, nd, i, |p.nodes|);
    assert p.nodes[..|p.nodes|] == p.nodes && ns[..|p.nodes| + 1] == ns;
  }

  lemma PageBytes(p: Page, lim: Limits)
    requires PageLocal(p, lim)
    ensures ByteCount(p.nodes) == SpaceUsed(p)
  {
  }

  /** Cut in the middle, both halves of a branch fit. */
  lemma UniformBranchFits(p: Page, nd: Node, ns: seq<Node>, pageSize: int, lim: Limits)
    requires OverfullBranch(p, nd, ns, pageSize, lim) && nd.Size() + INDEX_SIZE == 10 + lim.keySize && lim.keySize <= MAX_UNIFORM
    ensures RoomFor(ns[..|ns| / 2], pageSize, |p.history|) && RoomFor(ns[|ns| / 2..], pageSize, 0)
  {
    var n, si, w := |ns|, |ns| / 2, 10 + lim.keySize;
    BytesAtMost(ns[..si], w);
    BytesAtMost(ns[si..], w);
    BytesAtLeast(ns[1..], w);
    BytesConcat(ns[..1], ns[1..]);
    assert ns[..1] + ns[1..] == ns;
    assert ByteCount(ns[..1]) >= 0;
    hide ByteCount, PageLocal;
    HalfArithmetic(w, n, si, SpaceUsed(p) + w);
  }

  lemma HalfArithmetic(w: int, n: int, si: int, total: int)
    requires w > 0 && n >= 2 && si == n / 2 && w * (n - 1) <= total
    ensures 2 * (w * si) <= total + w && 2 * (w * (n - si)) <= total + 2 * w
  {
    assert w * (2 * (n - si)) <= w * (n + 1);
    assert w * (2 * si) <= w * n;
    assert w * (n + 1) == w * (n - 1) + 2 * w;
    assert w * n == w * (n - 1) + w;
    assert w * (2 * si) == 2 * (w * si);
    assert w * (2 * (n - si)) == 2 * (w * (n - si));
  }
}

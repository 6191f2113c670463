// A tree of two leaves in which a cursor passes over entries: previous after seekRange went to the leaf on the left, and next
// after seek left the cursor with the leaf of another key.
module CursorCorner {
  import opened HBtreeRecords
  import opened OrderedNodes
  import opened TreeInvariant
  import opened Transaction
  import opened CursorSteps
  import opened Cursors

  const LIMITS: Limits := Limits(MIN_PAGE_SIZE, 0, Rank)

  /** Keys of one byte, in the order of the bytes. */
  function K(n: byte): Key {
    Key(Rank([n]), [n])
  }

  function Entry(n: byte): Node {
    Node(K(n), Inline([]))
  }

  function PageOf(leaf: bool, ns: seq<Node>): Page {
    NodePage(leaf, ns, UpperBytes(ns), INDEX_SIZE * |ns|, [], 1, 1, false)
  }

  /** The root on page 5 with the separator 2, the leaves 0, 1 and 3 on pages 3 and 4. */
  function CornerPages(): Pages {
    map[3 := PageOf(true, [Entry(0), Entry(1)]), 4 := PageOf(true, [Entry(3)]),
        5 := PageOf(false, [Node(EMPTY_KEY, Child(3)), Node(K(2), Child(4))])]
  }

  ghost function CornerTree(): Tree {
    Tree(5, map[3 := Frame(0.0, K(2).ord, 0), 4 := Frame(K(2).ord, TOP, 0), 5 := Frame(0.0, TOP, 1)], map[],
         map[K(0).ord := [], K(1).ord := [], K(3).ord := []])
  }

  lemma KeysRise()
    ensures 0.0 < K(0).ord < K(1).ord < K(2).ord < K(3).ord < TOP
  {
  }

  /** The pages hold the tree: a cursor may read it. */
  lemma CornerIsTree()
    ensures TreeOk(CornerPages(), CornerTree()) && FullBut(CornerPages(), CornerTree(), {})
    ensures LocalsOk(CornerPages(), CornerTree().frames, LIMITS)
  {
    hide Rank, K, UpperBytes, PageLocal, LeafOk, BranchOk;
    KeysRise();
    LeavesHold();
    BranchHolds();
    AllLocal();
  }

  lemma LeavesHold()
    ensures var v, t := CornerPages(), CornerTree();
      LeafOk(v[3], t.frames[3], t.entries, t.chains) && LeafOk(v[4], t.frames[4], t.entries, t.chains)
  {
    hide Rank, K, UpperBytes;
    KeysRise();
    var v := CornerPages();
    assert v[3].nodes[0].key == K(0) && v[3].nodes[1].key == K(1) && v[4].nodes[0].key == K(3);
  }

  lemma BranchHolds()
    ensures BranchOk(CornerPages()[5], CornerTree().frames[5], CornerTree().frames)
  {
    hide Rank, K, UpperBytes;
    KeysRise();
  }

  lemma AllLocal()
    ensures forall p :: p in {3, 4, 5} ==> PageLocal(CornerPages()[p], LIMITS)
  {
    hide Rank, UpperBytes;
    assert Rank([]) == 0.0;
  }

  ghost predicate ReadsCorner(c: Cursor)
    reads c, c.btree
  {
    c.tree == CornerTree() && c.View() == CornerPages() && c.Reads() && !c.btree.cursorDisrupted
  }

  lemma CornerLeaf(c: Cursor, p: PageNo, o: real)
    requires ReadsCorner(c) && IsLeaf(c.tree, p) && Covers(c.tree.frames[p], o)
    ensures p == if o < K(2).ord then 3 else 4
  {
    hide Rank, K, Cursor.Reads;
    KeysRise();
  }

  /** The entry 1 is not the first of its leaf, and all of the other leaf is above it. */
  lemma CornerFirsts(c: Cursor)
    requires ReadsCorner(c)
    ensures !c.FirstOfLeaf(K(1).ord) && c.LeafHas(4)
    ensures LowerBound(c.View()[4].nodes, K(1).ord) == 0
    ensures IsLeaf(c.tree, 4) && !NothingBelow(c.tree, 4, K(0).ord, false)
  {
    hide Rank, K, Cursor.Reads, UpperBytes;
    KeysRise();
    assert K(1).ord in c.tree.entries;
  }

  lemma BeforeTwo(c: Cursor)
    requires ReadsCorner(c) && c.IsAtPrevious(K(2).ord, true)
    ensures c.valid && c.key.ord == K(1).ord
  {
    hide Rank, K, Cursor.Reads;
    KeysRise();
    assert K(1).ord in c.tree.entries;
  }

  lemma NotBeforeOne(c: Cursor)
    requires ReadsCorner(c) && c.Positioned() && !c.IsAtPrevious(K(1).ord, false) && (c.valid ==> c.key.ord < K(1).ord)
    ensures !c.valid
  {
    hide Rank, K, Cursor.Reads;
    KeysRise();
  }

  lemma AtLast(c: Cursor)
    requires ReadsCorner(c) && c.IsAtPrevious(TOP, false)
    ensures c.valid && c.key.ord == K(3).ord
  {
    hide Rank, K, Cursor.Reads;
    KeysRise();
  }

  lemma NotAfterZero(c: Cursor)
    requires ReadsCorner(c) && c.Positioned() && c.valid && !c.IsAtNext(K(0).ord, false) && K(0).ord < c.key.ord
    ensures c.key.ord == K(3).ord
  {
    hide Rank, K, Cursor.Reads;
    KeysRise();
  }

  /** The key 2 has no entry: seekRange goes left to 1, and previous says that nothing is before it, though 0 is. */
  method PreviousPassesOver(c: Cursor) returns (found: bool, at: Key, ok: bool)
    requires ReadsCorner(c)
    modifies c
    ensures found && at.ord == K(1).ord && !ok && !c.valid && K(0).ord in c.tree.entries && K(0).ord < at.ord
  {
    hide Rank, K, Cursor.Reads, TreeOk, FullBut, LocalsOk, CornerPages, CornerTree, Cursor.FirstOfLeaf, Cursor.LeafHas, Cursor.IsAtPrevious,
         NothingBelow, Covers, LowerBound, IsLeaf;
    KeysInTree();
    found := c.SeekRange(K(2), EqualOrLess);
    at := c.key;
    BeforeTwo(c);
    CornerLeaf(c, c.lastLeaf, K(2).ord);
    CornerFirsts(c);
    ok := c.Previous();
    NotBeforeOne(c);
  }

  /** From the last entry seek goes to 0, and next to 3, though 1 is between them. */
  method NextPassesOver(c: Cursor) returns (found: bool, ok: bool)
    requires ReadsCorner(c)
    modifies c
    ensures found && ok && c.key.ord == K(3).ord && K(1).ord in c.tree.entries && K(0).ord < K(1).ord < K(3).ord
  {
    hide Rank, K, Cursor.Reads, TreeOk, FullBut, LocalsOk, CornerPages, CornerTree, Cursor.IsAtPrevious, Cursor.IsAtNext,
         NothingBelow, Covers, IsLeaf;
    KeysInTree();
    var last := c.Last();
    AtLast(c);
    CornerLeaf(c, c.lastLeaf, K(3).ord);
    CornerFirsts(c);
    found := c.Seek(K(0));
    ok := c.Next();
    NotAfterZero(c);
  }

  lemma KeysInTree()
    ensures K(0).ord in CornerTree().entries && K(1).ord in CornerTree().entries
    ensures 0.0 < K(0).ord < K(1).ord < K(2).ord < K(3).ord < TOP
  {
    hide Rank, K;
    KeysRise();
  }
}

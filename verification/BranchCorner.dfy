// A branch that split cannot divide: the tree that 22 puts make, and the put that overfills the right half of its root.
module BranchCorner {
  import opened HBtreeRecords
  import opened OrderedNodes
  import opened TreeInvariant
  import opened PageAccounts
  import opened PageRuns
  import HBtree
  import opened Transaction
  import opened SplitArithmetic
  import opened Descent
  import opened SplitPaths
  import opened Rebalancing

  const LIMITS: Limits := Limits(MIN_PAGE_SIZE, 0, Rank)
  const PUTS := 22
  const LEAVES := 14

  // ---- the entries -------------------------------------------------------------------------------------------

  /** Fourteen keys of four bytes, and then keys of 512 bytes, in the default order. */
  function KeyBytes(n: nat): Bytes
    requires n < 100
  {
    if n < 14 then [0, 0, 0, (n + 1) as byte] else [(n - 7) as byte] + seq(511, i => 0)
  }

  function EntryKey(n: nat): Key
    requires n < 100
  {
    Key(Rank(KeyBytes(n)), KeyBytes(n))
  }

  /** The largest value that is not put on overflow pages. */
  function Value(): Bytes {
    seq(1000, i => 0)
  }

  function Entry(n: nat): Node
    requires n < 100
  {
    Node(EntryKey(n), Inline(Value()))
  }

  lemma KeysRise(m: nat, n: nat)
    requires m < n < 100
    ensures 0.0 < EntryKey(m).ord < EntryKey(n).ord < TOP
  {
    var a, b := KeyBytes(m), KeyBytes(n);
    if n < 14 {
      assert a[1..] == [0, 0, a[3]] && a[1..][1..] == [0, a[3]] && a[1..][1..][1..] == [a[3]];
      assert b[1..] == [0, 0, b[3]] && b[1..][1..] == [0, b[3]] && b[1..][1..][1..] == [b[3]];
      assert CompareBytes(a, b) == CompareBytes([0, 0, a[3]], [0, 0, b[3]]) == CompareBytes([0, a[3]], [0, b[3]]);
      assert CompareBytes([0, a[3]], [0, b[3]]) == CompareBytes([a[3]], [b[3]]);
    } else {
      assert a[0] < b[0];
    }
    CompareIsRankOrder(a, b);
  }

  /** Entries i to j - 1. */
  function Slice(i: nat, j: nat): seq<Node>
    requires i <= j <= 100
  {
    seq(j - i, k requires 0 <= k < j - i => Entry(i + k))
  }

  function Min(a: int, b: int): int {
    if a < b then a else b
  }

  function Bytes(i: nat, j: nat): int {
    1014 * (Min(j, 14) - Min(i, 14)) + 1522 * (Min(i, 14) - i - Min(j, 14) + j)
  }

  lemma {:induction false} SliceBytes(i: nat, j: nat)
    requires i <= j <= 100
    ensures ByteCount(Slice(i, j)) == Bytes(i, j) && Counted(Slice(i, j)) == Bytes(i, j) + 12 * (j - i)
    decreases j
  {
    hide Rank, Entry;
    if i < j {
      SliceBytes(i, j - 1);
      EntrySize(j - 1);
      assert Slice(i, j)[..j - i - 1] == Slice(i, j - 1) && Slice(i, j)[j - i - 1] == Entry(j - 1);
    }
  }

  lemma SlicePart(i: nat, j: nat, k: nat)
    requires i <= k <= j <= 100
    ensures Slice(i, j)[..k - i] == Slice(i, k) && Slice(i, j)[k - i..] == Slice(k, j)
  {
    hide Rank;
  }

  // ---- the puts ----------------------------------------------------------------------------------------------

  /** A put of an entry above all others, on the leaves of a tree with one branch: into the last leaf if it has room, else the
      leaf is cut. */
  function PutLast(leaves: seq<seq<Node>>, nd: Node): seq<seq<Node>>
    requires leaves != []
  {
    var front, last := leaves[..|leaves| - 1], leaves[|leaves| - 1];
    var page := NodePage(true, last, UpperBytes(last), INDEX_SIZE * |last|, [], 1, 1, false);
    if SpaceNeededFor(nd) <= SpaceLeft(MIN_PAGE_SIZE, page) then front + [last + [nd]]
    else
      var ns := last + [nd];
      var si := Cut(ns, Threshold(MIN_PAGE_SIZE, page));
      front + [ns[..si], ns[si..]]
  }

  function AfterPuts(n: nat): (r: seq<seq<Node>>)
    requires n <= PUTS
    ensures r != []
  {
    if n == 0 then [[]] else PutLast(AfterPuts(n - 1), Entry(n - 1))
  }

  /** Where leaf i begins. */
  function Start(i: nat): nat {
    if i <= 7 then 2 * i else i + 7
  }

  /** How many leaves there are after n puts. */
  function Count(n: nat): nat {
    if n <= 4 then 1 else if n <= 14 then (n - 1) / 2 else n - 8
  }

  function LeafList(count: nat, n: nat): seq<seq<Node>>
    requires 0 < count <= LEAVES && Start(count - 1) <= n <= PUTS
  {
    seq(count - 1, i requires 0 <= i < count - 1 => Slice(Start(i), Start(i + 1))) + [Slice(Start(count - 1), n)]
  }

  /** After 22 puts the tree has 14 leaves: seven with two short keys, six with one long key and one with two. */
  lemma {:induction false} PutsMakeLeaves(n: nat)
    requires n <= PUTS
    ensures Start(Count(n) - 1) <= n && AfterPuts(n) == LeafList(Count(n), n)
  {
    hide PutLast, Entry, Slice, LeafList;
    if n == 0 {
      NoLeaves();
    } else {
      PutsMakeLeaves(n - 1);
      ListGrows(n - 1);
    }
  }

  lemma NoLeaves()
    ensures LeafList(1, 0) == [[]]
  {
    hide Entry;
    assert Slice(0, 0) == [];
  }

  lemma ListGrows(n: nat)
    requires n < PUTS && Start(Count(n) - 1) <= n
    ensures Start(Count(n + 1) - 1) <= n + 1 && PutLast(LeafList(Count(n), n), Entry(n)) == LeafList(Count(n + 1), n + 1)
  {
    hide Entry, Slice, PutLast;
    var i, c := Start(Count(n) - 1), Count(n);
    var front := seq(c - 1, k requires 0 <= k < c - 1 => Slice(Start(k), Start(k + 1)));
    OnePut(front, i, n);
    if Count(n + 1) != c {
      assert LeafList(c + 1, n + 1) == front + [Slice(i, Start(c))] + [Slice(Start(c), n + 1)];
      assert front + [Slice(i, Start(c))] + [Slice(Start(c), n + 1)] == front + [Slice(i, Start(c)), Slice(Start(c), n + 1)];
    }
  }

  lemma OnePut(front: seq<seq<Node>>, i: nat, n: nat)
    requires n < PUTS && i == Start(Count(n) - 1)
    ensures i <= n && Start(Count(n + 1) - 1) <= n + 1
    ensures PutLast(front + [Slice(i, n)], Entry(n)) ==
      if Count(n + 1) == Count(n) then front + [Slice(i, n + 1)]
      else front + [Slice(i, Start(Count(n + 1) - 1)), Slice(Start(Count(n + 1) - 1), n + 1)]
  {
    hide Rank, Cut, CutFrom, Counted, UpperBytes;
    var leaves, c := front + [Slice(i, n)], Start(Count(n + 1) - 1);
    assert leaves[..|leaves| - 1] == front;
    assert Slice(i, n) + [Entry(n)] == Slice(i, n + 1);
    SliceBytes(i, n);
    EntrySize(n);
    if Count(n + 1) != Count(n) {
      SlicePart(i, n + 1, c);
      SliceCut(i, n + 1);
    }
  }

  lemma EntrySize(n: nat)
    requires n < 100
    ensures Entry(n).Size() == (if n < 14 then 1012 else 1520) && SpaceNeededFor(Entry(n)) == Entry(n).Size() + 14
  {
    hide Rank;
  }

  /** Two short keys reach the threshold, or one long one. */
  lemma SliceCut(i: nat, j: nat)
    requires i + 3 <= j <= 100 && (i + 2 <= 14 || i >= 14)
    ensures Cut(Slice(i, j), 1534) == if i < 14 then 2 else 1
  {
    hide Rank, Counted;
    SlicePart(i, j, i);
    SlicePart(i, j, i + 1);
    SlicePart(i, j, i + 2);
    SliceBytes(i, i);
    SliceBytes(i, i + 1);
    SliceBytes(i, i + 2);
    var r := Cut(Slice(i, j), 1534);
    assert forall k :: 0 <= k < r ==> Counted(Slice(i, j)[..k]) < 1534;
  }

  // ---- the branch --------------------------------------------------------------------------------------------

  /** The separator of leaf i; the first one is empty. */
  function SepKey(i: nat): Key
    requires i <= LEAVES
  {
    if i == 0 then EMPTY_KEY else EntryKey(Start(i))
  }

  function ChildPage(i: nat): PageNo {
    if i == 0 then 3 else 4 + i
  }

  function BranchNodes(k: nat): seq<Node>
    requires k <= LEAVES
  {
    seq(k, i requires 0 <= i < k => Node(SepKey(i), Child(ChildPage(i))))
  }

  function BranchBytes(k: nat): int {
    if k == 0 then 0 else 10 + 14 * (Min(k, 7) - 1) + 522 * (k - Min(k, 7))
  }

  /** The branch with its first k separators. */
  function Branch(k: nat): Page
    requires k <= LEAVES
  {
    NodePage(false, BranchNodes(k), BranchBytes(k) - 2 * k, 2 * k, [], 1, 1, false)
  }

  lemma {:induction false} BranchSums(k: nat)
    requires k <= LEAVES
    ensures ByteCount(BranchNodes(k)) == BranchBytes(k)
  {
    hide Rank;
    if k > 0 {
      BranchSums(k - 1);
      assert BranchNodes(k)[..k - 1] == BranchNodes(k - 1);
    }
  }

  lemma SepsRise(i: nat, j: nat)
    requires i < j <= LEAVES
    ensures 0.0 <= SepKey(i).ord < SepKey(j).ord < TOP
  {
    hide Rank, KeyBytes;
    if i == 0 {
      KeysRise(0, Start(j));
    } else {
      KeysRise(Start(i), Start(j));
    }
  }

  lemma BranchIsSorted(k: nat)
    requires k <= LEAVES
    ensures Sorted(BranchNodes(k)) && (forall i :: 0 <= i < k ==> 0.0 <= BranchNodes(k)[i].key.ord < TOP)
  {
    hide Rank, KeyBytes;
    forall i, j | 0 <= i < j < k ensures BranchNodes(k)[i].key.ord < BranchNodes(k)[j].key.ord {
      SepsRise(i, j);
    }
    forall i | 0 <= i < k ensures 0.0 <= BranchNodes(k)[i].key.ord < TOP {
      SepsRise(i, i + 1);
    }
  }

  /** Each of the separators finds room in the branch before it. */
  lemma BranchGrows(k: nat)
    requires 0 < k < LEAVES
    ensures SpaceNeeded(SepKey(k), []) < SpaceLeft(MIN_PAGE_SIZE, Branch(k))
    ensures PageInsert(Branch(k), Node(SepKey(k), Child(ChildPage(k)))) == Branch(k + 1)
  {
    hide Rank, KeyBytes, SepKey, BranchBytes, LowerBound, Sorted;
    BranchIsSorted(k + 1);
    BranchIsSorted(k);
    SeparatorSize(k);
    assert forall i :: 0 <= i < k ==> BranchNodes(k)[i] == BranchNodes(k + 1)[i];
    var nd := Node(SepKey(k), Child(ChildPage(k)));
    assert BranchNodes(k + 1)[k] == nd && BranchNodes(k + 1) == BranchNodes(k) + [nd];
    SepsRise(k - 1, k);
    LowerBoundIs(BranchNodes(k), nd.key.ord, k);
  }

  lemma SeparatorSize(k: nat)
    requires 0 < k < LEAVES
    ensures Node(SepKey(k), Child(ChildPage(k))).Size() + INDEX_SIZE == BranchBytes(k + 1) - BranchBytes(k)
    ensures |SepKey(k).data| <= 512 && BranchBytes(k) <= 3226
  {
    hide Rank;
  }

  lemma BranchIsLocal()
    ensures PageLocal(Branch(LEAVES), LIMITS) && PageFits(Branch(LEAVES), MIN_PAGE_SIZE) && PageFull(Branch(LEAVES))
  {
    hide Rank;
    BranchSums(LEAVES);
    forall i | 0 <= i < LEAVES ensures NodeLocal(false, BranchNodes(LEAVES)[i], LIMITS) {
    }
  }

  /** The next separator comes last. */
  lemma NextIsLast()
    ensures var p, key := Branch(LEAVES), SepKey(LEAVES);
      Sorted(p.nodes) && LowerBound(p.nodes, key.ord) == LEAVES && !Contains(p.nodes, key.ord)
  {
    hide Rank, KeyBytes;
    var p, key := Branch(LEAVES), SepKey(LEAVES);
    BranchIsSorted(LEAVES);
    forall i | 0 <= i < LEAVES ensures p.nodes[i].key.ord < key.ord {
      SepsRise(i, LEAVES);
    }
    LowerBoundIs(p.nodes, key.ord, LEAVES);
  }

  /** Of its 3748 bytes 94 are before the middle. */
  lemma BranchHalves()
    ensures var p, nd := Branch(LEAVES), SeparatorNode(SepKey(LEAVES));
      LeftBytes(p, nd) == 94 && SpaceUsed(p) == 3748 && nd.Size() + INDEX_SIZE == 522 && |p.nodes| == LEAVES
  {
    hide Rank, ByteCount, LowerBound, UpperBytes;
    NextIsLast();
    BranchSums(7);
    assert BranchNodes(LEAVES)[..7] == BranchNodes(7);
  }

  /** The branch fits its page with 320 bytes left. One more long separator finds no room, and neither does the right half. */
  lemma BranchMisfits()
    ensures var p, key := Branch(LEAVES), SepKey(LEAVES);
      && SpaceNeeded(key, []) >= SpaceLeft(MIN_PAGE_SIZE, p) == 320 && !BranchFits(p, SeparatorNode(key), MIN_PAGE_SIZE)
      && var ns := Insert(p.nodes, SeparatorNode(key));
        |ns| == 15 && !RoomFor(ns[7..], MIN_PAGE_SIZE, 0) && ByteCount(ns[7..]) == 4176
  {
    hide Rank, KeyBytes, ByteCount, Insert, LeftBytes, BranchNodes, LowerBound, Contains, Sorted, NodesLocal, UpperBytes;
    var p, nd := Branch(LEAVES), SeparatorNode(SepKey(LEAVES));
    NextIsLast();
    BranchHalves();
    BranchIsLocal();
    PageBytes(p, LIMITS);
    InsertedBytes(p, nd);
    var ns := Insert(p.nodes, nd);
    BytesConcat(ns[..7], ns[7..]);
    assert ns[..7] + ns[7..] == ns;
    LongSeparator();
  }

  lemma LongSeparator()
    ensures |SepKey(LEAVES).data| == 512
  {
    hide Rank;
  }

  // ---- the tree ----------------------------------------------------------------------------------------------

  const ROOT: PageNo := 4

  function LeafNodes(i: nat): seq<Node>
    requires i < LEAVES
  {
    if i + 1 < LEAVES then Slice(Start(i), Start(i + 1)) else Slice(Start(i), PUTS)
  }

  function LeafPage(i: nat): Page
    requires i < LEAVES
  {
    var ns := LeafNodes(i);
    NodePage(true, ns, UpperBytes(ns), INDEX_SIZE * |ns|, [], 1, 1, false)
  }

  function PageAt(p: PageNo): Page
    requires 3 <= p < 18
  {
    if p == ROOT then Branch(LEAVES) else LeafPage(LeafOf(p))
  }

  ghost function LeafFrame(i: nat): Frame
    requires i < LEAVES
  {
    Frame(SepKey(i).ord, if i + 1 < LEAVES then SepKey(i + 1).ord else TOP, 0)
  }

  ghost function FrameAt(p: PageNo): Frame
    requires 3 <= p < 18
  {
    if p == ROOT then Frame(0.0, TOP, 1) else LeafFrame(LeafOf(p))
  }

  function LeafOf(p: PageNo): nat
    requires 3 <= p < 18 && p != ROOT
  {
    if p == 3 then 0 else p - 4
  }

  ghost function CornerTree(): Tree {
    Tree(ROOT, map p | 3 <= p < 18 :: FrameAt(p), map[], map o | o in Ords(Slice(0, PUTS)) :: Value())
  }

  /** A new file in which pages 3 to 3 + k - 1 were made. */
  ghost function MadeBooks(k: nat): Books
    requires k <= 15
  {
    if k == 0 then NewBooks() else NewPage(MadeBooks(k - 1), 2 + k, PageAt(2 + k))
  }

  function Made(k: nat): Pages
    requires k <= 15
  {
    map p | 3 <= p < 3 + k :: PageAt(p)
  }

  lemma {:induction false} MadeRun(k: nat)
    requires k <= 15
    ensures Reaches(NewBooks(), MadeBooks(k)) && NewFile(NewBooks()) && BooksOk(MadeBooks(k))
    ensures var b := MadeBooks(k);
      && b.lastPage == 3 + k && b.collectible == {} && b.disk == map[] && b.lastSyncedId == 0 && b.revision == 0
      && b.dirty == Made(k) && b.work.live == b.dirty.Keys
  {
    hide Reaches, PageAt, BooksOk, Made;
    if k == 0 {
      NoStep(NewBooks());
      NewFileIsOk(NewBooks());
      NoneMade();
    } else {
      MadeRun(k - 1);
      var b, n := MadeBooks(k - 1), 2 + k;
      PageIsBlank(n);
      StepLast(NewBooks(), b, DoNew(n, PageAt(n)));
      NewPageKeepsBooks(b, n, PageAt(n));
      OneMade(k);
    }
  }

  lemma NoneMade()
    ensures Made(0) == map[]
  {
    hide PageAt;
  }

  lemma OneMade(k: nat)
    requires 0 < k <= 15
    ensures Made(k) == Made(k - 1)[2 + k := PageAt(2 + k)] && Made(k).Keys == Made(k - 1).Keys + {2 + k}
  {
    hide PageAt;
  }

  lemma PageIsBlank(p: PageNo)
    requires 3 <= p < 18
    ensures PageAt(p).NodePage? && PageAt(p).history == [] && PageAt(p).syncId == 1 && PageAt(p).commitId == 1 && !PageAt(p).collected
  {
    hide Rank, KeyBytes, UpperBytes, Slice, BranchNodes;
  }

  lemma LeafIsOk(i: nat)
    requires i < LEAVES
    ensures LeafOk(LeafPage(i), LeafFrame(i), CornerTree().entries, map[])
  {
    hide Rank, KeyBytes, Value, UpperBytes, EntryKey, LeafFrame, CornerTree, Covers, Slice;
    var ns, lo, f := LeafNodes(i), Start(i), LeafFrame(i);
    LeafHas(i);
    LeafLevel(i);
    forall a, b | 0 <= a < b < |ns| ensures ns[a].key.ord < ns[b].key.ord {
      KeysRise(lo + a, lo + b);
    }
    forall a | 0 <= a < |ns| ensures Covers(f, ns[a].key.ord) && TreeInvariant.Holds(ns[a], CornerTree().entries, map[]) {
      EntryWhere(i, lo + a);
      KeysRise(lo + a, lo + a + 1);
      EntryThere(lo + a);
    }
    forall o | o in CornerTree().entries && Covers(f, o) ensures HasKey(ns, o) {
      var n := EntryOf(o);
      EntryWhere(i, n);
      assert ns[n - lo].key.ord == o;
    }
  }

  lemma LeafHas(i: nat)
    requires i < LEAVES
    ensures |LeafNodes(i)| == (if i + 1 < LEAVES then Start(i + 1) else PUTS) - Start(i)
    ensures forall a :: 0 <= a < |LeafNodes(i)| ==> LeafNodes(i)[a] == Entry(Start(i) + a)
  {
    hide Entry;
  }

  lemma EntryThere(n: nat)
    requires n < PUTS
    ensures EntryKey(n).ord in CornerTree().entries && CornerTree().entries[EntryKey(n).ord] == Value()
  {
    hide EntryKey, Value;
    assert Slice(0, PUTS)[n] == Entry(n);
    KeyAt(Slice(0, PUTS), n);
  }

  lemma EntryOf(o: real) returns (n: nat)
    requires o in CornerTree().entries
    ensures n < PUTS && EntryKey(n).ord == o
  {
    hide EntryKey, Value;
    n :| 0 <= n < PUTS && Slice(0, PUTS)[n].key.ord == o;
    assert Slice(0, PUTS)[n] == Entry(n);
  }

  /** An entry is in the interval of the leaf that has it, and of no other. */
  lemma EntryWhere(i: nat, n: nat)
    requires i < LEAVES && n < PUTS
    ensures Covers(LeafFrame(i), EntryKey(n).ord) <==> Start(i) <= n < (if i + 1 < LEAVES then Start(i + 1) else PUTS)
  {
    hide Rank, KeyBytes;
    KeysRise(n, n + 1);
    if n < Start(i) { KeysRise(n, Start(i)); } else if Start(i) < n { KeysRise(Start(i), n); }
    if i + 1 < LEAVES {
      if n < Start(i + 1) { KeysRise(n, Start(i + 1)); } else if Start(i + 1) < n { KeysRise(Start(i + 1), n); }
    }
  }

  lemma LeafIsLocal(i: nat)
    requires i < LEAVES
    ensures PageLocal(LeafPage(i), LIMITS) && PageFits(LeafPage(i), MIN_PAGE_SIZE) && PageFull(LeafPage(i))
  {
    hide Rank, UpperBytes, KeyBytes, Value, Slice;
    var lo := Start(i);
    SliceBytes(lo, if i + 1 < LEAVES then Start(i + 1) else PUTS);
    LeafHas(i);
    forall a | 0 <= a < |LeafNodes(i)| ensures NodeLocal(true, LeafNodes(i)[a], LIMITS) {
      EntryIsLocal(lo + a);
    }
  }

  lemma EntryIsLocal(n: nat)
    requires n < 100
    ensures NodeLocal(true, Entry(n), LIMITS)
  {
    hide Rank;
  }

  lemma FramesAreRanges()
    ensures RangesOk(CornerTree().frames) && RootOk(ROOT, CornerTree().frames)
  {
    hide Rank, KeyBytes, LeafFrame, Ords, Slice, Value;
    var fr := CornerTree().frames;
    forall p | p in fr && p != ROOT ensures 0.0 <= fr[p].lo < fr[p].hi <= TOP && fr[p].level == 0 {
      LeafRange(LeafOf(p));
    }
    forall p, q | p in fr && q in fr && p != q && fr[p].level == fr[q].level ensures fr[p].hi <= fr[q].lo || fr[q].hi <= fr[p].lo {
      if p != ROOT && q != ROOT {
        LeavesApart(LeafOf(p), LeafOf(q));
        LeavesApart(LeafOf(q), LeafOf(p));
      }
    }
  }

  lemma LeafRange(i: nat)
    requires i < LEAVES
    ensures 0.0 <= LeafFrame(i).lo < LeafFrame(i).hi <= TOP && LeafFrame(i).level == 0
  {
    hide Rank, KeyBytes, SepKey;
    SepsRise(i, i + 1);
  }

  lemma LeavesApart(i: nat, j: nat)
    requires i < LEAVES && j < LEAVES
    ensures i < j ==> LeafFrame(i).hi <= LeafFrame(j).lo
  {
    hide Rank, KeyBytes, SepKey;
    if i + 1 < j { SepsRise(i + 1, j); }
  }

  lemma BranchIsOk()
    ensures BranchOk(Branch(LEAVES), Frame(0.0, TOP, 1), CornerTree().frames)
  {
    hide Rank, KeyBytes, Ords, Slice, Value, SepKey;
    BranchIsSorted(LEAVES);
    var ns := BranchNodes(LEAVES);
    FirstSeparator();
    forall i | 0 <= i < LEAVES ensures LinkOk(ns, i, Frame(0.0, TOP, 1), CornerTree().frames) {
      assert LeafOf(ChildPage(i)) == i && ns[i].value.page == ChildPage(i) != ROOT;
    }
  }

  lemma FirstSeparator()
    ensures SepKey(0).ord == 0.0
  {
  }

  lemma EntriesInRange()
    ensures forall o :: o in CornerTree().entries ==> 0.0 <= o < TOP
  {
    hide Rank, KeyBytes, Value, CornerTree;
    forall o | o in CornerTree().entries ensures 0.0 <= o < TOP {
      var n := EntryOf(o);
      KeysRise(n, n + 1);
    }
  }

  /** The pages are those of a tree whose pages all fit and are full enough, reached from a new file. */
  lemma CornerIsHealthy()
    ensures var b, t := MadeBooks(15), CornerTree();
      && Reaches(NewBooks(), b) && NewFile(NewBooks())
      && TxnOk(b, t, {}, LIMITS) && Healthy(b.View(), t, {}, MIN_PAGE_SIZE, Health(true, true))
  {
    hide Rank, KeyBytes, BooksOk, Reaches, LeafOk, BranchOk, RangesOk, RootOk, PageLocal, PageFits, PageFull, MadeBooks, LeafPage, Branch, LeafFrame,
         Value;
    var b, t := MadeBooks(15), CornerTree();
    MadeRun(15);
    FramesAreRanges();
    BranchIsOk();
    BranchIsLocal();
    EntriesInRange();
    forall i | 0 <= i < LEAVES
      ensures LeafOk(LeafPage(i), LeafFrame(i), t.entries, map[]) && LeafFrame(i).level == 0
      ensures PageLocal(LeafPage(i), LIMITS) && PageFits(LeafPage(i), MIN_PAGE_SIZE) && PageFull(LeafPage(i))
    {
      LeafIsOk(i);
      LeafIsLocal(i);
      LeafLevel(i);
    }
    assert b.View() == b.dirty;
    assert forall p :: 3 <= p < 18 && p != ROOT ==> LeafOf(p) < LEAVES;
  }

  lemma LeafLevel(i: nat)
    requires i < LEAVES
    ensures LeafFrame(i).level == 0
  {
  }

  /** The leaves of this tree are what the puts make of an empty leaf, and each separator is the first key of its leaf. */
  lemma PutsMakeTree()
    ensures |AfterPuts(PUTS)| == LEAVES && forall i :: 0 <= i < LEAVES ==> AfterPuts(PUTS)[i] == LeafPage(i).nodes
    ensures forall i :: 0 < i < LEAVES ==> LeafPage(i).nodes != [] && LeafPage(i).nodes[0].key == SepKey(i)
  {
    hide Rank, KeyBytes, Value, AfterPuts, UpperBytes, Slice, LeafList, SepKey;
    PutsMakeLeaves(PUTS);
    assert Count(PUTS) == LEAVES;
    ListIsLeaves();
    forall i | 0 < i < LEAVES ensures LeafPage(i).nodes != [] && LeafPage(i).nodes[0].key == SepKey(i) {
      FirstKey(i);
    }
  }

  lemma ListIsLeaves()
    ensures |LeafList(LEAVES, PUTS)| == LEAVES && forall i :: 0 <= i < LEAVES ==> LeafList(LEAVES, PUTS)[i] == LeafNodes(i)
  {
    hide Slice;
  }

  lemma FirstKey(i: nat)
    requires 0 < i < LEAVES
    ensures LeafPage(i).nodes != [] && LeafPage(i).nodes[0].key == SepKey(i)
  {
    hide Rank, KeyBytes, Value, UpperBytes, Slice;
    LeafHas(i);
  }

  /** The next put, with one more long key, leaves a page that does not fit: the last leaf is cut, and its separator overfills
      the right half of the root. */
  lemma NextPutMisfits()
    ensures !PutFits(MadeBooks(15), CornerTree(), EntryKey(PUTS), Value(), MIN_PAGE_SIZE)
  {
    hide Rank, KeyBytes, RangesOk, MadeBooks, Value, CornerTree, WayTo, WayTakes, PagesForPut, EntryKey, BooksOk, Reaches;
    var b, t, o := MadeBooks(15), CornerTree(), EntryKey(PUTS).ord;
    FramesAreRanges();
    LastWay();
    LastPages();
    RootIsFour();
    WayIsFull();
    forall way | WayTo(t, way, o) ensures !WayTakes(PagesForPut(b, way, o, MIN_PAGE_SIZE), EntryKey(PUTS), Value(), MIN_PAGE_SIZE) {
      WayIsUnique(t, way, [ROOT, 17], o);
    }
  }

  lemma KeyIsTaken()
    ensures |EntryKey(PUTS).data| == MAX_KEY_SIZE && EntryKey(PUTS).ord == LIMITS.place(EntryKey(PUTS).data)
  {
    hide Rank;
  }

  /** It is a put like any other, and leaves a page that is too full. */
  method NextPutOverfills(tree: HBtree.HBtree) returns (ok: bool)
    requires tree.lim == LIMITS && tree.InTxn({}, {}) && tree.Accounts() == MadeBooks(15) && tree.work == CornerTree()
    modifies tree
    ensures ok && tree.InTxn({}, {}) && tree.TooFull()
  {
    hide Rank, KeyBytes, MadeBooks, Value, CornerTree, HBtree.HBtree.InTxn, HBtree.HBtree.TooFull, PutFits;
    NextPutMisfits();
    KeysRise(PUTS, PUTS + 1);
    KeyIsTaken();
    ok := tree.Put(EntryKey(PUTS), Value());
  }

  lemma RootIsFour()
    ensures CornerTree().root == ROOT
  {
  }

  /** The way of the next key: the root and the last leaf. */
  lemma LastWay()
    ensures WayTo(CornerTree(), [ROOT, 17], EntryKey(PUTS).ord)
  {
    hide Rank, KeyBytes, Ords, Slice, Value, LeafFrame, EntryKey, CornerTree, SepKey;
    LastLeaf();
    RootIsFour();
    LastFrames();
    WayOfTwo(CornerTree(), ROOT, 17, EntryKey(PUTS).ord);
  }

  lemma WayOfTwo(t: Tree, root: PageNo, leaf: PageNo, o: real)
    requires t.root == root && root in t.frames && leaf in t.frames && t.frames[root].level == 1 && t.frames[leaf].level == 0
    requires Inside(t.frames[leaf], t.frames[root]) && Covers(t.frames[leaf], o)
    ensures WayTo(t, [root, leaf], o)
  {
  }

  lemma LastFrames()
    ensures var fr := CornerTree().frames;
      ROOT in fr && fr[ROOT] == Frame(0.0, TOP, 1) && 17 in fr && fr[17] == LeafFrame(LEAVES - 1)
  {
    hide Rank, KeyBytes, Ords, Slice, Value, LeafFrame, EntryKey, SepKey;
    assert LeafOf(17) == LEAVES - 1;
  }

  lemma LastPages()
    ensures PagesForPut(MadeBooks(15), [ROOT, 17], EntryKey(PUTS).ord, MIN_PAGE_SIZE) == [Branch(LEAVES), LeafPage(LEAVES - 1)]
  {
    hide Rank, KeyBytes, Value, MadeBooks, Branch, LeafPage, PageRemove, EntryKey, BooksOk, Reaches, SpaceLeft, LeafFrame, SplitKey, Covers;
    MadeRun(15);
    LastLeaf();
    var b := MadeBooks(15);
    assert b.View() == b.dirty;
    PageIsBlank(ROOT);
    PageIsBlank(17);
    assert PageAt(ROOT) == Branch(LEAVES) && PageAt(17) == LeafPage(LEAVES - 1);
    assert TouchedPage(b, ROOT, MIN_PAGE_SIZE) == Branch(LEAVES) && TouchedPage(b, 17, MIN_PAGE_SIZE) == LeafPage(LEAVES - 1);
  }

  lemma WayIsFull()
    ensures !WayTakes([Branch(LEAVES), LeafPage(LEAVES - 1)], EntryKey(PUTS), Value(), MIN_PAGE_SIZE)
  {
    hide Rank, KeyBytes, Value, PageRemove, EntryKey, SpaceLeft, LeafFrame, SplitKey, SplitFits, BranchFits, Covers, SpaceNeeded, Insert, RoomFor;
    LastLeaf();
    BranchMisfits();
    assert [Branch(LEAVES), LeafPage(LEAVES - 1)][..1] == [Branch(LEAVES)];
  }

  /** The last leaf has no room for the entry; without it the leaf is the same; it is cut before its second entry. */
  lemma LastLeaf()
    ensures var p, key := LeafPage(LEAVES - 1), EntryKey(PUTS);
      && PageRemove(p, key.ord) == p && SpaceNeeded(key, Value()) > SpaceLeft(MIN_PAGE_SIZE, p)
      && SplitKey(p, LeafNode(key, Value()), MIN_PAGE_SIZE) == SepKey(LEAVES) && Covers(LeafFrame(LEAVES - 1), key.ord)
      && LeafFrame(LEAVES - 1).lo >= 0.0 && LeafFrame(LEAVES - 1).hi == TOP && LeafFrame(LEAVES - 1).level == 0
  {
    hide Rank, UpperBytes, Counted, Cut, CutFrom;
    var p, key := LeafPage(LEAVES - 1), EntryKey(PUTS);
    SliceBytes(20, 22);
    EntrySize(PUTS);
    KeysRise(20, 21);
    KeysRise(21, PUTS);
    KeysRise(PUTS, PUTS + 1);
    LowerBoundIs(p.nodes, key.ord, 2);
    assert Slice(20, 22) + [Entry(PUTS)] == Slice(20, 23);
    SliceCut(20, 23);
  }

  // ---- a borrowed node ---------------------------------------------------------------------------------------

  function Leaf(ns: seq<Node>): Page {
    NodePage(true, ns, UpperBytes(ns), INDEX_SIZE * |ns|, [], 1, 1, false)
  }

  function LongBytes(): Bytes {
    [0, 0, 0, 4] + seq(508, i => 0)
  }

  /** A leaf between the first two separators of the branch: a short key, a long one and a third. */
  function Lender(): Page {
    Leaf([Entry(2), Node(Key(Rank(LongBytes()), LongBytes()), Inline([])), Node(Key(Rank([0, 0, 0, 4, 1]), [0, 0, 0, 4, 1]), Inline([]))])
  }

  lemma LenderRanks()
    ensures Rank(KeyBytes(2)) < Rank(LongBytes()) < Rank([0, 0, 0, 4, 1]) < Rank(KeyBytes(4))
  {
    hide Rank;
    var zeros: Bytes := seq(508, i => 0);
    Below(KeyBytes(2), LongBytes(), [0, 0, 0], [3], [4] + zeros);
    Below(LongBytes(), [0, 0, 0, 4, 1], [0, 0, 0, 4], zeros, [1]);
    Below([0, 0, 0, 4, 1], KeyBytes(4), [0, 0, 0], [4, 1], [5]);
  }

  lemma LenderKeys()
    ensures Lender().nodes[0].key.ord == SepKey(1).ord && Sorted(Lender().nodes) && Lender().nodes[2].key.ord < SepKey(2).ord
  {
    hide Rank, KeyBytes, LongBytes, Value, UpperBytes;
    LenderRanks();
  }

  /** Of two byte strings the one with the lower byte behind their common beginning comes first. */
  lemma {:induction false} Below(a: Bytes, b: Bytes, c: Bytes, x: Bytes, y: Bytes)
    requires a == c + x && b == c + y && x != [] && y != [] && x[0] < y[0]
    ensures Rank(a) < Rank(b)
  {
    if c != [] {
      assert a[1..] == c[1..] + x && b[1..] == c[1..] + y;
      Below(a[1..], b[1..], c[1..], x, y);
    } else {
      CompareIsRankOrder(a, b);
    }
  }

  lemma LenderBytes()
    ensures ByteCount(Lender().nodes) == 1551 && ByteCount([Entry(0)]) == 1014
  {
    hide Rank, Value;
    EntrySize(0);
    EntrySize(2);
    var ns := Lender().nodes;
    assert ns[..2] == [ns[0], ns[1]] && ns[..2][..1] == [ns[0]] && [ns[0]][..0] == [] && [Entry(0)][..0] == [];
    UpperBytesOne(ns[0]);
    assert UpperBytes([ns[0], ns[1]]) == UpperBytes([ns[0]]) + ns[1].Size();
  }

  /** Nothing in the two leaves forbids it. */
  lemma LenderLends()
    ensures var page, neighbour := Leaf([Entry(0)]), Lender();
      && page.NodePage? && neighbour.NodePage? && PageFits(page, MIN_PAGE_SIZE) && PageFits(neighbour, MIN_PAGE_SIZE)
      && !WellFilled(MIN_PAGE_SIZE, page) && WellFilled(MIN_PAGE_SIZE, neighbour) && |neighbour.nodes| > 2
      && SpaceNeededFor(SourceNode(neighbour, true)) <= SpaceLeft(MIN_PAGE_SIZE, page)
      && SourceNode(neighbour, true).key == SepKey(1) && |NewKey(neighbour, true).data| == 512 && |SepKey(1).data| == 4
  {
    hide Rank, Value, UpperBytes;
    LenderBytes();
    EntrySize(2);
  }

  lemma FirstSeparators()
    ensures var parent := Branch(LEAVES);
      parent.NodePage? && |parent.nodes| == LEAVES && parent.nodes[1] == Node(SepKey(1), Child(ChildPage(1)))
    ensures EntryKey(0).ord < SepKey(1).ord
  {
    hide Rank, KeyBytes;
    KeysRise(0, 2);
  }

  /** rebalance lets the page borrow the first node of its right neighbour, which entry 1 of the parent links: the neighbour is
      well filled and the key that is moved is no longer than the separator. All three pages fit, and then the parent does not. */
  ghost predicate BorrowsTooMuch(page: Page, neighbour: Page, parent: Page) {
    && page.NodePage? && neighbour.NodePage? && parent.NodePage? && |neighbour.nodes| > 2 && |parent.nodes| > 1
    && PageFits(page, MIN_PAGE_SIZE) && PageFits(neighbour, MIN_PAGE_SIZE) && PageFits(parent, MIN_PAGE_SIZE)
    && !WellFilled(MIN_PAGE_SIZE, page) && WellFilled(MIN_PAGE_SIZE, neighbour)
    && SpaceNeededFor(SourceNode(neighbour, true)) <= SpaceLeft(MIN_PAGE_SIZE, page)
    && var was := parent.nodes[1];
      && CanUpdate(MIN_PAGE_SIZE, parent, was.key, SourceNode(neighbour, true).key)
      && !PageFits(PageInsert(PageRemove(parent, was.key.ord), Node(NewKey(neighbour, true), was.value)), MIN_PAGE_SIZE)
  }

  /** Such are a leaf of one entry, its neighbour and the branch above: the new separator is the long key, and the branch has 320
      bytes left. The keys stand as the separators ask. */
  lemma BorrowMisfits()
    ensures BorrowsTooMuch(Leaf([Entry(0)]), Lender(), Branch(LEAVES))
    ensures EntryKey(0).ord < SepKey(1).ord && Branch(LEAVES).nodes[1] == Node(SepKey(1), Child(ChildPage(1)))
    ensures Sorted(Lender().nodes) && Lender().nodes[0].key.ord == SepKey(1).ord && Lender().nodes[2].key.ord < SepKey(2).ord
  {
    hide Rank, Value, UpperBytes, PageInsert, PageRemove, PageFits, WellFilled, Leaf, Lender, SourceNode, NewKey, Branch, SepKey, SpaceLeft, BranchFits, Insert;
    LenderLends();
    LenderKeys();
    FirstSeparators();
    BranchMisfits();
    BranchIsLocal();
    NextIsLast();
    NewSeparatorFitsIff(Branch(LEAVES), 1, NewKey(Lender(), true), ChildPage(1), MIN_PAGE_SIZE);
  }
}

// The records of the paged B+tree: keys, nodes, pages, history nodes and their byte sizes.
module HBtreeRecords {
  import opened Lexicographic

  type PageNo = int

  // Page numbers are not limited to 32 bits here, so the invalid number is one no page has.
  const INVALID_PAGE: PageNo := -1

  newtype byte = b: int | 0 <= b < 256
  type Bytes = seq<byte>

  const PAGE_INFO_SIZE := 16
  const NODE_META_SIZE := 12
  const NODE_HEADER_SIZE := 8
  const HISTORY_NODE_SIZE := 12
  const INDEX_SIZE := 2
  const MIN_PAGE_SIZE := 4096
  const OVERFLOW_THRESHOLD := 1000
  const PAGE_FILL_THRESHOLD := 25
  const MAX_KEY_SIZE := 512
  const COMMIT_CHAIN := 1

  /** A key and its place in the order of the tree's compare function. Byte strings are countable, so any total
      order on them with the empty string least embeds in the reals from 0.0 (the empty key) to 1.0 (no key). */
  datatype Key = Key(ord: real, data: Bytes)

  const EMPTY_KEY := Key(0.0, [])
  const TOP := 1.0

  ghost predicate UserKey(k: Key) {
    0.0 <= k.ord < TOP
  }

  datatype NodeValue = Inline(data: Bytes) | Overflow(first: PageNo) | Child(page: PageNo) {
    function InlineSize(): nat {
      if Inline? then |data| else 0
    }
  }

  datatype Node = Node(key: Key, value: NodeValue) {
    function Size(): nat {
      NODE_HEADER_SIZE + |key.data| + value.InlineSize()
    }
  }

  /** An earlier version of a node page: its number and the sync and commit it was made for. */
  datatype HistoryNode = HistoryNode(page: PageNo, syncId: nat, commitId: nat)

  datatype Page =
    | NodePage(leaf: bool, nodes: seq<Node>, upper: int, lower: int, history: seq<HistoryNode>,
               syncId: nat, commitId: nat, collected: bool)
    | OverflowPage(data: Bytes, next: PageNo)
    | Torn  // what a page holds when the write of it was cut short: its checksum does not match

  type Pages = map<PageNo, Page>

  function HeaderSize(history: nat): int {
    PAGE_INFO_SIZE + NODE_META_SIZE + history * HISTORY_NODE_SIZE
  }

  function Capacity(pageSize: int, p: Page): int
    requires p.NodePage?
  {
    pageSize - HeaderSize(|p.history|)
  }

  function SpaceUsed(p: Page): int
    requires p.NodePage?
  {
    p.upper + p.lower
  }

  function SpaceLeft(pageSize: int, p: Page): int
    requires p.NodePage?
  {
    Capacity(pageSize, p) - SpaceUsed(p)
  }

  function WillCauseOverflow(value: Bytes): bool {
    |value| > OVERFLOW_THRESHOLD
  }

  /** Room for a node, its index entry and one more history node. */
  function SpaceNeeded(key: Key, value: Bytes): int {
    NODE_HEADER_SIZE + |key.data| + (if WillCauseOverflow(value) then 0 else |value|) + INDEX_SIZE + HISTORY_NODE_SIZE
  }

  function SpaceNeededFor(nd: Node): int {
    SpaceNeeded(nd.key, if nd.value.Inline? then nd.value.data else [])
  }

  /** Page fill above the threshold, as an exact comparison of percentages. */
  function WellFilled(pageSize: int, p: Page): bool
    requires p.NodePage?
  {
    100 * SpaceUsed(p) > PAGE_FILL_THRESHOLD * Capacity(pageSize, p)
  }

  /** NodeKey::compare without a compare function: memcmp on the common length, then the lengths. */
  function CompareBytes(a: Bytes, b: Bytes): int {
    if a == [] && b == [] then 0
    else if a == [] then -1
    else if b == [] then 1
    else if a[0] != b[0] then a[0] as int - b[0] as int
    else CompareBytes(a[1..], b[1..])
  }

  /** The default comparison is the lexicographic one. */
  lemma {:induction false} CompareIsLexicographic(a: Bytes, b: Bytes)
    ensures CompareBytes(a, b) < 0 <==> Precedes(a, b, (x: byte, y: byte) => x < y)
  {
    var below := (x: byte, y: byte) => x < y;
    if a != [] && b != [] {
      PrecedesStep(a, b, below);
      CompareIsLexicographic(a[1..], b[1..]);
    } else {
      PrecedesEmpty(a, b, below);
    }
  }

  /** Where a byte string stands in the default order. */
  function Rank(a: Bytes): (r: real)
    ensures 0.0 <= r < TOP
    ensures r == 0.0 <==> a == []
  {
    if a == [] then 0.0 else ((a[0] as int + 1) as real + Rank(a[1..])) / 257.0
  }

  /** The default comparison is the order of the ranks, so it is total with the empty key least. */
  lemma {:induction false} CompareIsRankOrder(a: Bytes, b: Bytes)
    ensures CompareBytes(a, b) < 0 <==> Rank(a) < Rank(b)
    ensures CompareBytes(a, b) == 0 <==> Rank(a) == Rank(b)
    ensures CompareBytes(a, b) == 0 <==> a == b
  {
    if a != [] && b != [] {
      var x, y := a[0] as int, b[0] as int;
      if x == y {
        CompareIsRankOrder(a[1..], b[1..]);
        assert a == [a[0]] + a[1..] && b == [b[0]] + b[1..];
      } else if x < y {
        assert (x + 1) as real + 1.0 <= (y + 1) as real;
      } else {
        assert (y + 1) as real + 1.0 <= (x + 1) as real;
      }
    }
  }
}

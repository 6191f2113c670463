// Node pages and overflow pages as bytes: the header, the history and the index grow from the front of a page, the nodes
// grow from its end.
module PageCodec {
  import opened HBtreeRecords
  import opened OrderedNodes
  import opened Transaction
  import opened OverflowChains

  const LEAF := 2
  const BRANCH := 3
  const OVERFLOW := 4
  const OVERFLOW_FLAG := 1
  const NO_PAGE := 0xFFFF_FFFF

  /** The header fields that a page does not carry in memory. */
  datatype Info = Info(checksum: nat, number: nat, flags: nat)

  // ---- numbers ---------------------------------------------------------------------------------------------

  function LE16(n: int): (r: Bytes)
    requires 0 <= n < 0x1_0000
    ensures |r| == 2
  {
    [(n % 256) as byte, (n / 256) as byte]
  }

  function LE32(n: int): (r: Bytes)
    requires 0 <= n < 0x1_0000_0000
    ensures |r| == 4
  {
    LE16(n % 0x1_0000) + LE16(n / 0x1_0000)
  }

  /** Numbers are stored with the least significant byte first. */
  lemma LittleEndian(n: int)
    requires 0 <= n < 0x1_0000_0000
    ensures var b := LE32(n);
      n == b[0] as int + 0x100 * b[1] as int + 0x1_0000 * b[2] as int + 0x100_0000 * b[3] as int
    ensures n < 0x1_0000 ==> LE16(n) == LE32(n)[..2]
  {
  }

  function Read16(buf: Bytes, at: nat): int
    requires at + 2 <= |buf|
  {
    buf[at] as int + 256 * buf[at + 1] as int
  }

  function Read32(buf: Bytes, at: nat): int
    requires at + 4 <= |buf|
  {
    Read16(buf, at) + 0x1_0000 * Read16(buf, at + 2)
  }

  lemma ReadBack16(buf: Bytes, at: nat, n: int)
    requires 0 <= n < 0x1_0000 && at + 2 <= |buf| && buf[at..at + 2] == LE16(n)
    ensures Read16(buf, at) == n
  {
    assert buf[at] == buf[at..at + 2][0] && buf[at + 1] == buf[at..at + 2][1];
  }

  lemma ReadBack32(buf: Bytes, at: nat, n: int)
    requires 0 <= n < 0x1_0000_0000 && at + 4 <= |buf| && buf[at..at + 4] == LE32(n)
    ensures Read32(buf, at) == n
  {
    assert buf[at..at + 2] == buf[at..at + 4][..2] && buf[at + 2..at + 4] == buf[at..at + 4][2..];
    ReadBack16(buf, at, n % 0x1_0000);
    ReadBack16(buf, at + 2, n / 0x1_0000);
  }

  // ---- the layout ------------------------------------------------------------------------------------------

  function Context(nd: Node): int {
    match nd.value
    case Inline(data) => |data|
    case Overflow(first) => first
    case Child(page) => page
  }

  /** Node values that fit their fields, in the kind of page they belong to. */
  ghost predicate Writable(leaf: bool, nd: Node, place: Bytes -> real) {
    && |nd.key.data| < 0x1_0000 && 0 <= Context(nd) < 0x1_0000_0000 && (nd.value.Child? <==> !leaf)
    && nd.key.ord == place(nd.key.data)
  }

  function NodeBytes(nd: Node): (r: Bytes)
    requires |nd.key.data| < 0x1_0000 && 0 <= Context(nd) < 0x1_0000_0000
    ensures |r| == nd.Size()
  {
    LE16(|nd.key.data|) + LE16(if nd.value.Overflow? then OVERFLOW_FLAG else 0) + LE32(Context(nd)) + nd.key.data
    + if nd.value.Inline? then nd.value.data else []
  }

  ghost predicate WritableHistory(h: HistoryNode) {
    0 <= h.page < 0x1_0000_0000 && h.syncId < 0x1_0000_0000 && h.commitId < 0x1_0000_0000
  }

  function HistoryBytes(h: HistoryNode): (r: Bytes)
    requires 0 <= h.page < 0x1_0000_0000 && h.syncId < 0x1_0000_0000 && h.commitId < 0x1_0000_0000
    ensures |r| == HISTORY_NODE_SIZE
  {
    LE32(h.page) + LE32(h.syncId) + LE32(h.commitId)
  }

  /** A page whose numbers fit their fields and whose used space fits its capacity. */
  ghost predicate Encodable(p: Page, info: Info, pageSize: int, place: Bytes -> real) {
    && p.NodePage? && MIN_PAGE_SIZE <= pageSize < 0x1_0000 && PageFits(p, pageSize)
    && p.upper == UpperBytes(p.nodes) && p.lower == INDEX_SIZE * |p.nodes|
    && info.checksum < 0x1_0000_0000 && info.number < 0x1_0000_0000 && info.flags < 0x1_0000
    && p.syncId < 0x1_0000_0000 && p.commitId < 0x1_0000_0000
    && (forall k :: 0 <= k < |p.history| ==> WritableHistory(p.history[k]))
    && (forall i :: 0 <= i < |p.nodes| ==> Writable(p.leaf, p.nodes[i], place))
  }

  /** The bytes at a place of the buffer. */
  ghost predicate Holds(buf: Bytes, at: int, bytes: Bytes) {
    0 <= at && at + |bytes| <= |buf| && buf[at..at + |bytes|] == bytes
  }

  function Header(p: Page, info: Info): (r: Bytes)
    requires p.NodePage? && 0 <= p.upper < 0x1_0000 && 0 <= p.lower < 0x1_0000 && |p.history| < 0x1_0000
    requires info.checksum < 0x1_0000_0000 && info.number < 0x1_0000_0000 && info.flags < 0x1_0000
    requires p.syncId < 0x1_0000_0000 && p.commitId < 0x1_0000_0000
    ensures |r| == PAGE_INFO_SIZE + NODE_META_SIZE
  {
    LE32(info.checksum) + LE32(if p.leaf then LEAF else BRANCH) + LE32(info.number) + LE16(p.upper) + LE16(p.lower)
    + LE32(p.syncId) + LE16(|p.history|) + LE16(info.flags) + LE32(p.commitId)
  }

  ghost predicate HistoryAt(buf: Bytes, p: Page, k: nat)
    requires p.NodePage? && k < |p.history| && WritableHistory(p.history[k])
  {
    Holds(buf, HeaderSize(k), HistoryBytes(p.history[k]))
  }

  /** Where node i ends, counted from the end of the page. */
  ghost function UpperAt(p: Page, i: nat): nat
    requires p.NodePage? && i <= |p.nodes|
  {
    UpperBytes(p.nodes[..i])
  }

  ghost predicate NodeAt(buf: Bytes, p: Page, i: nat, place: Bytes -> real)
    requires p.NodePage? && i < |p.nodes| && Writable(p.leaf, p.nodes[i], place) && 0 <= UpperAt(p, i + 1) < 0x1_0000
  {
    && Holds(buf, HeaderSize(|p.history|) + INDEX_SIZE * i, LE16(UpperAt(p, i + 1)))
    && Holds(buf, |buf| - UpperAt(p, i + 1), NodeBytes(p.nodes[i]))
  }

  lemma {:induction false} UpperPrefix(ns: seq<Node>, i: nat)
    requires i <= |ns|
    ensures UpperBytes(ns[..i]) <= UpperBytes(ns)
    ensures i < |ns| ==> UpperBytes(ns[..i + 1]) == UpperBytes(ns[..i]) + ns[i].Size()
  {
    UpperBytesConcat(ns[..i], ns[i..]);
    assert ns[..i] + ns[i..] == ns;
    if i < |ns| {
      assert ns[..i + 1][..i] == ns[..i];
    }
  }

  lemma UpperInside(p: Page, info: Info, pageSize: int, place: Bytes -> real, i: nat)
    requires Encodable(p, info, pageSize, place) && i <= |p.nodes|
    ensures UpperAt(p, i) <= p.upper < pageSize
    ensures HeaderSize(|p.history|) + INDEX_SIZE * |p.nodes| <= pageSize - p.upper
    ensures i < |p.nodes| ==> UpperAt(p, i + 1) == UpperAt(p, i) + p.nodes[i].Size()
  {
    UpperPrefix(p.nodes, i);
  }

  /** The buffer holds the page: the header, every history node, every index entry and every node. */
  ghost predicate Encodes(buf: Bytes, p: Page, info: Info, place: Bytes -> real)
    requires Encodable(p, info, |buf|, place)
  {
    && Holds(buf, 0, Header(p, info))
    && (forall k :: 0 <= k < |p.history| ==> HistoryAt(buf, p, k))
    && (forall i :: 0 <= i < |p.nodes| ==> Indexed(buf, p, info, place, i))
  }

  ghost predicate Indexed(buf: Bytes, p: Page, info: Info, place: Bytes -> real, i: nat)
    requires Encodable(p, info, |buf|, place) && i < |p.nodes|
  {
    UpperInside(p, info, |buf|, place, i);
    UpperInside(p, info, |buf|, place, i + 1);
    NodeAt(buf, p, i, place)
  }

  // ---- memcpy ----------------------------------------------------------------------------------------------

  ghost function Spliced(buf: Bytes, at: nat, bytes: Bytes): (r: Bytes)
    requires at + |bytes| <= |buf|
    ensures |r| == |buf|
  {
    buf[..at] + bytes + buf[at + |bytes|..]
  }

  /** What lies outside the written stretch stays. */
  lemma SplicedElsewhere(buf: Bytes, at: nat, bytes: Bytes, where: int, what: Bytes)
    requires at + |bytes| <= |buf| && Holds(buf, where, what) && (where + |what| <= at || at + |bytes| <= where)
    ensures Holds(Spliced(buf, at, bytes), where, what)
  {
    var r := Spliced(buf, at, bytes);
    assert forall j :: where <= j < where + |what| ==> r[j] == buf[j];
    assert r[where..where + |what|] == buf[where..where + |what|];
  }

  lemma SplicedHere(buf: Bytes, at: nat, bytes: Bytes)
    requires at + |bytes| <= |buf|
    ensures Holds(Spliced(buf, at, bytes), at, bytes)
  {
  }

  /** The bytes from one place up to another are zero. */
  ghost predicate Zeroed(buf: Bytes, from: int, to: int) {
    forall j :: 0 <= from <= j < to && j < |buf| ==> buf[j] == 0
  }

  lemma SplicedZeroed(buf: Bytes, at: nat, bytes: Bytes, from: int, to: int)
    requires at + |bytes| <= |buf| && Zeroed(buf, from, to) && 0 <= from
    ensures Zeroed(Spliced(buf, at, bytes), if at <= from then (if at + |bytes| < from then from else at + |bytes|) else from,
                   if at <= from || to < at then to else at)
  {
  }

  method Copy(buffer: array<byte>, at: nat, bytes: Bytes)
    requires at + |bytes| <= buffer.Length
    modifies buffer
    ensures buffer[..] == Spliced(old(buffer[..]), at, bytes)
  {
    var i := 0;
    while i < |bytes|
      invariant i <= |bytes|
      invariant forall j :: 0 <= j < buffer.Length ==>
        buffer[j] == if at <= j < at + i then bytes[j - at] else old(buffer[j])
    {
      buffer[at + i] := bytes[i];
      i := i + 1;
    }
    assert buffer[..] == Spliced(old(buffer[..]), at, bytes);
  }

  // ---- serializeNodePage -----------------------------------------------------------------------------------

  /** The header, the first k history nodes and the first i nodes are written. */
  ghost predicate Part(buf: Bytes, p: Page, info: Info, place: Bytes -> real, k: nat, i: nat)
    requires Encodable(p, info, |buf|, place) && k <= |p.history| && i <= |p.nodes|
  {
    && Holds(buf, 0, Header(p, info))
    && (forall j :: 0 <= j < k ==> HistoryAt(buf, p, j))
    && (forall j :: 0 <= j < i ==> Indexed(buf, p, info, place, j))
  }

  lemma HistoryStep(buf: Bytes, p: Page, info: Info, place: Bytes -> real, k: nat)
    requires Encodable(p, info, |buf|, place) && k < |p.history| && Part(buf, p, info, place, k, 0)
    ensures HeaderSize(k) + HISTORY_NODE_SIZE <= |buf|
    ensures Part(Spliced(buf, HeaderSize(k), HistoryBytes(p.history[k])), p, info, place, k + 1, 0)
  {
    hide Holds, Header, HistoryBytes, UpperBytes, Writable, Spliced;
    var h := HistoryBytes(p.history[k]);
    SplicedElsewhere(buf, HeaderSize(k), h, 0, Header(p, info));
    SplicedHere(buf, HeaderSize(k), h);
    forall j | 0 <= j < k ensures HistoryAt(Spliced(buf, HeaderSize(k), h), p, j) {
      assert HistoryAt(buf, p, j);
      SplicedElsewhere(buf, HeaderSize(k), h, HeaderSize(j), HistoryBytes(p.history[j]));
    }
  }

  /** A write between the front part and the nodes written before keeps what is there. */
  lemma PartKept(buf: Bytes, p: Page, info: Info, place: Bytes -> real, i: nat, at: nat, bytes: Bytes)
    requires Encodable(p, info, |buf|, place) && i < |p.nodes| && Part(buf, p, info, place, |p.history|, i)
    requires HeaderSize(|p.history|) + INDEX_SIZE * i <= at && at + |bytes| <= |buf| - UpperAt(p, i)
    ensures Part(Spliced(buf, at, bytes), p, info, place, |p.history|, i)
  {
    hide Holds, Header, HistoryBytes, NodeBytes, UpperBytes, Spliced, LE16;
    UpperInside(p, info, |buf|, place, i);
    var r := Spliced(buf, at, bytes);
    SplicedElsewhere(buf, at, bytes, 0, Header(p, info));
    forall j | 0 <= j < |p.history| ensures HistoryAt(r, p, j) {
      assert HistoryAt(buf, p, j);
      SplicedElsewhere(buf, at, bytes, HeaderSize(j), HistoryBytes(p.history[j]));
    }
    forall j | 0 <= j < i ensures Indexed(r, p, info, place, j) {
      NodeKept(buf, p, info, place, i, j, at, bytes);
    }
  }

  lemma NodeKept(buf: Bytes, p: Page, info: Info, place: Bytes -> real, i: nat, j: nat, at: nat, bytes: Bytes)
    requires Encodable(p, info, |buf|, place) && j < i < |p.nodes| && Indexed(buf, p, info, place, j)
    requires HeaderSize(|p.history|) + INDEX_SIZE * i <= at && at + |bytes| <= |buf| - UpperAt(p, i)
    ensures Indexed(Spliced(buf, at, bytes), p, info, place, j)
  {
    hide Holds, Header, NodeBytes, UpperBytes, Spliced, LE16;
    UpperInside(p, info, |buf|, place, j);
    UpperInside(p, info, |buf|, place, j + 1);
    UpperGrows(p, j + 1, i);
    SplicedElsewhere(buf, at, bytes, HeaderSize(|p.history|) + INDEX_SIZE * j, LE16(UpperAt(p, j + 1)));
    SplicedElsewhere(buf, at, bytes, |buf| - UpperAt(p, j + 1), NodeBytes(p.nodes[j]));
  }

  lemma UpperGrows(p: Page, i: nat, j: nat)
    requires p.NodePage? && i <= j <= |p.nodes|
    ensures UpperAt(p, i) <= UpperAt(p, j)
  {
    UpperPrefix(p.nodes[..j], i);
    assert p.nodes[..j][..i] == p.nodes[..i];
  }

  lemma NodeStep(buf: Bytes, p: Page, info: Info, place: Bytes -> real, i: nat)
    requires Encodable(p, info, |buf|, place) && i < |p.nodes| && Part(buf, p, info, place, |p.history|, i)
    ensures 0 <= |buf| - UpperAt(p, i + 1) && UpperAt(p, i + 1) == UpperAt(p, i) + p.nodes[i].Size() < 0x1_0000
    ensures HeaderSize(|p.history|) + INDEX_SIZE * (i + 1) <= |buf| - UpperAt(p, i + 1)
    ensures var r := Spliced(buf, |buf| - UpperAt(p, i + 1), NodeBytes(p.nodes[i]));
      Part(Spliced(r, HeaderSize(|p.history|) + INDEX_SIZE * i, LE16(UpperAt(p, i + 1))), p, info, place, |p.history|, i + 1)
  {
    hide Holds, Header, HistoryBytes, NodeBytes, UpperBytes, Spliced, LE16;
    UpperInside(p, info, |buf|, place, i);
    UpperInside(p, info, |buf|, place, i + 1);
    var up, nb, at := |buf| - UpperAt(p, i + 1), NodeBytes(p.nodes[i]), HeaderSize(|p.history|) + INDEX_SIZE * i;
    var r := Spliced(buf, up, nb);
    PartKept(buf, p, info, place, i, up, nb);
    SplicedHere(buf, up, nb);
    var ix := LE16(UpperAt(p, i + 1));
    var q := Spliced(r, at, ix);
    PartKept(r, p, info, place, i, at, ix);
    SplicedHere(r, at, ix);
    SplicedElsewhere(r, at, ix, up, nb);
    assert Indexed(q, p, info, place, i);
  }

  method SerializeNodePage(p: Page, info: Info, pageSize: int, ghost place: Bytes -> real) returns (buffer: array<byte>)
    requires Encodable(p, info, pageSize, place)
    ensures fresh(buffer) && buffer.Length == pageSize && Encodes(buffer[..], p, info, place)
    ensures Zeroed(buffer[..], HeaderSize(|p.history|) + p.lower, pageSize - p.upper)
  {
    hide Zeroed, Holds, Header, HistoryBytes, NodeBytes, UpperBytes, Spliced, LE16, Indexed, HistoryAt;
    buffer := new byte[pageSize](_ => 0);
    HeaderFits(p, info, pageSize, place);
    SplicedHere(buffer[..], 0, Header(p, info));
    NewIsZeroed(buffer[..], pageSize);
    SplicedZeroed(buffer[..], 0, Header(p, info), 0, pageSize);
    Copy(buffer, 0, Header(p, info));
    var offset, k := PAGE_INFO_SIZE + NODE_META_SIZE, 0;
    while k < |p.history|
      invariant 0 <= k <= |p.history| && offset == HeaderSize(k) && Part(buffer[..], p, info, place, k, 0)
      invariant Zeroed(buffer[..], offset, pageSize)
    {
      HistoryStep(buffer[..], p, info, place, k);
      SplicedZeroed(buffer[..], offset, HistoryBytes(p.history[k]), offset, pageSize);
      Copy(buffer, offset, HistoryBytes(p.history[k]));
      offset, k := offset + HISTORY_NODE_SIZE, k + 1;
    }
    var i, upperPtr := 0, pageSize;
    NoNodes(p);
    while i < |p.nodes|
      invariant 0 <= i <= |p.nodes| && upperPtr == pageSize - UpperAt(p, i)
      invariant Part(buffer[..], p, info, place, |p.history|, i) && Zeroed(buffer[..], offset + INDEX_SIZE * i, upperPtr)
    {
      NodeStep(buffer[..], p, info, place, i);
      SplicedZeroed(buffer[..], upperPtr - p.nodes[i].Size(), NodeBytes(p.nodes[i]), offset + INDEX_SIZE * i, upperPtr);
      upperPtr := upperPtr - p.nodes[i].Size();
      Copy(buffer, upperPtr, NodeBytes(p.nodes[i]));
      SplicedZeroed(buffer[..], offset + INDEX_SIZE * i, LE16(pageSize - upperPtr), offset + INDEX_SIZE * i, upperPtr);
      Copy(buffer, offset + INDEX_SIZE * i, LE16(pageSize - upperPtr));
      i := i + 1;
    }
    assert p.nodes[..i] == p.nodes;
  }

  lemma NewIsZeroed(buf: Bytes, size: int)
    requires forall j :: 0 <= j < |buf| ==> buf[j] == 0
    ensures Zeroed(buf, 0, size)
  {
  }

  lemma NoNodes(p: Page)
    requires p.NodePage?
    ensures UpperAt(p, 0) == 0
  {
  }

  lemma HeaderFits(p: Page, info: Info, pageSize: int, place: Bytes -> real)
    requires Encodable(p, info, pageSize, place)
    ensures 0 <= p.upper < 0x1_0000 && 0 <= p.lower < 0x1_0000 && |p.history| < 0x1_0000
    ensures |Header(p, info)| <= pageSize
  {
  }

  // ---- deserializeNodePage ---------------------------------------------------------------------------------

  lemma Slice(buf: Bytes, base: nat, n: nat, at: nat, m: nat)
    requires base + n <= |buf| && at + m <= n
    ensures buf[base + at..base + at + m] == buf[base..base + n][at..at + m]
  {
    var a, b := buf[base + at..base + at + m], buf[base..base + n][at..at + m];
    assert |a| == |b| == m;
    forall j | 0 <= j < m ensures a[j] == b[j] {
      assert b[j] == buf[base..base + n][at + j];
    }
  }

  /** Numbers inside a stretch of bytes that the buffer holds. */
  lemma Field32(buf: Bytes, base: nat, all: Bytes, at: nat, n: int)
    requires Holds(buf, base, all) && at + 4 <= |all| && 0 <= n < 0x1_0000_0000 && all[at..at + 4] == LE32(n)
    ensures Read32(buf, base + at) == n
  {
    hide LE32, Read32;
    Slice(buf, base, |all|, at, 4);
    ReadBack32(buf, base + at, n);
  }

  lemma Field16(buf: Bytes, base: nat, all: Bytes, at: nat, n: int)
    requires Holds(buf, base, all) && at + 2 <= |all| && 0 <= n < 0x1_0000 && all[at..at + 2] == LE16(n)
    ensures Read16(buf, base + at) == n
  {
    hide LE16, Read16;
    Slice(buf, base, |all|, at, 2);
    ReadBack16(buf, base + at, n);
  }

  lemma Stretch(buf: Bytes, base: nat, all: Bytes, at: nat, part: Bytes)
    requires Holds(buf, base, all) && at + |part| <= |all| && all[at..at + |part|] == part
    ensures buf[base + at..base + at + |part|] == part
  {
    Slice(buf, base, |all|, at, |part|);
  }

  lemma HeaderRead(buf: Bytes, p: Page, info: Info, place: Bytes -> real)
    requires Encodable(p, info, |buf|, place) && Holds(buf, 0, Header(p, info))
    ensures Read32(buf, 0) == info.checksum && Read32(buf, 4) == (if p.leaf then LEAF else BRANCH) && Read32(buf, 8) == info.number
    ensures Read16(buf, 12) == p.upper && Read16(buf, 14) == p.lower && Read32(buf, 16) == p.syncId
    ensures Read16(buf, 20) == |p.history| && Read16(buf, 22) == info.flags && Read32(buf, 24) == p.commitId
  {
    hide LE32, LE16, Read32, Read16, UpperBytes, Writable, Holds;
    var all := Header(p, info);
    assert all[12..14] == LE16(p.upper) && all[14..16] == LE16(p.lower);
    assert all[20..22] == LE16(|p.history|) && all[22..24] == LE16(info.flags);
    Field32(buf, 0, all, 0, info.checksum);
    Field32(buf, 0, all, 4, if p.leaf then LEAF else BRANCH);
    Field32(buf, 0, all, 8, info.number);
    Field16(buf, 0, all, 12, p.upper);
    Field16(buf, 0, all, 14, p.lower);
    Field32(buf, 0, all, 16, p.syncId);
    Field16(buf, 0, all, 20, |p.history|);
    Field16(buf, 0, all, 22, info.flags);
    Field32(buf, 0, all, 24, p.commitId);
  }

  function ReadHistory(buf: Bytes, at: nat): HistoryNode
    requires at + HISTORY_NODE_SIZE <= |buf|
  {
    HistoryNode(Read32(buf, at), Read32(buf, at + 4), Read32(buf, at + 8))
  }

  lemma HistoryRead(buf: Bytes, at: nat, h: HistoryNode)
    requires WritableHistory(h) && Holds(buf, at, HistoryBytes(h))
    ensures ReadHistory(buf, at) == h
  {
    hide LE32, Read32, Holds;
    var all := HistoryBytes(h);
    Field32(buf, at, all, 0, h.page);
    Field32(buf, at, all, 4, h.syncId);
    Field32(buf, at, all, 8, h.commitId);
  }

  /** A node as deserializeNodePage reads it. */
  function ReadNode(buf: Bytes, at: nat, leaf: bool, place: Bytes -> real): Node
    requires at + NODE_HEADER_SIZE <= |buf| && at + NODE_HEADER_SIZE + Read16(buf, at) <= |buf|
    requires leaf && Read16(buf, at + 2) % 2 == 0 ==> at + NODE_HEADER_SIZE + Read16(buf, at) + Read32(buf, at + 4) <= |buf|
  {
    var keySize, flags, context := Read16(buf, at), Read16(buf, at + 2), Read32(buf, at + 4);
    var from := at + NODE_HEADER_SIZE;
    var data := buf[from..from + keySize];
    Node(Key(place(data), data),
         if !leaf then Child(context)
         else if flags % 2 == OVERFLOW_FLAG then Overflow(context)
         else Inline(buf[from + keySize..from + keySize + context]))
  }

  lemma NodeRead(buf: Bytes, at: nat, leaf: bool, nd: Node, place: Bytes -> real)
    requires Writable(leaf, nd, place) && Holds(buf, at, NodeBytes(nd))
    ensures at + NODE_HEADER_SIZE <= |buf| && at + NODE_HEADER_SIZE + Read16(buf, at) <= |buf|
    ensures leaf && Read16(buf, at + 2) % 2 == 0 ==> at + NODE_HEADER_SIZE + Read16(buf, at) + Read32(buf, at + 4) <= |buf|
    ensures ReadNode(buf, at, leaf, place) == nd
  {
    hide LE32, LE16, Read32, Read16;
    var all, n := NodeBytes(nd), |nd.key.data|;
    Field16(buf, at, all, 0, n);
    Field16(buf, at, all, 2, if nd.value.Overflow? then OVERFLOW_FLAG else 0);
    Field32(buf, at, all, 4, Context(nd));
    Stretch(buf, at, all, 8, nd.key.data);
    if nd.value.Inline? {
      Stretch(buf, at, all, 8 + n, nd.value.data);
    }
  }

  /** deserializeNodePage gives back the page a buffer holds. */
  method DeserializeNodePage(buf: Bytes, place: Bytes -> real, ghost p: Page, ghost info: Info) returns (page: Page, header: Info)
    requires Encodable(p, info, |buf|, place) && Encodes(buf, p, info, place)
    ensures page == p.(collected := false) && header == info
  {
    hide Holds, Header, HistoryBytes, NodeBytes, UpperBytes, LE16, Read16, Read32, ReadNode, ReadHistory, Writable;
    HeaderRead(buf, p, info, place);
    header := Info(Read32(buf, 0), Read32(buf, 8), Read16(buf, 22));
    var leaf := Read32(buf, 4) == LEAF;
    var upper, lower, historySize := Read16(buf, 12), Read16(buf, 14), Read16(buf, 20);
    var offset, k := PAGE_INFO_SIZE + NODE_META_SIZE, 0;
    var history := [];
    while k < historySize
      invariant 0 <= k <= |p.history| && offset == HeaderSize(k) && history == p.history[..k]
    {
      assert HistoryAt(buf, p, k);
      HistoryRead(buf, offset, p.history[k]);
      history := history + [ReadHistory(buf, offset)];
      offset, k := offset + HISTORY_NODE_SIZE, k + 1;
    }
    var nodes, i := [], 0;
    while i < lower / INDEX_SIZE
      invariant 0 <= i <= |p.nodes| && nodes == p.nodes[..i]
    {
      IndexRead(buf, p, info, place, i);
      var nodePtr := |buf| - Read16(buf, offset + INDEX_SIZE * i);
      NodeRead(buf, nodePtr, leaf, p.nodes[i], place);
      nodes := nodes + [ReadNode(buf, nodePtr, leaf, place)];
      i := i + 1;
    }
    page := NodePage(leaf, nodes, upper, lower, history, Read32(buf, 16), Read32(buf, 24), false);
  }

  lemma IndexRead(buf: Bytes, p: Page, info: Info, place: Bytes -> real, i: nat)
    requires Encodable(p, info, |buf|, place) && Encodes(buf, p, info, place) && i < |p.nodes|
    ensures HeaderSize(|p.history|) + INDEX_SIZE * i + 2 <= |buf|
    ensures var at := |buf| - Read16(buf, HeaderSize(|p.history|) + INDEX_SIZE * i);
      0 <= at && Writable(p.leaf, p.nodes[i], place) && Holds(buf, at, NodeBytes(p.nodes[i]))
  {
    hide Header, HistoryBytes, NodeBytes, UpperBytes, LE16, Read16, Writable;
    assert Indexed(buf, p, info, place, i);
    UpperInside(p, info, |buf|, place, i + 1);
    Field16(buf, HeaderSize(|p.history|) + INDEX_SIZE * i, LE16(UpperAt(p, i + 1)), 0, UpperAt(p, i + 1));
  }

  /** The round trip over a page that fits. */
  method NodePageRoundTrip(p: Page, info: Info, pageSize: int, place: Bytes -> real) returns (page: Page, header: Info)
    requires Encodable(p, info, pageSize, place)
    ensures page == p.(collected := false) && header == info
  {
    var buffer := SerializeNodePage(p, info, pageSize, place);
    page, header := DeserializeNodePage(buffer[..], place, p, info);
  }

  // ---- overflow pages --------------------------------------------------------------------------------------

  ghost predicate OverflowEncodable(p: Page, info: Info, pageSize: int) {
    && p.OverflowPage? && MIN_PAGE_SIZE <= pageSize < 0x1_0000 && |p.data| <= OverflowCapacity(pageSize)
    && (p.next == INVALID_PAGE || 0 <= p.next < NO_PAGE)
    && info.checksum < 0x1_0000_0000 && info.number < 0x1_0000_0000
  }

  function NextField(next: PageNo): int {
    if next == INVALID_PAGE then NO_PAGE else next
  }

  function OverflowBytes(p: Page, info: Info, upper: int, lower: int): Bytes
    requires p.OverflowPage? && |p.data| < 0x1_0000 && 0 <= NextField(p.next) < 0x1_0000_0000
    requires info.checksum < 0x1_0000_0000 && info.number < 0x1_0000_0000 && 0 <= upper < 0x1_0000 && 0 <= lower < 0x1_0000
  {
    LE32(info.checksum) + LE32(OVERFLOW) + LE32(info.number) + LE16(upper) + LE16(lower)
    + LE16(|p.data|) + LE16(0) + LE32(NextField(p.next)) + p.data
  }

  method SerializeOverflowPage(p: Page, info: Info, pageSize: int) returns (buffer: array<byte>)
    requires OverflowEncodable(p, info, pageSize)
    ensures fresh(buffer) && buffer.Length == pageSize && Holds(buffer[..], 0, OverflowBytes(p, info, 0, |p.data|))
    ensures Zeroed(buffer[..], |OverflowBytes(p, info, 0, |p.data|)|, pageSize)
  {
    hide LE32, LE16, Spliced;
    var all := OverflowBytes(p, info, 0, |p.data|);
    buffer := new byte[pageSize](_ => 0);
    SplicedHere(buffer[..], 0, all);
    NewIsZeroed(buffer[..], pageSize);
    SplicedZeroed(buffer[..], 0, all, 0, pageSize);
    Copy(buffer, 0, all);
  }

  /** Where the fields of an overflow page are, and that it has no flags; the last of a chain names no page. */
  lemma OverflowRead(buf: Bytes, p: Page, info: Info)
    requires OverflowEncodable(p, info, |buf|) && Holds(buf, 0, OverflowBytes(p, info, 0, |p.data|))
    ensures Read32(buf, 0) == info.checksum && Read32(buf, 4) == OVERFLOW && Read32(buf, 8) == info.number
    ensures Read16(buf, 12) == 0 && Read16(buf, 14) == Read16(buf, 16) == |p.data| && Read16(buf, 18) == 0
    ensures if p.next == INVALID_PAGE then Read32(buf, 20) == 0xFFFF_FFFF else Read32(buf, 20) == p.next
  {
    hide LE32, LE16, Read32, Read16, Holds;
    var all := OverflowBytes(p, info, 0, |p.data|);
    assert all[12..14] == LE16(0) && all[14..16] == LE16(|p.data|) && all[16..18] == LE16(|p.data|) && all[18..20] == LE16(0);
    Field32(buf, 0, all, 0, info.checksum);
    Field32(buf, 0, all, 4, OVERFLOW);
    Field32(buf, 0, all, 8, info.number);
    Field16(buf, 0, all, 12, 0);
    Field16(buf, 0, all, 14, |p.data|);
    Field16(buf, 0, all, 16, |p.data|);
    Field16(buf, 0, all, 18, 0);
    Field32(buf, 0, all, 20, NextField(p.next));
  }

  method DeserializeOverflowPage(buf: Bytes, ghost p: Page, ghost info: Info) returns (page: Page)
    requires OverflowEncodable(p, info, |buf|) && Holds(buf, 0, OverflowBytes(p, info, 0, |p.data|))
    ensures page == p
  {
    hide LE32, LE16, Read32, Read16;
    ghost var all := OverflowBytes(p, info, 0, |p.data|);
    Field16(buf, 0, all, 16, |p.data|);
    Field32(buf, 0, all, 20, NextField(p.next));
    Stretch(buf, 0, all, 24, p.data);
    var keySize, next := Read16(buf, 16), Read32(buf, 20);
    page := OverflowPage(buf[24..24 + keySize], if next == NO_PAGE then INVALID_PAGE else next);
  }

  /** The data and the number of the next page come back. */
  method OverflowPageRoundTrip(p: Page, info: Info, pageSize: int) returns (page: Page)
    requires OverflowEncodable(p, info, pageSize)
    ensures page == p
  {
    var buffer := SerializeOverflowPage(p, info, pageSize);
    page := DeserializeOverflowPage(buffer[..], p, info);
  }
}

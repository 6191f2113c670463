// The pages that a commit leaves can be written as bytes and read back.
module DiskPages {
  import opened HBtreeRecords
  import opened OrderedNodes
  import opened TreeInvariant
  import opened PageAccounts
  import opened Transaction
  import opened Durability
  import opened PageCodec
  import opened HBtree

  const LIMIT32 := 0x1_0000_0000

  /** Page numbers, sync ids and revisions have not outgrown their fields. */
  ghost predicate InRange(b: Books, lim: Limits) {
    b.fileEnd <= LIMIT32 && b.lastSyncedId + 1 < LIMIT32 && b.revision < LIMIT32 && MIN_PAGE_SIZE <= lim.pageSize < 0x1_0000
  }

  /** The pages a node of the tree points to are in the file. */
  lemma NodeWritable(b: Books, t: Tree, lim: Limits, h: Health, p: PageNo, i: nat)
    requires BooksOk(b) && OnDisk(b.disk, t, b.committed, lim, h) && InRange(b, lim) && p in t.frames
    requires p in b.disk && b.disk[p].NodePage? && i < |b.disk[p].nodes|
    ensures Writable(b.disk[p].leaf, b.disk[p].nodes[i], lim.place)
  {
    hide SyncedOk, CommittedOk, WorkOk, ApartOk, Healthy, LinkOk, Sorted, Within;
    var page := b.disk[p];
    assert PageLocal(page, lim);
    assert NodeLocal(page.leaf, page.nodes[i], lim);
    LiveOnDisk(b, t);
    if t.frames[p].level == 0 {
      assert LeafOk(page, t.frames[p], t.entries, t.chains);
      assert TreeInvariant.Holds(page.nodes[i], t.entries, t.chains);
    } else {
      assert BranchOk(page, t.frames[p], t.frames);
      ChildIsPage(page, t.frames[p], t.frames, i);
    }
  }

  lemma ChildIsPage(page: Page, f: Frame, fr: Frames, i: nat)
    requires BranchOk(page, f, fr) && i < |page.nodes|
    ensures page.nodes[i].value.Child? && page.nodes[i].value.page in fr
  {
    assert LinkOk(page.nodes, i, f, fr);
  }

  lemma LiveOnDisk(b: Books, t: Tree)
    requires BooksOk(b) && t.Live() <= b.committed.live
    ensures forall q :: q in t.frames || q in t.chains ==> q in b.disk && 2 < q < b.fileEnd
  {
    hide SyncedOk, WorkOk, ApartOk, OrdersOk, SetOk;
    forall q | q in t.frames || q in t.chains ensures q in b.disk {
      assert q in b.committed.live;
    }
  }

  /** History nodes hold page numbers of the file and ids of the past. */
  lemma HistoryWritable(b: Books, t: Tree, p: PageNo, lim: Limits)
    requires BooksOk(b) && t.Live() <= b.committed.live && InRange(b, lim) && p in t.frames
    ensures p in b.disk
    ensures b.disk[p].NodePage? ==> b.disk[p].syncId < LIMIT32 && b.disk[p].commitId < LIMIT32
    ensures b.disk[p].NodePage? ==> forall k :: 0 <= k < |b.disk[p].history| ==> WritableHistory(b.disk[p].history[k])
  {
    hide SyncedOk, WorkOk, ApartOk, OrdersOk, SetOk;
    LiveOnDisk(b, t);
    assert p in b.committed.live;
    var page := b.disk[p];
    if page.NodePage? {
      assert HistoryOk(b.disk, b.committed, p, page.history);
      assert IdsOk(page, b.lastSyncedId, b.revision, b.revision, 2);
    }
  }

  /** Every node page of a committed tree whose pages all fit can be written. */
  lemma CommittedIsEncodable(b: Books, t: Tree, lim: Limits, h: Health, p: PageNo, checksum: nat)
    requires BooksOk(b) && OnDisk(b.disk, t, b.committed, lim, h) && h.fit && InRange(b, lim)
    requires p in t.frames && checksum < LIMIT32
    ensures p > 2 && p in b.disk && Encodable(b.disk[p], Info(checksum, p, 0), lim.pageSize, lim.place)
  {
    hide BooksOk, TreeOk, Writable, WritableHistory, UpperBytes, NodesLocal;
    HistoryWritable(b, t, p, lim);
    LiveOnDisk(b, t);
    assert PageLocal(b.disk[p], lim) && PageFits(b.disk[p], lim.pageSize);
    forall i | 0 <= i < |b.disk[p].nodes| ensures Writable(b.disk[p].leaf, b.disk[p].nodes[i], lim.place) {
      NodeWritable(b, t, lim, h, p, i);
    }
  }

  /** What a commit has left in the file comes back from its bytes, page by page; whether a page was new is not stored. */
  method ReadCommitted(tree: HBtree, p: PageNo, checksum: nat) returns (page: Page, header: Info)
    requires tree.Idle() && tree.committedHealth.fit && InRange(tree.Accounts(), tree.lim)
    requires p in tree.committed.frames && checksum < LIMIT32
    ensures p in tree.disk && page == tree.disk[p].(collected := false) && header == Info(checksum, p, 0)
  {
    hide BooksOk, OnDisk, InRange, Encodable;
    CommittedIsEncodable(tree.Accounts(), tree.committed, tree.lim, tree.committedHealth, p, checksum);
    page, header := NodePageRoundTrip(tree.disk[p], Info(checksum, p, 0), tree.lim.pageSize, tree.lim.place);
  }
}

// Trees on disk: what commit, sync, a crash and open leave of the committed and the synced tree.
module Durability {
  import opened HBtreeRecords
  import opened OrderedNodes
  import opened TreeInvariant
  import opened PageAccounts
  import opened Transaction
  import opened OverflowChains

  datatype Marker = Marker(root: PageNo, revision: nat, syncId: nat, size: int, residueHistory: set<PageNo>)

  /** A marker page of the file: what was written, or what a write cut short leaves. */
  datatype StoredMarker = Intact(marker: Marker) | TornMarker

  /** readSyncedMarker: the first marker, or the second if the first is not valid. */
  function ReadSyncedMarker(sync1: StoredMarker, sync2: StoredMarker): StoredMarker {
    if sync1.Intact? then sync1 else sync2
  }

  /** The file holds the tree t on pages that the version calls live. */
  ghost predicate OnDisk(disk: Pages, t: Tree, ver: Version, lim: Limits, h: Health) {
    && TreeOk(disk, t) && t.Live() <= ver.live && LocalsOk(disk, t.frames, lim) && Healthy(disk, t, {}, lim.pageSize, h)
  }

  lemma SameOnDisk(d: Pages, e: Pages, t: Tree, ver: Version, lim: Limits, h: Health)
    requires OnDisk(d, t, ver, lim, h) && Same(d, e, t.Live())
    ensures OnDisk(e, t, ver, lim, h)
  {
    hide TreeOk, PageLocal, Healthy;
    AgreeTree(d, e, t);
    SameHealth(d, e, t, {}, lim.pageSize, h);
  }

  /** A write transaction starts from the committed tree. */
  lemma BeginTxn(b: Books, t: Tree, lim: Limits, h: Health)
    requires BooksOk(b) && OnDisk(b.disk, t, b.committed, lim, h) && b.dirty == map[] && b.work == b.committed
    ensures TxnOk(b, t, {}, lim) && Healthy(b.View(), t, {}, lim.pageSize, h)
  {
    hide BooksOk, TreeOk, LocalsOk, Healthy;
    assert b.View() == b.disk;
  }

  /** Snapshot isolation: whatever a transaction did, the pages still hold the committed tree. */
  lemma CommittedStays(b: Books, t: Tree, lim: Limits, h: Health)
    requires BooksOk(b) && OnDisk(b.disk, t, b.committed, lim, h)
    ensures TreeOk(b.View(), t)
  {
    hide SyncedOk, CommittedOk, WorkOk, TreeOk, LocalsOk, Healthy;
    LiveInView(b.disk, t);
    AgreeTree(b.disk, b.View(), t);
  }

  lemma {:induction false} KeptShorter(h: seq<HistoryNode>, s: nat, revision: nat, before: nat, between: nat)
    ensures |Kept(h, s, revision, before, between)| <= |h|
  {
    if h != [] {
      var e := h[0];
      KeptShorter(h[1..], s, revision, if e.syncId <= s then before + 1 else before,
                  if e.syncId > s && e.commitId <= revision then between + 1 else between);
    }
  }

  lemma TrimmedPage(b: Books, page: Page, lim: Limits)
    requires page.NodePage?
    ensures SameContent(page, Trimmed(b, page)) && Trimmed(b, page).NodePage?
    ensures PageLocal(page, lim) ==> PageLocal(Trimmed(b, page), lim)
    ensures PageFits(page, lim.pageSize) ==> PageFits(Trimmed(b, page), lim.pageSize)
    ensures PageFull(page) ==> PageFull(Trimmed(b, page))
  {
    hide Kept, NodesLocal, UpperBytes;
    KeptShorter(page.history, b.lastSyncedId, b.revision, 0, 0);
  }

  /** commit writes the working tree to the file. */
  lemma CommitTree(b: Books, t: Tree, end: int, lim: Limits, h: Health)
    requires TxnOk(b, t, {}, lim) && Healthy(b.View(), t, {}, lim.pageSize, h)
    ensures OnDisk(Commit(b, end).disk, t, Commit(b, end).committed, lim, h)
  {
    hide BooksOk, TreeOk, PageLocal, PageFits, PageFull, Trimmed, Gathered, SameContent;
    var v, w := b.View(), Commit(b, end).disk;
    LiveInView(v, t);
    forall p | p in t.Live() ensures p in w && SameContent(v[p], w[p])
      && (p in t.frames ==> w[p] == v[p] || (v[p].NodePage? && w[p] == Trimmed(b, v[p])))
    {
      if p in b.dirty && b.dirty[p].NodePage? {
        TrimmedPage(b, b.dirty[p], lim);
      } else {
        UntrimmedPage(b, v[p]);
      }
    }
    AgreeTree(v, w, t);
    forall p | p in t.frames ensures p in w && PageLocal(w[p], lim)
      && (h.fit ==> PageFits(w[p], lim.pageSize)) && (h.full ==> PageFull(w[p]))
    {
      TrimmedPage(b, v[p], lim);
    }
  }

  lemma UntrimmedPage(b: Books, page: Page)
    ensures !page.NodePage? ==> Trimmed(b, page) == page
    ensures SameContent(page, page)
  {
  }

  /** The durable tree is not written to by commit, not even by one that is cut short. */
  lemma SyncedStays(b: Books, disk: Pages, t: Tree, lim: Limits, h: Health)
    requires BooksOk(b) && OnDisk(b.disk, t, b.synced, lim, h) && Crashed(b, disk)
    ensures OnDisk(disk, t, b.synced, lim, h) && OnDisk(Upto(disk, b.syncedSize), t, b.synced, lim, h)
  {
    hide CommittedOk, WorkOk, OrdersOk, CleanIds, TreeOk, LocalsOk, Healthy;
    LiveInView(b.disk, t);
    forall p | p in t.Live() ensures p in Upto(disk, b.syncedSize) && p in b.disk && disk[p] == b.disk[p] {
      assert p in Upto(b.disk, b.syncedSize);
    }
    SameOnDisk(b.disk, disk, t, b.synced, lim, h);
    SameOnDisk(b.disk, Upto(disk, b.syncedSize), t, b.synced, lim, h);
  }

  /** A commit that is cut short: some dirty pages are written, others may be torn. */
  ghost predicate CutShort(b: Books, done: set<PageNo>, torn: set<PageNo>, disk: Pages) {
    && done <= b.dirty.Keys && torn <= b.dirty.Keys - done
    && disk == b.disk + (map p | p in done :: Trimmed(b, b.dirty[p])) + (map p | p in torn :: Torn)
  }

  lemma CutShortIsCrashed(b: Books, done: set<PageNo>, torn: set<PageNo>, disk: Pages)
    requires BooksOk(b) && CutShort(b, done, torn, disk)
    ensures Crashed(b, disk)
  {
    hide CommittedOk, WorkOk, OrdersOk, CleanIds, Trimmed;
    forall p | p in b.synced.live ensures p in disk && p in b.disk && disk[p] == b.disk[p] {
      assert p in Upto(b.disk, b.syncedSize);
    }
  }

  lemma AllDone(b: Books, disk: Pages)
    requires CutShort(b, b.dirty.Keys, {}, disk)
    ensures disk == b.disk + Written(b)
  {
    hide Trimmed;
  }

  lemma CutShortStep(b: Books, done: set<PageNo>, disk: Pages, p: PageNo)
    requires CutShort(b, done, {}, disk) && p in b.dirty && p !in done
    ensures CutShort(b, done + {p}, {}, disk[p := Trimmed(b, b.dirty[p])])
    ensures CutShort(b, done, {p}, disk[p := Torn])
    ensures b.dirty - done - {p} == b.dirty - (done + {p})
  {
    hide Trimmed;
  }

  ghost function GatheredFrom(b: Books, done: set<PageNo>): set<PageNo>
    requires done <= b.dirty.Keys
  {
    set p, n | p in done && n in FromPage(b, b.dirty[p]) :: n
  }

  lemma GatheredStep(b: Books, done: set<PageNo>, p: PageNo)
    requires done <= b.dirty.Keys && p in b.dirty
    ensures GatheredFrom(b, done + {p}) == GatheredFrom(b, done) + FromPage(b, b.dirty[p])
  {
    hide FromPage;
    forall n | n in FromPage(b, b.dirty[p]) ensures n in GatheredFrom(b, done + {p}) {
      assert p in done + {p};
    }
  }

  lemma GatheredAll(b: Books)
    ensures GatheredFrom(b, b.dirty.Keys) == Gathered(b) && GatheredFrom(b, {}) == {}
  {
    hide FromPage;
  }

  lemma NothingDone(b: Books)
    ensures CutShort(b, {}, {}, b.disk) && GatheredFrom(b, {}) == {}
  {
    hide Trimmed, FromPage;
  }

  lemma DoneAll(b: Books, done: set<PageNo>)
    requires done <= b.dirty.Keys && b.dirty - done == map[]
    ensures done == b.dirty.Keys
  {
    forall p | p in b.dirty ensures p in done {
      assert p !in b.dirty - done;
    }
  }

  lemma SameVersion(disk: Pages, t: Tree, ver: Version, ver': Version, lim: Limits, h: Health)
    requires OnDisk(disk, t, ver, lim, h) && ver'.live == ver.live
    ensures OnDisk(disk, t, ver', lim, h)
  {
    hide TreeOk, LocalsOk, Healthy;
  }

  /** What a complete commit leaves: sound books, the working tree and the durable tree on disk. */
  lemma CommitLeaves(b: Books, end: int, t: Tree, h: Health, s: Tree, hs: Health, lim: Limits)
    requires TxnOk(b, t, {}, lim) && Healthy(b.View(), t, {}, lim.pageSize, h) && OnDisk(b.disk, s, b.synced, lim, hs)
    requires EndOk(b, end)
    ensures BooksOk(Commit(b, end))
    ensures OnDisk(b.disk + Written(b), t, AfterCommit(b), lim, h) && OnDisk(b.disk + Written(b), s, b.synced, lim, hs)
  {
    hide BooksOk, TreeOk, LocalsOk, Healthy, OnDisk, Written, Gathered, AfterCommit, EndOk;
    TxnBooks(b, t, {}, lim);
    CommitKeepsBooks(b, end);
    CommitTree(b, t, end, lim, h);
    WrittenIsCutShort(b);
    CutShortIsCrashed(b, b.dirty.Keys, {}, b.disk + Written(b));
    SyncedStays(b, b.disk + Written(b), s, lim, hs);
  }

  lemma WrittenIsCutShort(b: Books)
    ensures CutShort(b, b.dirty.Keys, {}, b.disk + Written(b))
  {
    hide Trimmed;
  }

  /** What is collectible is no part of the committed tree. */
  lemma ApartFromTree(b: Books, t: Tree, lim: Limits, h: Health)
    requires BooksOk(b) && OnDisk(b.disk, t, b.committed, lim, h)
    ensures b.collectible !! t.Live()
  {
    hide SyncedOk, WorkOk, TreeOk, LocalsOk, Healthy;
    RolesApart(b.disk, b.committed, b.collectible, b.markerResidue);
  }

  /** A sync changes nothing that the running transaction sees. */
  lemma SyncTxn(b: Books, t: Tree, lim: Limits)
    requires TxnOk(b, t, {}, lim) && SyncIsFree(b)
    ensures TxnOk(PageAccounts.Sync(b), t, {}, lim)
  {
    hide BooksOk, TreeOk, LocalsOk, Released, SyncIsFree;
    SyncKeepsBooks(b);
    SameLive(b.work, b.markerResidue);
    assert PageAccounts.Sync(b).View() == b.View();
  }

  lemma SameLive(ver: Version, s: set<PageNo>)
    ensures Released(ver, s).live == ver.live
  {
  }
}

// A sync while a transaction is running: when no page of a tree is ever handed out after it, and the run in which one is.
module SyncRuns {
  import opened HBtreeRecords
  import opened PageAccounts
  import opened PageRuns

  /** A dirty page that names a committed page in its history. The sync makes that page one of the durable tree, and lets the
      dirty page pass for one from before the sync. */
  ghost predicate NamesCommitted(b: Books, p: PageNo, n: PageNo) {
    p in b.dirty && b.dirty[p].NodePage? && n in HistoryPages(b.dirty[p].history) && n in b.committed.live
  }

  lemma NotFree(b: Books) returns (p: PageNo, n: PageNo)
    requires !SyncIsFree(b)
    ensures NamesCommitted(b, p, n)
  {
    var i;
    p, i :| p in b.dirty && b.dirty[p].NodePage? && 0 <= i < |b.dirty[p].history| && b.dirty[p].history[i].page in b.committed.live;
    n := b.dirty[p].history[i].page;
  }

  /** What is known of that page once the sync is done and the transaction committed. */
  lemma AfterBoth(b: Books, p: PageNo, n: PageNo)
    requires BooksOk(b) && NamesCommitted(b, p, n)
    ensures var d := Commit(Sync(b), b.lastPage);
      && p in d.disk && d.disk[p].NodePage? && p in d.work.live && d.dirty == map[] && d.disk[p].syncId <= d.lastSyncedId
      && (forall i :: 0 <= i < |d.disk[p].history| ==> d.disk[p].history[i].syncId <= d.lastSyncedId)
      && (n in HistoryPages(d.disk[p].history) || n in d.collectible) && n in d.synced.live
  {
    hide SyncedOk, CommittedOk, VersionOk, OrdersOk, Kept, Collected, HistoryPages, Released;
    var h, page := b.dirty[p].history, b.dirty[p];
    assert IdsOk(page, b.lastSyncedId, b.revision, b.revision + 1, 3);
    DirtyHistory(b, p);
    var c := Sync(b);
    KeptAndCollected(h, c.lastSyncedId, c.revision, 0, 0);
    if n in Collected(h, c.lastSyncedId, c.revision, 0, 0) {
      assert n in FromPage(c, c.dirty[p]);
      assert n in Gathered(c);
    }
    SyncedLive(b);
    assert p in Written(c);
  }

  lemma SyncedLive(b: Books)
    ensures Sync(b).synced.live == b.committed.live && Sync(b).work.live == b.work.live
  {
  }

  lemma DirtyHistory(b: Books, p: PageNo)
    requires BooksOk(b) && p in b.dirty && b.dirty[p].NodePage?
    ensures Distinct(b.dirty[p].history) && p in b.work.live
  {
    hide SyncedOk, CommittedOk, OrdersOk;
    assert HistoryOk(b.View(), b.work, p, b.dirty[p].history);
  }

  lemma SyncNumbers(b: Books)
    requires BooksOk(b)
    ensures var c := Sync(b); EndOk(c, c.lastPage) && forall m :: m in Commit(c, c.lastPage).collectible ==> m < c.lastPage
  {
    hide SyncedOk, CommittedOk, OrdersOk, Collected;
    NumbersBelow(b);
    var c := Sync(b);
    forall m | m in Gathered(c) ensures m < c.lastPage {
      var p :| p in c.dirty && m in FromPage(c, c.dirty[p]);
      DirtyHistory(b, p);
      KeptAndCollected(b.dirty[p].history, c.lastSyncedId, c.revision, 0, 0);
      var i :| 0 <= i < |b.dirty[p].history| && b.dirty[p].history[i].page == m;
      assert HistoryOk(b.View(), b.work, p, b.dirty[p].history);
    }
  }

  /** The run: the transaction is committed, the page touched once more and committed. */
  lemma CommittedIsTaken(b: Books, p: PageNo, n: PageNo)
    requires BooksOk(b) && NamesCommitted(b, p, n)
    ensures Unsafe(Sync(b))
  {
    hide Unsafe, BooksOk, Collected, HistoryPages, Reroled, Commit, Sync, NamesCommitted;
    var c := Sync(b);
    var d := Commit(c, c.lastPage);
    SyncNumbers(b);
    SameNumbers(b);
    AfterBoth(b, p, n);
    if n in d.collectible {
      CollectibleIsTaken(d, n);
    } else {
      TouchedAgain(d, p, n);
    }
    UnsafeBefore(c, DoCommit(c.lastPage));
  }

  lemma SameNumbers(b: Books)
    requires BooksOk(b)
    ensures Sync(b).lastPage == b.lastPage
    ensures var d := Commit(Sync(b), b.lastPage); d.lastPage == b.lastPage == d.fileEnd
  {
  }

  lemma CollectibleIsTaken(d: Books, n: PageNo)
    requires n in d.collectible && n in d.synced.live
    ensures Unsafe(d)
  {
    UnsafeNow(d, n);
  }

  lemma TouchedAgain(d: Books, p: PageNo, n: PageNo)
    requires p in d.disk && d.disk[p].NodePage? && p in d.work.live && d.dirty == map[] && d.disk[p].syncId <= d.lastSyncedId
    requires forall i :: 0 <= i < |d.disk[p].history| ==> d.disk[p].history[i].syncId <= d.lastSyncedId
    requires n in HistoryPages(d.disk[p].history) && n in d.synced.live && d.fileEnd <= d.lastPage
    requires forall m :: m in d.collectible ==> m < d.lastPage
    ensures Unsafe(d)
  {
    hide Unsafe, Collected, HistoryPages, Reroled, Commit;
    var m := NextNumber(d);
    assert d.View() == d.disk;
    var e := Touch(d, p, m, true);
    TouchedHistory(d, p, m, n);
    GatheredAgain(e, m, n);
    SyncedStay(e);
    UnsafeNow(Commit(e, e.lastPage), n);
    UnsafeBefore(e, DoCommit(e.lastPage));
    UnsafeBefore(d, DoTouch(p, m, true));
  }

  lemma SyncedStay(b: Books)
    ensures Commit(b, b.lastPage).synced == b.synced
  {
  }

  /** After a sync, also one during a transaction, no run hands out a page of a tree, exactly when nothing was committed since
      the last sync or no dirty page names a committed page in its history. */
  lemma SyncIsSafeIff(b: Books)
    requires BooksOk(b)
    ensures b.revision == b.syncedRevision || SyncIsFree(b) <==> !Unsafe(SyncOnce(b))
  {
    hide BooksOk, Unsafe, Sync, SyncIsFree, NamesCommitted;
    if b.revision == b.syncedRevision {
      SoundIsSafe(b);
    } else if SyncIsFree(b) {
      SyncKeepsBooks(b);
      SoundIsSafe(SyncOnce(b));
    } else {
      var p, n := NotFree(b);
      CommittedIsTaken(b, p, n);
    }
  }

  // ---- the shortest such run ---------------------------------------------------------------------------------

  function Leaf(): Page {
    NodePage(true, [Node(Key(0.5, [1]), Inline([]))], 9, 2, [], 1, 1, false)
  }

  /** A leaf is committed, and changed by a transaction that is running. */
  function Changing(): Books {
    Touch(Commit(NewPage(NewBooks(), 3, Leaf()), 4), 3, 4, true)
  }

  lemma ChangingRun()
    ensures Reaches(NewBooks(), Changing()) && NewFile(NewBooks())
    ensures var b := Changing();
      && b.dirty == map[4 := Leaf().(history := [HistoryNode(3, 1, 1)], commitId := 2)] && b.committed.live == {3} && b.work.live == {4}
      && b.collectible == {} && b.markerResidue == {} && b.disk == map[3 := Leaf()]
      && b.fileEnd == 4 && b.lastPage == 5 && b.lastSyncedId == 0 && b.revision == 1 && b.syncedRevision == 0
  {
    hide Reaches;
    var b0 := NewBooks();
    NoStep(b0);
    StepLast(b0, b0, DoNew(3, Leaf()));
    var b1 := NewPage(b0, 3, Leaf());
    StepLast(b0, b1, DoCommit(4));
    assert Gathered(b1) == {} && Written(b1) == map[3 := Leaf()];
    var b2 := Commit(b1, 4);
    assert b2.View() == b2.disk;
    StepLast(b0, b2, DoTouch(3, 4, true));
    assert [HistoryNode(3, 1, 1)] + [] == [HistoryNode(3, 1, 1)];
  }

  lemma OneIsKept(e: HistoryNode, revision: nat)
    requires e.syncId == 1
    ensures Kept([e], 1, revision, 0, 0) == [e] && Collected([e], 1, revision, 0, 0) == {}
  {
    assert [e][1..] == [];
    assert Kept([e], 1, revision, 0, 0) == [e] + Kept([], 1, revision, 1, 0) && Collected([e], 1, revision, 0, 0) == Collected([], 1, revision, 1, 0);
  }

  /** The sync and the commit. */
  function Changed(): Books {
    Commit(SyncOnce(Changing()), 5)
  }

  lemma ChangedRun()
    ensures Reaches(SyncOnce(Changing()), Changed())
    ensures var d := Changed();
      && d.disk == map[3 := Leaf(), 4 := Leaf().(history := [HistoryNode(3, 1, 1)], commitId := 2)] && d.dirty == map[]
      && d.synced.live == {3} && d.work.live == {4} && d.collectible == {} && d.fileEnd == d.lastPage == 5 && d.lastSyncedId == 1
  {
    hide Reaches, Changing, Kept, Collected;
    ChangingRun();
    var c, h := SyncOnce(Changing()), [HistoryNode(3, 1, 1)];
    NoStep(c);
    OneIsKept(h[0], 1);
    StepLast(c, c, DoCommit(5));
    assert Gathered(c) == {};
    assert Written(c) == map[4 := c.dirty[4]];
  }

  /** A sync in it, its commit, and one more change: the page of the durable tree is collectible. */
  lemma SyncInTransactionIsUnsafe()
    ensures var b := Changing();
      var f := Commit(Touch(Changed(), 4, 5, true), 6);
      && Reaches(NewBooks(), b) && BooksOk(b) && !SyncIsFree(b)
      && Reaches(SyncOnce(b), Changed()) && Reaches(SyncOnce(b), f) && f.synced.live == {3} && MayTake(f, 3)
  {
    hide Reaches, BooksOk, Changing, Changed, Kept, Collected, Reroled;
    var b, d := Changing(), Changed();
    ChangingRun();
    NewFileIsOk(NewBooks());
    ReachKeepsBooks(NewBooks(), b);
    assert b.dirty[4].history[0].page == 3;
    ChangedRun();
    assert d.View() == d.disk;
    StepLast(SyncOnce(b), d, DoTouch(4, 5, true));
    var e := Touch(d, 4, 5, true);
    StepLast(SyncOnce(b), e, DoCommit(6));
    assert d.disk[4].history[0].page == 3;
    TouchedHistory(d, 4, 5, 3);
    assert 3 in FromPage(e, e.dirty[5]);
    assert 3 in Gathered(e);
  }
}

// What comes after an abort: with a residue that is free no page of a tree is ever handed out; with any other there is a
// run that hands one out.
module AbortedRuns {
  import opened HBtreeRecords
  import opened OrderedNodes
  import opened PageAccounts
  import opened PageRuns
  import opened SplitCorner

  // ---- an empty commit and a sync ----------------------------------------------------------------------------

  /** The books after a commit of nothing and a sync. */
  function Settle(b: Books): Books {
    Sync(Commit(b, b.fileEnd))
  }

  lemma UnsafeSettled(b: Books)
    requires b.dirty == map[] && b.work == b.committed && b.fileEnd <= b.lastPage && b.syncedRevision <= b.revision && Unsafe(Settle(b))
    ensures Unsafe(b)
  {
    hide Unsafe, Commit, Sync;
    var c := Commit(b, b.fileEnd);
    CommitOfNothing(b);
    NothingDirty(c);
    UnsafeBefore(c, DoSync);
    UnsafeBefore(b, DoCommit(b.fileEnd));
  }

  lemma CommitOfNothing(b: Books)
    requires b.dirty == map[]
    ensures var c := Commit(b, b.fileEnd);
      && c.dirty == map[] && c.work == c.committed && c.disk == b.disk && c.committed.live == b.work.live
      && c.collectible == b.collectible && c.markerResidue == b.residue
      && c.fileEnd == b.fileEnd && c.lastPage == b.lastPage && c.lastSyncedId == b.lastSyncedId
      && c.revision == b.revision + 1 && c.syncedRevision == b.syncedRevision
  {
    assert Written(b) == map[] && Gathered(b) == {};
  }

  /** After both, the residue is collectible, and the three trees are one. */
  lemma Settled(b: Books)
    requires b.dirty == map[]
    ensures var c := Settle(b);
      && c.disk == b.disk && c.dirty == map[] && c.collectible == c.syncedList == b.collectible + b.residue
      && c.work == c.committed == c.synced && c.work.live == b.work.live
      && c.fileEnd == c.syncedSize == b.fileEnd && c.lastPage == b.lastPage && c.lastSyncedId == b.lastSyncedId + 1
  {
    CommitOfNothing(b);
  }

  // ---- the three ways to go wrong ----------------------------------------------------------------------------

  /** A residue page of the committed tree: it becomes collectible while it is a page of the durable tree. */
  lemma LiveResidue(b: Books, n: PageNo)
    requires BooksOk(b) && n in b.residue && n in b.committed.live
    ensures Unsafe(Abort(b, AbortedRole(b)))
  {
    hide Unsafe, AbortedRole, Commit, Sync;
    var a := Abort(b, AbortedRole(b));
    UnsafeAbort(b, AbortedRole(b), n);
    UnsafeNow(Settle(a), n);
    AbortedEnds(b);
    UnsafeSettled(a);
  }

  lemma AbortedEnds(b: Books)
    requires BooksOk(b)
    ensures b.fileEnd <= b.lastPage && b.syncedRevision <= b.revision
  {
  }

  /** A residue page that is not in the file: after a crash it is collectible although it is beyond the end of the file, so
      that it is handed out once as collectible and once when the file has grown. */
  lemma ResidueBeyond(b: Books, n: PageNo)
    requires BooksOk(b) && n in b.residue && n !in b.disk
    ensures Unsafe(Abort(b, AbortedRole(b)))
  {
    hide Unsafe, AbortedRole, Settle;
    var a := Abort(b, AbortedRole(b));
    var c := Settle(a);
    Settled(a);
    ResidueIsWritten(b, n);
    CommittedInFile(b);
    var d := Reopen(c, c.disk);
    TwiceHandedOut(d, n);
    UnsafeBefore(c, DoCrash(c.disk));
    UnsafeSettled(a);
  }

  lemma ResidueIsWritten(b: Books, n: PageNo)
    requires BooksOk(b) && n in b.residue && n !in b.disk
    ensures b.fileEnd <= n && b.fileEnd <= b.lastPage && b.syncedRevision <= b.revision
  {
    assert n in b.View();
  }

  lemma CommittedInFile(b: Books)
    requires BooksOk(b)
    ensures b.committed.live <= b.disk.Keys && forall p :: p in b.disk ==> p > 2
  {
    hide SyncedOk, WorkOk, SetOk;
    assert forall p :: p in b.committed.live ==> p in b.disk;
  }

  /** From books where the next number is not above n, new pages are taken until n is next. */
  lemma {:induction false} TwiceHandedOut(b: Books, n: PageNo)
    requires (n in b.collectible || n in b.work.live) && b.lastPage <= n
    ensures Unsafe(b)
    decreases |b.collectible|, n - b.lastPage
  {
    hide Unsafe;
    var page := OverflowPage([], INVALID_PAGE);
    if b.collectible != {} {
      var q := NextNumber(b);
      TwiceHandedOut(NewPage(b, q, page), n);
      UnsafeBefore(b, DoNew(q, page));
    } else if b.lastPage == n {
      UnsafeNow(b, n);
    } else {
      TwiceHandedOut(NewPage(b, b.lastPage, page), n);
      UnsafeBefore(b, DoNew(b.lastPage, page));
    }
  }

  /** A residue page in the history of a committed page: it is handed out, and collected once more from the history. */
  lemma OldResidue(b: Books, n: PageNo)
    requires BooksOk(b) && n in b.residue && n in Superseded(b.disk, b.committed)
    ensures Unsafe(Abort(b, AbortedRole(b)))
  {
    hide Unsafe, AbortedRole, Settle, BooksOk, Superseded;
    var p := HistoryOwner(b, n);
    var a := Abort(b, AbortedRole(b));
    var c := Settle(a);
    Settled(a);
    NumbersBelow(b);
    CollectedAgain(c, p, n);
    UnsafeSettled(a);
  }

  /** The page whose history has n. */
  lemma HistoryOwner(b: Books, n: PageNo) returns (p: PageNo)
    requires BooksOk(b) && n in Superseded(b.disk, b.committed)
    ensures p in b.committed.live && p in b.disk && b.disk[p].NodePage? && p != n && n in b.disk
    ensures n in HistoryPages(b.disk[p].history) && b.disk[p].syncId <= b.lastSyncedId + 1
    ensures forall i :: 0 <= i < |b.disk[p].history| ==> b.disk[p].history[i].syncId <= b.lastSyncedId + 1
  {
    hide SyncedOk, WorkOk;
    var i;
    p, i :| p in b.committed.live && p in b.disk && b.disk[p].NodePage? && 0 <= i < |b.disk[p].history| && b.disk[p].history[i].page == n;
    assert HistoryOk(b.disk, b.committed, p, b.disk[p].history);
    assert HasRole(b.committed, p, Live) && HasRole(b.committed, b.disk[p].history[i].page, Old(p));
    assert IdsOk(b.disk[p], b.lastSyncedId, b.revision, b.revision, 2);
  }

  /** With an old version of page p collectible, page p is touched after that version has become a page of the tree. */
  lemma CollectedAgain(c: Books, p: PageNo, n: PageNo)
    requires c.dirty == map[] && n in c.collectible && p != n && p in c.work.live && p in c.disk && c.disk[p].NodePage?
    requires c.fileEnd <= c.lastPage && forall m :: m in c.collectible ==> m < c.lastPage
    requires n in HistoryPages(c.disk[p].history) && c.disk[p].syncId <= c.lastSyncedId
    requires forall i :: 0 <= i < |c.disk[p].history| ==> c.disk[p].history[i].syncId <= c.lastSyncedId
    ensures Unsafe(c)
  {
    hide Unsafe, Collected, HistoryPages, Reroled, Commit;
    var page := OverflowPage([], INVALID_PAGE);
    var c1 := NewPage(c, n, page);
    var m := NextNumber(c1);
    var c2 := Touch(c1, p, m, true);
    var c3 := Commit(c2, c2.lastPage);
    NextIsApart(c, c1, n, m);
    TouchedHistory(c1, p, m, n);
    GatheredAgain(c2, m, n);
    UnsafeNow(c3, n);
    UnsafeBefore(c2, DoCommit(c2.lastPage));
    UnsafeBefore(c1, DoTouch(p, m, true));
    UnsafeBefore(c, DoNew(n, page));
  }

  lemma NextIsApart(c: Books, c1: Books, n: PageNo, m: PageNo)
    requires n in c.collectible && (forall m :: m in c.collectible ==> m < c.lastPage) && MayTake(c1, m)
    requires c1.collectible == c.collectible - {n} && c1.lastPage == c.lastPage
    ensures m != n && m <= c1.lastPage && (m == c1.lastPage ==> c1.collectible == {})
  {
  }

  // ---- when an abort is safe ---------------------------------------------------------------------------------

  /** What a residue that is not free has. */
  lemma NotFree(b: Books) returns (n: PageNo)
    requires !ResidueIsFree(b)
    ensures n in b.residue && (n !in b.disk || n in b.committed.live || n in Superseded(b.disk, b.committed))
  {
    hide Superseded;
    if forall n :: n in b.residue ==> n in b.disk && n !in b.committed.live && n !in Superseded(b.disk, b.committed) {
      assert false;
    }
    n :| n in b.residue && (n !in b.disk || n in b.committed.live || n in Superseded(b.disk, b.committed));
  }

  /** After an abort no run hands out a page of a tree, exactly when the residue is free of the committed tree and its
      histories and all in the file. */
  lemma AbortIsSafeIff(b: Books)
    requires BooksOk(b)
    ensures ResidueIsFree(b) <==> !Unsafe(Abort(b, AbortedRole(b)))
  {
    hide BooksOk, Unsafe, AbortedRole, Abort, Superseded, ResidueIsFree;
    if ResidueIsFree(b) {
      AbortKeepsBooks(b);
      SoundIsSafe(Abort(b, AbortedRole(b)));
    } else {
      var n := NotFree(b);
      if n !in b.disk {
        ResidueBeyond(b, n);
      } else if n in b.committed.live {
        LiveResidue(b, n);
      } else {
        OldResidue(b, n);
      }
    }
  }

  // ---- a transaction that cannot be aborted ------------------------------------------------------------------

  /** The leaf that 289 puts make has room for one history node and not for two. */
  function Begun(): Books {
    Edit(NewPage(NewBooks(), 3, NodePage(true, [], 0, 0, [], 1, 1, false)), 3, CornerPage())
  }

  function OnceTouched(): Books {
    Touch(Commit(Begun(), 4), 3, 4, true)
  }

  function TwiceTouched(): Books {
    Touch(Commit(OnceTouched(), 5), 4, 5, false)
  }

  lemma FirstCommit()
    ensures Reaches(NewBooks(), Commit(Begun(), 4)) && NewFile(NewBooks())
    ensures var c := Commit(Begun(), 4);
      && c.disk == map[3 := CornerPage()] && c.dirty == map[] && c.collectible == {} && c.residue == {}
      && c.lastPage == c.fileEnd == 4 && c.lastSyncedId == 0 && c.revision == 1 && c.work == c.committed && c.work.live == {3}
  {
    hide Reaches, Small, Rank;
    var b0, blank := NewBooks(), NodePage(true, [], 0, 0, [], 1, 1, false);
    NoStep(b0);
    StepLast(b0, b0, DoNew(3, blank));
    StepLast(b0, NewPage(b0, 3, blank), DoEdit(3, CornerPage()));
    StepLast(b0, Begun(), DoCommit(4));
    assert Gathered(Begun()) == {};
    assert Written(Begun()) == map[3 := CornerPage()];
  }

  lemma SecondCommit()
    ensures Reaches(NewBooks(), Commit(OnceTouched(), 5))
    ensures var c := Commit(OnceTouched(), 5);
      && c.disk == map[3 := CornerPage(), 4 := CornerPage().(history := [HistoryNode(3, 1, 1)], syncId := 1, commitId := 2)]
      && c.dirty == map[] && c.collectible == {} && c.residue == {}
      && c.lastPage == c.fileEnd == 5 && c.work == c.committed && c.work.live == {4}
  {
    hide Reaches, Small, Rank, Begun;
    var b := Commit(Begun(), 4);
    FirstCommit();
    var h := [HistoryNode(3, 1, 1)];
    assert b.View() == b.disk && b.View()[3] == CornerPage() && h + [] == h;
    var c := OnceTouched();
    assert c.dirty == map[4 := CornerPage().(history := h, syncId := 1, commitId := 2)];
    assert h[1..] == [];
    assert Kept(h, 0, 1, 0, 0) == [h[0]] + Kept([], 0, 1, 0, 1) && Collected(h, 0, 1, 0, 0) == Collected([], 0, 1, 0, 1);
    assert Gathered(c) == {};
    StepLast(NewBooks(), b, DoTouch(3, 4, true));
    StepLast(NewBooks(), c, DoCommit(5));
  }

  /** A new file comes to books that cannot be aborted: a leaf is written and committed, changed and committed, and when it is
      changed once more it has no room left for its history. */
  lemma AbortedTouchIsUnsafe()
    ensures var b := TwiceTouched();
      && NewFile(NewBooks()) && Reaches(NewBooks(), b) && BooksOk(b) && b.residue == {3, 4} && b.committed.live == {4}
      && SpaceLeft(MIN_PAGE_SIZE, CornerPage()) >= HISTORY_NODE_SIZE
      && SpaceLeft(MIN_PAGE_SIZE, Commit(OnceTouched(), 5).disk[4]) < HISTORY_NODE_SIZE
      && Unsafe(Abort(b, AbortedRole(b)))
  {
    hide Reaches, Small, Rank, OnceTouched, BooksOk, Unsafe, Superseded;
    var c, b := Commit(OnceTouched(), 5), TwiceTouched();
    FirstCommit();
    SecondCommit();
    assert c.View() == c.disk;
    StepLast(NewBooks(), c, DoTouch(4, 5, false));
    NewFileIsOk(NewBooks());
    ReachKeepsBooks(NewBooks(), b);
    assert c.disk[4].history[0].page == 3 && HistoryPages(c.disk[4].history) == {3};
    AbortIsSafeIff(b);
    assert 4 in b.residue && 4 in b.committed.live;
  }
}

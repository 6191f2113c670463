// No page number is forgotten: each is live, superseded, residue or collectible, or it was lost in one of two ways.
module PageConservation {
  import opened HBtreeRecords
  import opened PageAccounts

  /** The page numbers that the books still know of. */
  ghost function Known(b: Books): set<PageNo> {
    b.work.live + Superseded(b.View(), b.work) + b.residue + b.collectible
  }

  ghost predicate IsLost(b: Books, n: PageNo) {
    3 <= n < b.lastPage && n !in Known(b)
  }

  /** What a step loses: the number of a page that leaves the tree in the transaction that extended the file for it, and what a
      running transaction had added to the residue when the file is synced. */
  ghost function Loses(b: Books, step: Step): set<PageNo>
    requires Enabled(b, step)
  {
    match step
    case DoRemove(p) => if b.dirty[p].collected then {} else {p}
    case DoSync => if b.revision == b.syncedRevision then {} else b.residue - b.markerResidue
    case _ => {}
  }

  /** Every other number stays known, through touches, removals, commits and syncs, until an abort or a crash. */
  lemma StepConserves(b: Books, step: Step, n: PageNo)
    requires BooksOk(b) && Enabled(b, step) && !step.DoAbort? && !step.DoCrash?
    ensures IsLost(Apply(b, step), n) <==> IsLost(b, n) || n in Loses(b, step)
  {
    match step
    case DoNew(m, page) => NewConserves(b, m, page);
    case DoEdit(p, page) => EditConserves(b, p, page);
    case DoTouch(p, m, fits) => TouchConserves(b, p, m, fits);
    case DoRemove(p) => RemoveConserves(b, p);
    case DoFree(s) => FreeConserves(b, s);
    case DoCommit(end) => CommitConserves(b, end);
    case DoSync => SyncConserves(b);
  }

  ghost predicate LostAt(states: seq<Books>, steps: seq<Step>, j: nat, n: PageNo)
    requires Run(states, steps)
  {
    j < |steps| && n in Loses(states[j], steps[j])
  }

  /** Over every run without aborts and crashes a page number is lost exactly if it was at the start or one of the steps lost it. */
  lemma {:induction false} RunConserves(states: seq<Books>, steps: seq<Step>, i: nat, n: PageNo)
    requires Run(states, steps) && BooksOk(states[0]) && i < |states|
    requires forall j :: 0 <= j < i ==> !steps[j].DoAbort? && !steps[j].DoCrash?
    ensures IsLost(states[i], n) <==> IsLost(states[0], n) || exists j: nat :: j < i && LostAt(states, steps, j, n)
  {
    hide BooksOk, IsLost, Enabled, Apply, Loses;
    if i > 0 {
      RunConserves(states, steps, i - 1, n);
      RunIsSafe(states, steps, i - 1);
      StepConserves(states[i - 1], steps[i - 1], n);
      assert n in Loses(states[i - 1], steps[i - 1]) <==> LostAt(states, steps, i - 1, n);
    }
  }

  /** Superseded by page p. */
  ghost predicate NamedBy(pages: Pages, ver: Version, p: PageNo, n: PageNo) {
    p in ver.live && p in pages && pages[p].NodePage? && n in HistoryPages(pages[p].history)
  }

  lemma SupersededIs(pages: Pages, ver: Version)
    ensures forall n :: n in Superseded(pages, ver) <==> exists p :: NamedBy(pages, ver, p, n)
  {
    forall n | n in Superseded(pages, ver) ensures exists p :: NamedBy(pages, ver, p, n) {
      var p, i :| p in ver.live && p in pages && pages[p].NodePage? && 0 <= i < |pages[p].history| && pages[p].history[i].page == n;
      assert NamedBy(pages, ver, p, n);
    }
  }

  lemma NewConserves(b: Books, m: PageNo, page: Page)
    requires BooksOk(b) && MayTake(b, m) && Blank(b, m, page)
    ensures Known(NewPage(b, m, page)) == Known(b) + {m}
    ensures forall n :: IsLost(NewPage(b, m, page), n) <==> IsLost(b, n)
  {
    hide BooksOk;
    var c := NewPage(b, m, page);
    NewPageIsUnreachable(b, m);
    SupersededIs(b.View(), b.work);
    SupersededIs(c.View(), c.work);
    forall n ensures n in Superseded(b.View(), b.work) <==> n in Superseded(c.View(), c.work) {
      if p :| NamedBy(b.View(), b.work, p, n) {
        assert NamedBy(c.View(), c.work, p, n);
      }
      if p :| NamedBy(c.View(), c.work, p, n) {
        assert p != m ==> NamedBy(b.View(), b.work, p, n);
      }
    }
  }

  lemma EditConserves(b: Books, p: PageNo, page: Page)
    requires BooksOk(b) && Enabled(b, DoEdit(p, page))
    ensures Known(Edit(b, p, page)) == Known(b)
  {
    hide BooksOk;
    var c := Edit(b, p, page);
    SupersededIs(b.View(), b.work);
    SupersededIs(c.View(), c.work);
    forall n ensures n in Superseded(b.View(), b.work) <==> n in Superseded(c.View(), c.work) {
      if q :| NamedBy(b.View(), b.work, q, n) {
        assert NamedBy(c.View(), c.work, q, n);
      }
      if q :| NamedBy(c.View(), c.work, q, n) {
        assert NamedBy(b.View(), b.work, q, n);
      }
    }
  }

  /** The touched page joins the history of its copy or, with its own history, the residue. */
  lemma TouchConserves(b: Books, p: PageNo, m: PageNo, fits: bool)
    requires BooksOk(b) && Enabled(b, DoTouch(p, m, fits))
    ensures Known(Touch(b, p, m, fits)) == Known(b) + {m}
    ensures forall n :: IsLost(Touch(b, p, m, fits), n) <==> IsLost(b, n)
  {
    hide BooksOk, HistoryPages, Superseded, Reroled;
    var c := Touch(b, p, m, fits);
    var was := b.View()[p];
    NewPageIsUnreachable(b, m);
    SupersededIs(b.View(), b.work);
    SupersededIs(c.View(), c.work);
    TouchedNames(p, was);
    forall n | n in Superseded(b.View(), b.work) ensures n in Known(c) {
      var q :| NamedBy(b.View(), b.work, q, n);
      assert NamedBy(c.View(), c.work, if q == p then m else q, n) || n in c.residue;
    }
    forall n | n in Superseded(c.View(), c.work) ensures n in Known(b) {
      var q :| NamedBy(c.View(), c.work, q, n);
      assert q != m ==> NamedBy(b.View(), b.work, q, n);
      assert q == m && n != p ==> NamedBy(b.View(), b.work, p, n);
    }
    assert forall n :: n in HistoryPages(was.history) ==> NamedBy(b.View(), b.work, p, n);
    assert NamedBy(c.View(), c.work, m, p) || p in c.residue;
    forall n ensures n in Known(c) <==> n in Known(b) || n == m {
    }
  }

  lemma TouchedNames(p: PageNo, was: Page)
    requires was.NodePage?
    ensures HistoryPages([HistoryNode(p, was.syncId, was.commitId)] + was.history) == {p} + HistoryPages(was.history)
    ensures HistoryPages([]) == {}
  {
    var h := [HistoryNode(p, was.syncId, was.commitId)] + was.history;
    PagesCons(h);
    assert h[1..] == was.history;
  }

  lemma RemoveConserves(b: Books, p: PageNo)
    requires BooksOk(b) && p in b.dirty && b.dirty[p].NodePage?
    ensures var lost := if b.dirty[p].collected then {} else {p};
      Known(RemoveFromTree(b, p)) == Known(b) - lost && lost <= Known(b) && forall n :: n in lost ==> 3 <= n < b.lastPage
  {
    hide SyncedOk, CommittedOk, HistoryPages, Reroled, Superseded;
    var c := RemoveFromTree(b, p);
    RolesApart(b.View(), b.work, b.collectible, b.residue);
    SupersededIs(b.View(), b.work);
    SupersededIs(c.View(), c.work);
    forall n | n in Superseded(b.View(), b.work) ensures n in Known(c) {
      var q :| NamedBy(b.View(), b.work, q, n);
      assert if q == p then n in c.residue else NamedBy(c.View(), c.work, q, n);
    }
    forall n | n in Superseded(c.View(), c.work) ensures n in Superseded(b.View(), b.work) {
      var q :| NamedBy(c.View(), c.work, q, n);
      assert NamedBy(b.View(), b.work, q, n);
    }
    assert b.View()[p] == b.dirty[p] && p in b.work.live;
    assert forall n :: n in HistoryPages(b.dirty[p].history) ==> NamedBy(b.View(), b.work, p, n);
    forall n ensures n in Known(c) <==> n in Known(b) && (n == p ==> b.dirty[p].collected) {
    }
  }

  lemma FreeConserves(b: Books, s: set<PageNo>)
    requires BooksOk(b) && Enabled(b, DoFree(s))
    ensures Known(FreeOverflow(b, s)) == Known(b)
  {
    hide BooksOk, HistoryPages, Superseded;
    var c := FreeOverflow(b, s);
    SupersededIs(b.View(), b.work);
    SupersededIs(c.View(), c.work);
    forall n ensures n in Superseded(b.View(), b.work) <==> n in Superseded(c.View(), c.work) {
      if q :| NamedBy(b.View(), b.work, q, n) {
        assert NamedBy(c.View(), c.work, q, n);
      }
      if q :| NamedBy(c.View(), c.work, q, n) {
        assert NamedBy(b.View(), b.work, q, n);
      }
    }
  }

  /** What commit takes out of the histories becomes collectible. */
  lemma CommitConserves(b: Books, end: int)
    requires BooksOk(b) && EndOk(b, end)
    ensures Known(Commit(b, end)) == Known(b)
  {
    hide SyncedOk, CommittedOk, WorkOk, HistoryPages, Superseded, Kept, Collected;
    var c := Commit(b, end);
    SupersededIs(b.View(), b.work);
    SupersededIs(c.View(), c.work);
    forall n | n in Superseded(b.View(), b.work) ensures n in Known(c) {
      var q :| NamedBy(b.View(), b.work, q, n);
      KeptOrGathered(b, q);
      assert n in Gathered(b) || NamedBy(c.View(), c.work, q, n);
    }
    forall n | n in Superseded(c.View(), c.work) ensures n in Known(b) {
      var q :| NamedBy(c.View(), c.work, q, n);
      KeptOrGathered(b, q);
      assert NamedBy(b.View(), b.work, q, n);
    }
    forall n | n in Gathered(b) ensures n in Known(b) {
      var q :| q in b.dirty && n in FromPage(b, b.dirty[q]);
      KeptOrGathered(b, q);
      assert NamedBy(b.View(), b.work, q, n);
    }
  }

  lemma KeptOrGathered(b: Books, q: PageNo)
    requires BooksOk(b)
    ensures q in b.dirty && b.dirty[q].NodePage? ==>
      && q in b.work.live
      && HistoryPages(Trimmed(b, b.dirty[q]).history) + FromPage(b, b.dirty[q]) == HistoryPages(b.dirty[q].history)
      && forall n :: n in FromPage(b, b.dirty[q]) ==> n in Gathered(b)
  {
    hide SyncedOk, CommittedOk, OrdersOk, DirtyIds, Kept, Collected, HistoryPages;
    if q in b.dirty && b.dirty[q].NodePage? {
      assert b.View()[q] == b.dirty[q];
      assert HistoryOk(b.View(), b.work, q, b.dirty[q].history);
      KeptAndCollected(b.dirty[q].history, b.lastSyncedId, b.revision, 0, 0);
    }
  }

  lemma SyncConserves(b: Books)
    requires BooksOk(b)
    ensures Known(Sync(b)) == Known(b) - (b.residue - b.markerResidue)
    ensures forall n :: n in b.residue ==> 3 <= n < b.lastPage
    ensures b.residue <= Known(b)
  {
    hide SyncedOk, CommittedOk, HistoryPages, OrdersOk, DirtyIds;
    RolesApart(b.View(), b.work, b.collectible, b.residue);
    assert Sync(b).View() == b.View();
    forall n | n in b.residue ensures 3 <= n < b.lastPage {
      assert n in b.View();
    }
  }
}

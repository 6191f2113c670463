// Runs of the steps on the books of page numbers, and what may go wrong at the end of one.
module PageRuns {
  import opened HBtreeRecords
  import opened PageAccounts

  /** Some run leads from a to b. */
  ghost predicate Reaches(a: Books, b: Books) {
    exists states, steps :: Run(states, steps) && states[0] == a && states[|steps|] == b
  }

  /** newPage may hand out a page of a tree: the durable one, the last committed one or the one being written. */
  ghost predicate HandsOutLive(b: Books) {
    exists n :: MayTake(b, n) && (n in b.synced.live || n in b.committed.live || n in b.work.live)
  }

  ghost predicate Unsafe(b: Books) {
    exists c :: Reaches(b, c) && HandsOutLive(c)
  }

  // ---- runs --------------------------------------------------------------------------------------------------

  lemma NoStep(b: Books)
    ensures Reaches(b, b)
  {
    var none: seq<Step> := [];
    assert Run([b], none) && [b][0] == b && [b][|none|] == b;
  }

  lemma StepFirst(a: Books, step: Step, c: Books)
    requires Enabled(a, step) && Reaches(Apply(a, step), c)
    ensures Reaches(a, c)
  {
    hide Enabled, Apply;
    var states, steps :| Run(states, steps) && states[0] == Apply(a, step) && states[|steps|] == c;
    var longer, more := [a] + states, [step] + steps;
    forall i | 0 <= i < |more| ensures Enabled(longer[i], more[i]) && longer[i + 1] == Apply(longer[i], more[i]) {
      if i > 0 {
        assert longer[i] == states[i - 1] && more[i] == steps[i - 1];
      }
    }
    assert Run(longer, more) && longer[0] == a && longer[|more|] == c;
  }

  lemma StepLast(a: Books, b: Books, step: Step)
    requires Reaches(a, b) && Enabled(b, step)
    ensures Reaches(a, Apply(b, step))
  {
    hide Enabled, Apply;
    var states, steps :| Run(states, steps) && states[0] == a && states[|steps|] == b;
    var longer, more := states + [Apply(b, step)], steps + [step];
    forall i | 0 <= i < |more| ensures Enabled(longer[i], more[i]) && longer[i + 1] == Apply(longer[i], more[i]) {
      if i < |steps| {
        assert longer[i] == states[i] && longer[i + 1] == states[i + 1] && more[i] == steps[i];
      }
    }
    assert Run(longer, more) && longer[0] == a && longer[|more|] == Apply(b, step);
  }

  lemma UnsafeBefore(a: Books, step: Step)
    requires Enabled(a, step) && Unsafe(Apply(a, step))
    ensures Unsafe(a)
  {
    hide Enabled, Apply, Reaches, HandsOutLive;
    var c :| Reaches(Apply(a, step), c) && HandsOutLive(c);
    StepFirst(a, step, c);
  }

  lemma UnsafeNow(b: Books, n: PageNo)
    requires MayTake(b, n) && (n in b.synced.live || n in b.committed.live || n in b.work.live)
    ensures Unsafe(b)
  {
    NoStep(b);
    assert HandsOutLive(b);
  }

  lemma SoundIsSafe(b: Books)
    requires BooksOk(b)
    ensures !Unsafe(b)
  {
    hide BooksOk, MayTake;
    forall c | Reaches(b, c) ensures !HandsOutLive(c) {
      ReachKeepsBooks(b, c);
      forall n | MayTake(c, n) ensures n !in c.synced.live && n !in c.committed.live && n !in c.work.live {
        NewPageIsUnreachable(c, n);
      }
    }
  }

  lemma ReachKeepsBooks(a: Books, b: Books)
    requires BooksOk(a) && Reaches(a, b)
    ensures BooksOk(b)
  {
    hide BooksOk, Enabled, Apply;
    var states, steps :| Run(states, steps) && states[0] == a && states[|steps|] == b;
    RunIsSafe(states, steps, |steps|);
  }

  /** A new file. */
  function NewBooks(): Books {
    var none := Version({}, map[]);
    Books(map[], 3, map[], {}, {}, 3, 0, 0, {}, none, none, none, {}, 3, 0)
  }

  // ---- the numbers a commit gives away -----------------------------------------------------------------------

  lemma NextNumber(b: Books) returns (m: PageNo)
    ensures MayTake(b, m)
  {
    if b.collectible != {} {
      Inhabited(b.collectible);
      m :| m in b.collectible;
    } else {
      m := b.lastPage;
    }
  }

  /** All page numbers in use are below the next one. */
  lemma NumbersBelow(b: Books)
    requires BooksOk(b)
    ensures b.fileEnd <= b.lastPage && b.syncedRevision <= b.revision
    ensures forall m :: m in b.collectible || m in b.residue ==> m < b.lastPage
  {
    hide SyncedOk, CommittedOk;
    forall m | m in b.collectible || m in b.residue ensures m in b.View() {
    }
  }

  lemma {:induction false} AllCollected(h: seq<HistoryNode>, s: nat, revision: nat, before: nat, between: nat)
    requires before > 0 && forall i :: 0 <= i < |h| ==> h[i].syncId <= s
    ensures Collected(h, s, revision, before, between) == HistoryPages(h)
  {
    hide HistoryPages;
    if h == [] {
      NoPages();
    } else {
      AllCollected(h[1..], s, revision, before + 1, between);
      PagesCons(h);
    }
  }

  lemma NoPages()
    ensures HistoryPages([]) == {}
  {
  }

  /** The copy of a touched page has the whole history collected, save the page it supersedes. */
  lemma TouchedHistory(b: Books, p: PageNo, m: PageNo, n: PageNo)
    requires p in b.View() && b.View()[p].NodePage? && b.View()[p].syncId <= b.lastSyncedId && n in HistoryPages(b.View()[p].history)
    requires forall i :: 0 <= i < |b.View()[p].history| ==> b.View()[p].history[i].syncId <= b.lastSyncedId
    ensures var c := Touch(b, p, m, true);
      m in c.dirty && c.dirty[m].NodePage? && n in Collected(c.dirty[m].history, c.lastSyncedId, c.revision, 0, 0)
  {
    hide HistoryPages, Reroled;
    var was := b.View()[p];
    var c := Touch(b, p, m, true);
    assert c.dirty[m].history[1..] == was.history;
    AllCollected(was.history, b.lastSyncedId, b.revision, 1, 0);
  }

  lemma GatheredAgain(b: Books, m: PageNo, n: PageNo)
    requires m in b.dirty && b.dirty[m].NodePage? && n in Collected(b.dirty[m].history, b.lastSyncedId, b.revision, 0, 0)
    ensures var c := Commit(b, b.lastPage); n in c.collectible && MayTake(c, n) && c.committed.live == b.work.live
  {
    hide Collected;
    assert n in FromPage(b, b.dirty[m]);
    assert n in Gathered(b);
  }
}

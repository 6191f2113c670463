// Who may use which page number: the accounting behind copy-on-write.
//
// Three versions of the tree exist side by side: the one being written, the last committed one and the last synced
// one. In each version a page number has at most one role, so the pages of the tree, the superseded pages kept in
// histories, the residue and the collectible pages never overlap. A page number is handed out again only when no
// version can reach it.
module PageAccounts {
  import opened HBtreeRecords

  datatype Role = Live | Old(owner: PageNo) | Residue | Collectible
  datatype Version = Version(live: set<PageNo>, role: map<PageNo, Role>)

  /** The fields of the tree that decide where pages go, with the three versions. */
  datatype Books = Books(
    disk: Pages, fileEnd: int,
    dirty: Pages, collectible: set<PageNo>, residue: set<PageNo>, lastPage: int,
    lastSyncedId: nat, revision: nat, markerResidue: set<PageNo>,
    work: Version, committed: Version,
    synced: Version, syncedList: set<PageNo>, syncedSize: int, syncedRevision: nat)
  {
    function View(): Pages {
      disk + dirty
    }
  }

  ghost predicate HasRole(ver: Version, n: PageNo, r: Role) {
    n in ver.role && ver.role[n] == r
  }

  /** The history of page pn names distinct pages that are kept for pn only. */
  ghost predicate HistoryOk(pages: Pages, ver: Version, pn: PageNo, h: seq<HistoryNode>) {
    && (forall i :: 0 <= i < |h| ==> HasRole(ver, h[i].page, Old(pn)) && h[i].page in pages)
    && (forall i, j :: 0 <= i < j < |h| ==> h[i].page != h[j].page)
  }

  ghost predicate LiveOk(pages: Pages, ver: Version) {
    forall p :: p in ver.live ==>
      p in pages && HasRole(ver, p, Live) && (pages[p].NodePage? ==> HistoryOk(pages, ver, p, pages[p].history))
  }

  ghost predicate SetOk(pages: Pages, ver: Version, s: set<PageNo>, r: Role) {
    forall n :: n in s ==> n in pages && HasRole(ver, n, r)
  }

  ghost predicate VersionOk(pages: Pages, ver: Version, collectible: set<PageNo>, residue: set<PageNo>) {
    LiveOk(pages, ver) && SetOk(pages, ver, collectible, Collectible) && SetOk(pages, ver, residue, Residue)
  }

  /** Pages of the synced tree were made for the last sync or one before it. Of the history of a page only the newest version
      from before the last sync can be in the synced tree, and only if the page itself was made after it. */
  ghost predicate OrderOk(p: PageNo, page: Page, syncedLive: set<PageNo>, s: nat)
    requires page.NodePage?
  {
    && (p in syncedLive ==> page.syncId <= s)
    && (forall j :: 0 <= j < |page.history| && page.history[j].page in syncedLive ==>
          && page.syncId > s && page.history[j].syncId <= s
          && forall i :: 0 <= i < j ==> page.history[i].syncId > s)
  }

  ghost predicate OrdersOk(pages: Pages, live: set<PageNo>, syncedLive: set<PageNo>, s: nat) {
    forall p :: p in live && p in pages && pages[p].NodePage? ==> OrderOk(p, pages[p], syncedLive, s)
  }

  /** Versions are numbered no later than the commit they were made for; old ones were committed. */
  ghost predicate IdsOk(page: Page, s: nat, revision: nat, made: nat, length: nat)
    requires page.NodePage?
  {
    && page.syncId <= s + 1 && page.commitId <= made && |page.history| <= length
    && forall i :: 0 <= i < |page.history| ==> page.history[i].commitId <= revision && page.history[i].syncId <= s + 1
  }

  ghost predicate CleanIds(pages: Pages, live: set<PageNo>, s: nat, revision: nat) {
    forall p :: p in live && p in pages && pages[p].NodePage? ==> IdsOk(pages[p], s, revision, revision, 2)
  }

  ghost predicate DirtyIds(dirty: Pages, s: nat, revision: nat) {
    forall p :: p in dirty && dirty[p].NodePage? ==> IdsOk(dirty[p], s, revision, revision + 1, 3)
  }

  ghost predicate BoundsOk(b: Books) {
    && 3 <= b.syncedSize <= b.fileEnd <= b.lastPage && b.syncedRevision <= b.revision
    && (forall p :: p in b.disk ==> 2 < p < b.fileEnd)
    && (forall p :: p in b.dirty ==> 2 < p < b.lastPage && (p in b.disk || b.fileEnd <= p))
  }

  ghost predicate ApartOk(b: Books) {
    && b.markerResidue <= b.residue && b.dirty.Keys !! b.markerResidue
    && b.collectible !! b.synced.live
    && b.dirty.Keys !! b.committed.live && b.dirty.Keys !! b.synced.live
    && b.work.live <= b.dirty.Keys + b.committed.live
    && (forall p :: p in b.dirty ==> p in b.work.live || HasRole(b.work, p, Residue))
    && (forall p :: p in b.dirty && b.dirty[p].NodePage? ==> p in b.work.live && (b.dirty[p].collected ==> p in b.disk))
  }

  function Upto(disk: Pages, size: int): Pages {
    map p | p in disk && p < size :: disk[p]
  }

  ghost predicate SyncedOk(b: Books) {
    && VersionOk(Upto(b.disk, b.syncedSize), b.synced, b.syncedList, {})
    && OrdersOk(b.disk, b.synced.live, b.synced.live, b.lastSyncedId)
    && CleanIds(b.disk, b.synced.live, b.lastSyncedId, b.syncedRevision)
  }

  ghost predicate CommittedOk(b: Books) {
    && VersionOk(b.disk, b.committed, b.collectible, b.markerResidue)
    && OrdersOk(b.disk, b.committed.live, b.synced.live, b.lastSyncedId)
    && CleanIds(b.disk, b.committed.live, b.lastSyncedId, b.revision)
  }

  ghost predicate WorkOk(b: Books) {
    && VersionOk(b.View(), b.work, b.collectible, b.residue)
    && OrdersOk(b.View(), b.work.live, b.synced.live, b.lastSyncedId)
    && DirtyIds(b.dirty, b.lastSyncedId, b.revision)
  }

  ghost predicate BooksOk(b: Books) {
    BoundsOk(b) && ApartOk(b) && SyncedOk(b) && CommittedOk(b) && WorkOk(b)
  }

  // ---- what the books promise ------------------------------------------------------------------------------

  /** Page numbers named in the histories of a tree. */
  ghost function Superseded(pages: Pages, ver: Version): set<PageNo> {
    set p, i | p in ver.live && p in pages && pages[p].NodePage? && 0 <= i < |pages[p].history| :: pages[p].history[i].page
  }

  /** Live pages, superseded pages, residue and collectible pages are pairwise disjoint. */
  lemma RolesApart(pages: Pages, ver: Version, collectible: set<PageNo>, residue: set<PageNo>)
    requires VersionOk(pages, ver, collectible, residue)
    ensures ver.live !! Superseded(pages, ver) && ver.live !! residue && ver.live !! collectible
    ensures Superseded(pages, ver) !! residue && Superseded(pages, ver) !! collectible && residue !! collectible
  {
    forall n | n in Superseded(pages, ver) ensures n in ver.role && ver.role[n].Old? {
      var p, i :| p in ver.live && p in pages && pages[p].NodePage? && 0 <= i < |pages[p].history| && pages[p].history[i].page == n;
      assert HasRole(ver, n, Old(p));
    }
    forall n | n in residue ensures n !in ver.live && n !in Superseded(pages, ver) {
      assert ver.role[n].Residue?;
    }
    forall n | n in collectible ensures n !in ver.live && n !in residue && n !in Superseded(pages, ver) {
      assert ver.role[n].Collectible?;
    }
  }

  lemma Inhabited(s: set<PageNo>)
    ensures s == {} || exists n :: n in s
  {
    if forall n :: n !in s {
      assert s == {};
    }
  }

  // ---- newPage ---------------------------------------------------------------------------------------------

  /** newPage takes any collectible page, or the next number when there is none. */
  ghost predicate MayTake(b: Books, n: PageNo) {
    if b.collectible != {} then n in b.collectible else n == b.lastPage
  }

  function NewPage(b: Books, n: PageNo, page: Page): Books {
    b.(collectible := b.collectible - {n}, lastPage := if b.collectible == {} then b.lastPage + 1 else b.lastPage,
       dirty := b.dirty[n := page], work := Version(b.work.live + {n}, b.work.role[n := Live]))
  }

  ghost predicate Blank(b: Books, n: PageNo, page: Page) {
    page.NodePage? ==>
      && page.history == [] && page.syncId == b.lastSyncedId + 1 && page.commitId == b.revision + 1
      && page.collected == (n in b.collectible)
  }

  /** A page that is handed out is not reachable from the synced, the committed or the working root. */
  lemma NewPageIsUnreachable(b: Books, n: PageNo)
    requires BooksOk(b) && MayTake(b, n)
    ensures n !in b.synced.live && n !in b.committed.live && n !in b.work.live && n !in b.dirty
    ensures n !in Superseded(b.View(), b.work) && n !in Superseded(b.disk, b.committed) && n !in b.residue
    ensures 2 < n < b.lastPage + 1
  {
    RolesApart(b.View(), b.work, b.collectible, b.residue);
    RolesApart(b.disk, b.committed, b.collectible, b.markerResidue);
    assert n in b.collectible ==> HasRole(b.work, n, Collectible) && HasRole(b.committed, n, Collectible);
    if n == b.lastPage {
      assert n !in b.View();
      forall q | q in b.synced.live ensures q != n {
        assert q in Upto(b.disk, b.syncedSize);
      }
      assert forall q :: q in Superseded(b.View(), b.work) ==> q in b.View();
      assert forall q :: q in Superseded(b.disk, b.committed) ==> q in b.disk;
    }
  }

  lemma NewPageKeepsWork(b: Books, n: PageNo, page: Page)
    requires BooksOk(b) && MayTake(b, n) && Blank(b, n, page)
    ensures WorkOk(NewPage(b, n, page))
  {
    NewPageIsUnreachable(b, n);
    var c := NewPage(b, n, page);
    forall p | p in c.work.live && c.View()[p].NodePage?
      ensures HistoryOk(c.View(), c.work, p, c.View()[p].history) && OrderOk(p, c.View()[p], c.synced.live, c.lastSyncedId)
    {
      if p != n {
        var h := b.View()[p].history;
        assert HistoryOk(b.View(), b.work, p, h) && OrderOk(p, b.View()[p], b.synced.live, b.lastSyncedId);
        forall i | 0 <= i < |h| ensures HasRole(c.work, h[i].page, Old(p)) && h[i].page in c.View() {
          assert h[i].page in Superseded(b.View(), b.work);
        }
      }
    }
  }

  lemma NewPageKeepsBooks(b: Books, n: PageNo, page: Page)
    requires BooksOk(b) && MayTake(b, n) && Blank(b, n, page)
    ensures BooksOk(NewPage(b, n, page))
  {
    hide HistoryOk, OrderOk;
    NewPageIsUnreachable(b, n);
    NewPageKeepsWork(b, n, page);
  }

  // ---- changing the nodes of a dirty page ------------------------------------------------------------------

  ghost predicate SameBooks(a: Page, b: Page) {
    a.NodePage? && b.NodePage? && a.history == b.history && a.syncId == b.syncId && a.commitId == b.commitId && a.collected == b.collected
  }

  function Edit(b: Books, p: PageNo, page: Page): Books {
    b.(dirty := b.dirty[p := page])
  }

  lemma EditKeepsLive(b: Books, p: PageNo, page: Page)
    requires WorkOk(b) && p in b.dirty
    requires SameBooks(b.dirty[p], page) || (b.dirty[p].OverflowPage? && page.OverflowPage?)
    ensures WorkOk(Edit(b, p, page))
  {
    var c := Edit(b, p, page);
    forall q | q in c.work.live && c.View()[q].NodePage?
      ensures HistoryOk(c.View(), c.work, q, c.View()[q].history) && OrderOk(q, c.View()[q], c.synced.live, c.lastSyncedId)
    {
      assert HistoryOk(b.View(), b.work, q, b.View()[q].history);
      assert OrderOk(q, b.View()[q], b.synced.live, b.lastSyncedId);
    }
  }

  lemma EditKeepsBooks(b: Books, p: PageNo, page: Page)
    requires BooksOk(b) && p in b.dirty
    requires SameBooks(b.dirty[p], page) || (b.dirty[p].OverflowPage? && page.OverflowPage?)
    ensures BooksOk(Edit(b, p, page))
  {
    hide SyncedOk, CommittedOk, WorkOk;
    var c := Edit(b, p, page);
    EditKeepsLive(b, p, page);
    ElsewhereSame(b, c);
  }

  /** The synced and committed books do not depend on what the write transaction does, except that they give up
      collectible pages. */
  lemma ElsewhereSame(b: Books, c: Books)
    requires SyncedOk(b) && CommittedOk(b)
    requires c.disk == b.disk && c.committed == b.committed && c.synced == b.synced && c.syncedList == b.syncedList
    requires c.syncedSize == b.syncedSize && c.syncedRevision == b.syncedRevision && c.lastSyncedId == b.lastSyncedId && c.revision == b.revision
    requires c.markerResidue == b.markerResidue && c.collectible <= b.collectible
    ensures SyncedOk(c) && CommittedOk(c)
  {
    hide LiveOk, OrdersOk, CleanIds;
  }

  // ---- touchNodePage and addHistoryNode --------------------------------------------------------------------

  /** The copy of page p made for the running transaction. */
  function Copied(b: Books, p: Page, collected: bool): Page
    requires p.NodePage?
  {
    p.(syncId := b.lastSyncedId + 1, commitId := b.revision + 1, collected := collected)
  }

  function Reroled(role: map<PageNo, Role>, p: PageNo, r: Role): map<PageNo, Role> {
    (map q | q in role :: if role[q] == Old(p) then r else role[q])
  }

  function HistoryPages(h: seq<HistoryNode>): set<PageNo> {
    set i | 0 <= i < |h| :: h[i].page
  }

  /** Page p is superseded by the new page n: p joins the history of n, or with the whole history the residue. */
  function Touch(b: Books, p: PageNo, n: PageNo, fits: bool): Books
    requires p in b.View() && b.View()[p].NodePage?
  {
    var was := b.View()[p];
    var copy := Copied(b, was, n in b.collectible);
    var r := if fits then Old(n) else Residue;
    b.(collectible := b.collectible - {n}, lastPage := if b.collectible == {} then b.lastPage + 1 else b.lastPage,
       dirty := b.dirty[n := copy.(history := if fits then [HistoryNode(p, was.syncId, was.commitId)] + was.history else [])],
       residue := if fits then b.residue else b.residue + HistoryPages(was.history) + {p},
       work := Version(b.work.live - {p} + {n}, Reroled(b.work.role, p, r)[p := r][n := Live]))
  }

  /** Touch in the steps of the code: a new page, the copy, and addHistoryNode. */
  function BlankPage(b: Books, n: PageNo, leaf: bool): Page {
    NodePage(leaf, [], 0, 0, [], b.lastSyncedId + 1, b.revision + 1, n in b.collectible)
  }

  function CopyOf(b: Books, p: PageNo, n: PageNo): Page
    requires p in b.View() && b.View()[p].NodePage? && n in b.dirty && b.dirty[n].NodePage?
  {
    b.dirty[n].(nodes := b.View()[p].nodes, upper := b.View()[p].upper, lower := b.View()[p].lower)
  }

  function Supersede(b: Books, p: PageNo, n: PageNo, fits: bool): Books
    requires p in b.View() && b.View()[p].NodePage? && n in b.dirty && b.dirty[n].NodePage?
  {
    var was := b.View()[p];
    var r := if fits then Old(n) else Residue;
    b.(dirty := b.dirty[n := b.dirty[n].(history :=
         if fits then [HistoryNode(p, was.syncId, was.commitId)] + was.history else [])],
       residue := if fits then b.residue else b.residue + HistoryPages(was.history) + {p},
       work := Version(b.work.live - {p}, Reroled(b.work.role, p, r)[p := r]))
  }

  lemma TouchInSteps(b: Books, p: PageNo, n: PageNo, fits: bool, leaf: bool)
    requires BooksOk(b) && MayTake(b, n) && p in b.work.live && p !in b.dirty && p in b.View() && b.View()[p].NodePage?
    requires leaf == b.View()[p].leaf
    ensures p != n
    ensures var b1 := NewPage(b, n, BlankPage(b, n, leaf));
      && p in b1.View() && b1.View()[p] == b.View()[p] && p !in b1.dirty
      && var b2 := Edit(b1, n, CopyOf(b1, p, n));
      && p in b2.View() && b2.View()[p] == b.View()[p]
      && Supersede(b2, p, n, fits) == Touch(b, p, n, fits)
  {
    hide BooksOk, Reroled;
    NewPageIsUnreachable(b, n);
    var b1 := NewPage(b, n, BlankPage(b, n, leaf));
    var b2 := Edit(b1, n, CopyOf(b1, p, n));
    SameDirty(b.dirty, n, BlankPage(b, n, leaf), b2.dirty[n], Touch(b, p, n, fits).dirty[n]);
    SameRoles(b.work, p, n, if fits then Old(n) else Residue);
  }

  lemma SameDirty(dirty: Pages, n: PageNo, x: Page, y: Page, z: Page)
    ensures dirty[n := x][n := y][n := z] == dirty[n := z]
  {
  }

  lemma SameRoles(ver: Version, p: PageNo, n: PageNo, r: Role)
    requires p != n && p in ver.live
    ensures Reroled(ver.role[n := Live], p, r)[p := r] == Reroled(ver.role, p, r)[p := r][n := Live]
    ensures ver.live + {n} - {p} == ver.live - {p} + {n}
  {
  }

  lemma TouchKeepsLive(b: Books, p: PageNo, n: PageNo, fits: bool, q: PageNo)
    requires BooksOk(b) && MayTake(b, n) && p in b.work.live && p !in b.dirty && b.View()[p].NodePage?
    requires q in Touch(b, p, n, fits).work.live
    ensures var c := Touch(b, p, n, fits);
      && q in c.View() && HasRole(c.work, q, Live)
      && (c.View()[q].NodePage? ==> HistoryOk(c.View(), c.work, q, c.View()[q].history))
  {
    hide SyncedOk, CommittedOk, OrdersOk, DirtyIds, MayTake, BoundsOk, HistoryPages, IdsOk;
    NewPageIsUnreachable(b, n);
    var c := Touch(b, p, n, fits);
    var q0 := if q == n then p else q;
    assert HasRole(b.work, q0, Live);
    if c.View()[q].NodePage? {
      var h := b.View()[q0].history;
      assert HistoryOk(b.View(), b.work, q0, h);
      forall i | 0 <= i < |h| ensures h[i].page != p && h[i].page != n && h[i].page in c.View() {
        assert HasRole(b.work, h[i].page, Old(q0));
        assert h[i].page in Superseded(b.View(), b.work);
      }
    }
  }

  lemma TouchKeepsOrder(b: Books, p: PageNo, n: PageNo, fits: bool, q: PageNo)
    requires BooksOk(b) && MayTake(b, n) && p in b.work.live && p !in b.dirty && b.View()[p].NodePage?
    requires q in Touch(b, p, n, fits).work.live && Touch(b, p, n, fits).View()[q].NodePage?
    ensures OrderOk(q, Touch(b, p, n, fits).View()[q], b.synced.live, b.lastSyncedId)
  {
    hide SyncedOk, CommittedOk, HistoryOk, DirtyIds;
    NewPageIsUnreachable(b, n);
    var q0 := if q == n then p else q;
    assert OrderOk(q0, b.View()[q0], b.synced.live, b.lastSyncedId);
  }

  lemma TouchKeepsSets(b: Books, p: PageNo, n: PageNo, fits: bool)
    requires BooksOk(b) && MayTake(b, n) && p in b.work.live && p !in b.dirty && b.View()[p].NodePage?
    ensures var c := Touch(b, p, n, fits);
      SetOk(c.View(), c.work, c.collectible, Collectible) && SetOk(c.View(), c.work, c.residue, Residue)
  {
    hide SyncedOk, CommittedOk, OrdersOk, DirtyIds;
    NewPageIsUnreachable(b, n);
    var h := b.View()[p].history;
    assert HistoryOk(b.View(), b.work, p, h) && HasRole(b.work, p, Live);
    forall i | 0 <= i < |h| ensures h[i].page != p && h[i].page != n {
      assert HasRole(b.work, h[i].page, Old(p));
      assert h[i].page in Superseded(b.View(), b.work);
    }
  }

  lemma TouchKeepsBooks(b: Books, p: PageNo, n: PageNo, fits: bool)
    requires BooksOk(b) && MayTake(b, n) && p in b.work.live && p !in b.dirty && b.View()[p].NodePage?
    ensures BooksOk(Touch(b, p, n, fits))
  {
    var c := Touch(b, p, n, fits);
    assert LiveOk(c.View(), c.work) by {
      forall q | q in c.work.live ensures q in c.View() && HasRole(c.work, q, Live) {
        TouchKeepsLive(b, p, n, fits, q);
      }
      forall q | q in c.work.live && c.View()[q].NodePage? ensures HistoryOk(c.View(), c.work, q, c.View()[q].history) {
        TouchKeepsLive(b, p, n, fits, q);
      }
    }
    assert OrdersOk(c.View(), c.work.live, c.synced.live, c.lastSyncedId) by {
      forall q | q in c.work.live && q in c.View() && c.View()[q].NodePage?
        ensures OrderOk(q, c.View()[q], c.synced.live, c.lastSyncedId)
      {
        TouchKeepsOrder(b, p, n, fits, q);
      }
    }
    TouchKeepsSets(b, p, n, fits);
    TouchKeepsRest(b, p, n, fits);
  }

  lemma TouchKeepsRest(b: Books, p: PageNo, n: PageNo, fits: bool)
    requires BooksOk(b) && MayTake(b, n) && p in b.work.live && p !in b.dirty && b.View()[p].NodePage?
    ensures var c := Touch(b, p, n, fits);
      BoundsOk(c) && ApartOk(c) && SyncedOk(c) && CommittedOk(c) && DirtyIds(c.dirty, c.lastSyncedId, c.revision)
  {
    var c := Touch(b, p, n, fits);
    NewPageIsUnreachable(b, n);
    assert p in b.committed.live && b.View()[p] == b.disk[p];
    assert IdsOk(b.disk[p], b.lastSyncedId, b.revision, b.revision, 2);
    assert SyncedOk(c) && CommittedOk(c) by {
      ElsewhereSame(b, c);
    }
  }

  // ---- removeFromTree and overflow pages ------------------------------------------------------------------

  /** A dirty page leaves the tree: its history, and its number if that was recycled, go to the residue. */
  function RemoveFromTree(b: Books, p: PageNo): Books
    requires p in b.dirty && b.dirty[p].NodePage?
  {
    var page := b.dirty[p];
    var role := Reroled(b.work.role, p, Residue);
    b.(dirty := b.dirty - {p},
       residue := b.residue + HistoryPages(page.history) + (if page.collected then {p} else {}),
       work := Version(b.work.live - {p}, if page.collected then role[p := Residue] else role - {p}))
  }

  lemma RemoveKeepsLive(b: Books, p: PageNo)
    requires BooksOk(b) && p in b.dirty && b.dirty[p].NodePage?
    ensures LiveOk(RemoveFromTree(b, p).View(), RemoveFromTree(b, p).work)
  {
    hide SyncedOk, CommittedOk, OrdersOk, DirtyIds, SetOk;
    var c := RemoveFromTree(b, p);
    forall q | q in c.work.live && c.View()[q].NodePage? ensures HistoryOk(c.View(), c.work, q, c.View()[q].history) {
      var h := b.View()[q].history;
      assert HistoryOk(b.View(), b.work, q, h);
      forall i | 0 <= i < |h| ensures h[i].page != p {
        assert HasRole(b.work, h[i].page, Old(q));
      }
    }
  }

  lemma RemoveKeepsSets(b: Books, p: PageNo)
    requires BooksOk(b) && p in b.dirty && b.dirty[p].NodePage?
    ensures var c := RemoveFromTree(b, p);
      SetOk(c.View(), c.work, c.collectible, Collectible) && SetOk(c.View(), c.work, c.residue, Residue)
  {
    hide SyncedOk, CommittedOk, OrdersOk, DirtyIds;
    assert HasRole(b.work, p, Live);
    assert HistoryOk(b.View(), b.work, p, b.dirty[p].history);
  }

  lemma RemoveKeepsBooks(b: Books, p: PageNo)
    requires BooksOk(b) && p in b.dirty && b.dirty[p].NodePage?
    ensures BooksOk(RemoveFromTree(b, p))
  {
    var c := RemoveFromTree(b, p);
    assert SyncedOk(c) && CommittedOk(c) by {
      ElsewhereSame(b, c);
    }
    RemoveKeepsLive(b, p);
    RemoveKeepsSets(b, p);
  }

  /** The overflow pages of a removed value go to the residue. */
  function FreeOverflow(b: Books, s: set<PageNo>): Books {
    b.(residue := b.residue + s,
       work := Version(b.work.live - s, (map q | q in b.work.role :: if q in s then Residue else b.work.role[q])))
  }

  lemma FreeKeepsBooks(b: Books, s: set<PageNo>)
    requires BooksOk(b) && s <= b.work.live && forall p :: p in s ==> p in b.View() && b.View()[p].OverflowPage?
    ensures BooksOk(FreeOverflow(b, s))
  {
    hide SyncedOk, CommittedOk;
    var c := FreeOverflow(b, s);
    assert SyncedOk(c) && CommittedOk(c) by {
      ElsewhereSame(b, c);
    }
    forall q | q in c.work.live && c.View()[q].NodePage?
      ensures HistoryOk(c.View(), c.work, q, c.View()[q].history) && OrderOk(q, c.View()[q], c.synced.live, c.lastSyncedId)
    {
      var h := b.View()[q].history;
      assert HistoryOk(b.View(), b.work, q, h) && OrderOk(q, b.View()[q], b.synced.live, b.lastSyncedId);
      forall i | 0 <= i < |h| ensures h[i].page !in s {
        assert HasRole(b.work, h[i].page, Old(q));
      }
    }
  }

  // ---- collectHistory and commit ---------------------------------------------------------------------------

  predicate MayCollect(e: HistoryNode, s: nat, revision: nat, before: nat, between: nat) {
    (e.syncId <= s && before > 0) || (e.syncId > s && e.commitId <= revision && between >= COMMIT_CHAIN)
  }

  /** What collectHistory leaves of a history: the newest version from before the last sync and one from after it. */
  function Kept(h: seq<HistoryNode>, s: nat, revision: nat, before: nat, between: nat): seq<HistoryNode> {
    if h == [] then []
    else
      var e := h[0];
      var rest := Kept(h[1..], s, revision, if e.syncId <= s then before + 1 else before,
                       if e.syncId > s && e.commitId <= revision then between + 1 else between);
      if MayCollect(e, s, revision, before, between) then rest else [e] + rest
  }

  function Collected(h: seq<HistoryNode>, s: nat, revision: nat, before: nat, between: nat): set<PageNo> {
    if h == [] then {}
    else
      var e := h[0];
      var rest := Collected(h[1..], s, revision, if e.syncId <= s then before + 1 else before,
                            if e.syncId > s && e.commitId <= revision then between + 1 else between);
      if MayCollect(e, s, revision, before, between) then rest + {e.page} else rest
  }

  ghost predicate SyncedIsNewest(h: seq<HistoryNode>, syncedLive: set<PageNo>, s: nat) {
    forall j :: 0 <= j < |h| && h[j].page in syncedLive ==>
      h[j].syncId <= s && forall i :: 0 <= i < j ==> h[i].syncId > s
  }

  ghost predicate Distinct(h: seq<HistoryNode>) {
    forall i, j :: 0 <= i < j < |h| ==> h[i].page != h[j].page
  }

  /** collectHistory sorts the history into pages to keep and pages to collect. */
  lemma {:induction false} KeptAndCollected(h: seq<HistoryNode>, s: nat, revision: nat, before: nat, between: nat)
    requires Distinct(h)
    ensures var k, c := Kept(h, s, revision, before, between), Collected(h, s, revision, before, between);
      Distinct(k) && HistoryPages(k) !! c && HistoryPages(k) + c == HistoryPages(h)
    ensures forall j :: 0 <= j < |Kept(h, s, revision, before, between)| ==> Kept(h, s, revision, before, between)[j] in h
  {
    if h != [] {
      var e := h[0];
      var b', n' := if e.syncId <= s then before + 1 else before,
                    if e.syncId > s && e.commitId <= revision then between + 1 else between;
      KeptAndCollected(h[1..], s, revision, b', n');
      var rest := Kept(h[1..], s, revision, b', n');
      PagesCons(h);
      assert e.page !in HistoryPages(h[1..]);
      var k := Kept(h, s, revision, before, between);
      if !MayCollect(e, s, revision, before, between) {
        PagesCons(k);
        assert k[1..] == rest;
        forall j | 0 <= j < |rest| ensures rest[j].page != e.page {
          assert rest[j].page in HistoryPages(rest);
        }
      }
    }
  }

  lemma PagesCons(h: seq<HistoryNode>)
    requires h != []
    ensures HistoryPages(h) == {h[0].page} + HistoryPages(h[1..])
  {
    forall n | n in HistoryPages(h) ensures n in {h[0].page} + HistoryPages(h[1..]) {
      var i :| 0 <= i < |h| && h[i].page == n;
      assert i > 0 ==> h[1..][i - 1].page == n;
    }
    forall n | n in HistoryPages(h[1..]) ensures n in HistoryPages(h) {
      var i :| 0 <= i < |h[1..]| && h[1..][i].page == n;
      assert h[i + 1].page == n;
    }
  }

  /** collectHistory never collects a page of the synced tree. */
  lemma {:induction false} CollectSparesSynced(h: seq<HistoryNode>, syncedLive: set<PageNo>, s: nat, revision: nat, before: nat, between: nat)
    requires SyncedIsNewest(h, syncedLive, s)
    requires before > 0 ==> HistoryPages(h) !! syncedLive
    ensures Collected(h, s, revision, before, between) !! syncedLive
    ensures SyncedIsNewest(Kept(h, s, revision, before, between), syncedLive, s)
    ensures before > 0 ==> HistoryPages(Kept(h, s, revision, before, between)) !! syncedLive
  {
    if h != [] {
      var e := h[0];
      var b', n' := if e.syncId <= s then before + 1 else before,
                    if e.syncId > s && e.commitId <= revision then between + 1 else between;
      PagesCons(h);
      forall j | 0 <= j < |h[1..]| && h[1..][j].page in syncedLive
        ensures h[1..][j].syncId <= s && forall i :: 0 <= i < j ==> h[1..][i].syncId > s
      {
        assert h[j + 1] == h[1..][j];
        forall i | 0 <= i < j ensures h[1..][i].syncId > s {
          assert h[i + 1] == h[1..][i];
        }
      }
      if e.syncId <= s {
        forall n | n in HistoryPages(h[1..]) ensures n !in syncedLive {
          var i :| 0 <= i < |h[1..]| && h[1..][i].page == n;
          assert h[i + 1].page == n;
        }
      }
      CollectSparesSynced(h[1..], syncedLive, s, revision, b', n');
      var k, rest := Kept(h, s, revision, before, between), Kept(h[1..], s, revision, b', n');
      if k != rest {
        PagesCons(k);
        assert k[1..] == rest;
        forall j | 0 <= j < |k| && k[j].page in syncedLive ensures k[j].syncId <= s && forall i :: 0 <= i < j ==> k[i].syncId > s {
          if j > 0 {
            assert rest[j - 1] == k[j] && rest[j - 1].page in HistoryPages(rest);
            forall i | 0 <= i < j ensures k[i].syncId > s {
              assert i > 0 ==> rest[i - 1] == k[i];
            }
          }
        }
      }
    }
  }

  /** Every committed page keeps at most two old versions. */
  lemma {:induction false} AtMostTwoKept(h: seq<HistoryNode>, s: nat, revision: nat, before: nat, between: nat)
    requires forall i :: 0 <= i < |h| ==> h[i].commitId <= revision
    ensures |Kept(h, s, revision, before, between)|
      <= (if before > 0 then 0 else 1) + (if between >= COMMIT_CHAIN then 0 else 1)
  {
    if h != [] {
      var e := h[0];
      assert forall i :: 0 <= i < |h[1..]| ==> h[1..][i] == h[i + 1];
      AtMostTwoKept(h[1..], s, revision, if e.syncId <= s then before + 1 else before,
                    if e.syncId > s && e.commitId <= revision then between + 1 else between);
    }
  }

  /** A dirty page as commit writes it. */
  function Trimmed(b: Books, page: Page): Page {
    if page.NodePage? then page.(history := Kept(page.history, b.lastSyncedId, b.revision, 0, 0)) else page
  }

  function Written(b: Books): Pages {
    map p | p in b.dirty :: Trimmed(b, b.dirty[p])
  }

  function FromPage(b: Books, page: Page): set<PageNo> {
    if page.NodePage? then Collected(page.history, b.lastSyncedId, b.revision, 0, 0) else {}
  }

  function Gathered(b: Books): set<PageNo> {
    set p, n | p in b.dirty && n in FromPage(b, b.dirty[p]) :: n
  }

  function AfterCommit(b: Books): Version {
    Version(b.work.live, (map q | q in b.work.role :: if q in Gathered(b) then Collectible else b.work.role[q]))
  }

  /** Where the file ends once the dirty pages are written. */
  ghost predicate EndOk(b: Books, end: int) {
    b.fileEnd <= end <= b.lastPage && forall p :: p in b.dirty ==> p < end
  }

  function Commit(b: Books, end: int): Books {
    b.(disk := b.disk + Written(b), fileEnd := end, dirty := map[], collectible := b.collectible + Gathered(b),
       revision := b.revision + 1, markerResidue := b.residue, work := AfterCommit(b), committed := AfterCommit(b))
  }

  lemma KeptOfDirty(b: Books, p: PageNo)
    requires BooksOk(b) && p in b.dirty && b.dirty[p].NodePage?
    ensures var k := Kept(b.dirty[p].history, b.lastSyncedId, b.revision, 0, 0);
      && Distinct(k) && HistoryPages(k) !! FromPage(b, b.dirty[p])
      && (forall i :: 0 <= i < |k| ==> k[i] in b.dirty[p].history && HasRole(b.work, k[i].page, Old(p)) && k[i].page in b.View())
    ensures forall n :: n in FromPage(b, b.dirty[p]) ==> HasRole(b.work, n, Old(p)) && n in b.View()
  {
    hide SyncedOk, CommittedOk, OrdersOk, SetOk;
    var h := b.dirty[p].history;
    assert HistoryOk(b.View(), b.work, p, h);
    KeptAndCollected(h, b.lastSyncedId, b.revision, 0, 0);
    forall n | n in HistoryPages(h) ensures HasRole(b.work, n, Old(p)) && n in b.View() {
      var i :| 0 <= i < |h| && h[i].page == n;
    }
    var k := Kept(h, b.lastSyncedId, b.revision, 0, 0);
    forall i | 0 <= i < |k| ensures k[i].page in HistoryPages(h) {
      assert k[i].page in HistoryPages(k);
    }
  }

  /** What commit gathers was superseded: by one page each, and never part of the synced tree. */
  lemma GatheredIsOld(b: Books, n: PageNo)
    requires BooksOk(b) && n in Gathered(b)
    ensures n in b.View() && n in b.work.role && b.work.role[n].Old?
    ensures b.work.role[n].owner in b.dirty && n in FromPage(b, b.dirty[b.work.role[n].owner])
    ensures n !in b.synced.live && n !in b.residue && n !in b.work.live
  {
    var p :| p in b.dirty && n in FromPage(b, b.dirty[p]);
    KeptOfDirty(b, p);
    assert OrderOk(p, b.dirty[p], b.synced.live, b.lastSyncedId) by {
      assert b.View()[p] == b.dirty[p];
    }
    CollectSparesSynced(b.dirty[p].history, b.synced.live, b.lastSyncedId, b.revision, 0, 0);
  }

  lemma CommitKeepsLive(b: Books, p: PageNo)
    requires BooksOk(b) && p in b.work.live
    ensures var d := b.disk + Written(b);
      && p in d && HasRole(AfterCommit(b), p, Live)
      && (d[p].NodePage? ==> HistoryOk(d, AfterCommit(b), p, d[p].history))
  {
    hide SyncedOk, CommittedOk, OrdersOk, SetOk;
    var d := b.disk + Written(b);
    assert HasRole(b.work, p, Live);
    if p in Gathered(b) {
      GatheredIsOld(b, p);
    }
    if d[p].NodePage? {
      var h := d[p].history;
      if p in b.dirty {
        KeptOfDirty(b, p);
      } else {
        assert HistoryOk(b.View(), b.work, p, h);
      }
      forall i | 0 <= i < |h| ensures HasRole(AfterCommit(b), h[i].page, Old(p)) && h[i].page in d {
        assert HasRole(b.work, h[i].page, Old(p)) && h[i].page in b.View();
        if h[i].page in Gathered(b) {
          GatheredIsOld(b, h[i].page);
        }
      }
    }
  }

  lemma CommitKeepsOrder(b: Books, p: PageNo)
    requires BooksOk(b) && p in b.work.live
    ensures var d := b.disk + Written(b);
      p in d && (d[p].NodePage? ==>
        && OrderOk(p, d[p], b.synced.live, b.lastSyncedId)
        && IdsOk(d[p], b.lastSyncedId, b.revision + 1, b.revision + 1, 2))
  {
    var d := b.disk + Written(b);
    assert p in b.View();
    if b.View()[p].NodePage? {
      assert OrderOk(p, b.View()[p], b.synced.live, b.lastSyncedId);
      if p in b.dirty {
        var h := b.dirty[p].history;
        assert IdsOk(b.dirty[p], b.lastSyncedId, b.revision, b.revision + 1, 3);
        CollectSparesSynced(h, b.synced.live, b.lastSyncedId, b.revision, 0, 0);
        AtMostTwoKept(h, b.lastSyncedId, b.revision, 0, 0);
        KeptOfDirty(b, p);
      } else {
        assert IdsOk(b.disk[p], b.lastSyncedId, b.revision, b.revision, 2);
      }
    }
  }

  lemma CommitKeepsSets(b: Books)
    requires BooksOk(b)
    ensures SetOk(b.disk + Written(b), AfterCommit(b), b.collectible + Gathered(b), Collectible)
    ensures SetOk(b.disk + Written(b), AfterCommit(b), b.residue, Residue)
    ensures b.collectible + Gathered(b) !! b.synced.live
  {
    hide SyncedOk, CommittedOk, OrdersOk, LiveOk;
    forall n | n in Gathered(b) ensures n in b.View() && HasRole(AfterCommit(b), n, Collectible) && n !in b.synced.live && n !in b.residue {
      GatheredIsOld(b, n);
    }
  }

  /** The synced tree is not written to, so its books stay as they are. */
  lemma SyncedUntouched(b: Books, disk: Pages)
    requires BooksOk(b) && b.disk.Keys <= disk.Keys
    requires forall p :: p in b.synced.live ==> p in disk && p in b.disk && disk[p] == b.disk[p]
    ensures VersionOk(Upto(disk, b.syncedSize), b.synced, b.syncedList, {})
    ensures OrdersOk(disk, b.synced.live, b.synced.live, b.lastSyncedId)
    ensures CleanIds(disk, b.synced.live, b.lastSyncedId, b.syncedRevision)
  {
    hide WorkOk, CommittedOk;
    var u, w := Upto(b.disk, b.syncedSize), Upto(disk, b.syncedSize);
    forall p | p in b.synced.live && w[p].NodePage? ensures HistoryOk(w, b.synced, p, w[p].history) {
      assert p in u && w[p] == u[p];
      assert HistoryOk(u, b.synced, p, u[p].history);
    }
  }

  lemma CommitKeepsTree(b: Books, end: int)
    requires BooksOk(b)
    ensures var c := Commit(b, end);
      LiveOk(c.disk, c.committed) && OrdersOk(c.disk, c.work.live, c.synced.live, c.lastSyncedId)
      && CleanIds(c.disk, c.work.live, c.lastSyncedId, c.revision)
  {
    var c := Commit(b, end);
    forall p | p in b.work.live
      ensures p in c.disk && HasRole(c.committed, p, Live)
      ensures c.disk[p].NodePage? ==>
        && HistoryOk(c.disk, c.committed, p, c.disk[p].history)
        && OrderOk(p, c.disk[p], c.synced.live, c.lastSyncedId)
        && IdsOk(c.disk[p], c.lastSyncedId, c.revision, c.revision, 2)
    {
      CommitKeepsLive(b, p);
      CommitKeepsOrder(b, p);
    }
  }

  lemma CommitKeepsSynced(b: Books, end: int)
    requires BooksOk(b)
    ensures SyncedOk(Commit(b, end))
  {
    var disk := Commit(b, end).disk;
    forall p | p in b.synced.live ensures p in disk && p in b.disk && disk[p] == b.disk[p] {
      assert p in Upto(b.disk, b.syncedSize);
    }
    SyncedUntouched(b, disk);
  }

  lemma CommitKeepsBooks(b: Books, end: int)
    requires BooksOk(b) && EndOk(b, end)
    ensures BooksOk(Commit(b, end))
  {
    hide SyncedOk, CommittedOk, WorkOk, LiveOk, SetOk, OrdersOk, CleanIds, Gathered;
    var c := Commit(b, end);
    assert c.View() == c.disk;
    CommitKeepsTree(b, end);
    CommitKeepsSets(b);
    CommitKeepsSynced(b, end);
    CommitAssembled(c);
  }

  lemma CommitAssembled(c: Books)
    requires c.work == c.committed && c.View() == c.disk && c.dirty == map[] && c.residue == c.markerResidue
    requires LiveOk(c.disk, c.committed) && OrdersOk(c.disk, c.work.live, c.synced.live, c.lastSyncedId)
    requires CleanIds(c.disk, c.work.live, c.lastSyncedId, c.revision)
    requires SetOk(c.disk, c.committed, c.collectible, Collectible) && SetOk(c.disk, c.committed, c.residue, Residue)
    ensures CommittedOk(c) && WorkOk(c)
  {
    hide LiveOk, OrdersOk, CleanIds, SetOk;
  }

  // ---- abort -----------------------------------------------------------------------------------------------

  /** abort drops the dirty pages and returns to the committed root. It does not roll back the residue. */
  function Abort(b: Books, role: map<PageNo, Role>): Books {
    b.(dirty := map[], work := Version(b.committed.live, role), committed := Version(b.committed.live, role))
  }

  /** The residue names no page that the committed tree or its histories still use, and only pages of the file. */
  ghost predicate ResidueIsFree(b: Books) {
    b.residue <= b.disk.Keys && b.residue !! b.committed.live && b.residue !! Superseded(b.disk, b.committed)
  }

  function AbortedRole(b: Books): map<PageNo, Role> {
    map q | q in b.committed.role.Keys + b.residue :: if q in b.residue then Residue else b.committed.role[q]
  }

  /** A transaction that added nothing to the residue can be aborted. */
  lemma NothingAdded(b: Books, begun: Books)
    requires BooksOk(begun) && begun.work == begun.committed && begun.dirty == map[]
    requires b.disk == begun.disk && b.committed == begun.committed && b.residue == begun.residue
    ensures ResidueIsFree(b)
  {
    hide CommittedOk, SyncedOk;
    assert begun.View() == begun.disk;
    RolesApart(begun.disk, begun.committed, begun.collectible, begun.residue);
    forall n | n in b.residue ensures n in b.disk {
      assert n in begun.View();
    }
  }

  lemma AbortKeepsLive(b: Books)
    requires BooksOk(b) && ResidueIsFree(b)
    ensures LiveOk(b.disk, Version(b.committed.live, AbortedRole(b)))
  {
    hide SyncedOk, WorkOk, OrdersOk, SetOk;
    var ver := Version(b.committed.live, AbortedRole(b));
    forall p | p in ver.live && b.disk[p].NodePage? ensures HistoryOk(b.disk, ver, p, b.disk[p].history) {
      var h := b.disk[p].history;
      assert HistoryOk(b.disk, b.committed, p, h);
      forall i | 0 <= i < |h| ensures HasRole(ver, h[i].page, Old(p)) && h[i].page in b.disk {
        assert h[i].page in Superseded(b.disk, b.committed);
      }
    }
  }

  lemma AbortKeepsSets(b: Books)
    requires BooksOk(b) && ResidueIsFree(b)
    ensures var ver := Version(b.committed.live, AbortedRole(b));
      SetOk(b.disk, ver, b.collectible, Collectible) && SetOk(b.disk, ver, b.residue, Residue)
      && SetOk(b.disk, ver, b.markerResidue, Residue)
  {
    hide SyncedOk, OrdersOk, LiveOk;
    forall n | n in b.collectible ensures n !in b.residue {
      assert HasRole(b.work, n, Collectible);
    }
  }

  /** abort leaves sound books exactly when the residue is free of the committed tree. */
  lemma AbortKeepsBooks(b: Books)
    requires BooksOk(b)
    ensures ResidueIsFree(b) <==> exists role :: BooksOk(Abort(b, role))
    ensures ResidueIsFree(b) ==> BooksOk(Abort(b, AbortedRole(b)))
  {
    hide LiveOk, SetOk, OrdersOk;
    if ResidueIsFree(b) {
      AbortKeepsLive(b);
      AbortKeepsSets(b);
      var c := Abort(b, AbortedRole(b));
      assert c.View() == c.disk;
      assert BooksOk(Abort(b, AbortedRole(b)));
    }
    forall role | BooksOk(Abort(b, role)) ensures ResidueIsFree(b) {
      AbortedBooksSay(b, role);
    }
  }

  lemma AbortedBooksSay(b: Books, role: map<PageNo, Role>)
    requires BooksOk(Abort(b, role))
    ensures ResidueIsFree(b)
  {
    hide CommittedOk, SyncedOk;
    var c := Abort(b, role);
    assert c.View() == c.disk;
    RolesApart(c.disk, c.committed, c.collectible, c.residue);
    assert Superseded(c.disk, c.committed) == Superseded(b.disk, b.committed);
    forall n | n in b.residue ensures n in b.disk {
      assert n in c.View();
    }
  }

  // ---- sync and open ---------------------------------------------------------------------------------------

  /** These pages may be taken again. */
  function Released(ver: Version, s: set<PageNo>): Version {
    Version(ver.live, (map q | q in ver.role :: if q in s then Collectible else ver.role[q]))
  }

  function AfterSync(b: Books): Version {
    Released(b.committed, b.markerResidue)
  }

  /** sync makes the committed tree the durable one; what only the old durable tree needed becomes collectible. A running
      transaction goes on, but what it had added to the residue is forgotten. */
  function Sync(b: Books): Books {
    var list := b.collectible + b.markerResidue;
    b.(synced := AfterSync(b), syncedList := list, syncedSize := b.fileEnd, syncedRevision := b.revision,
       lastSyncedId := b.lastSyncedId + 1, collectible := list, markerResidue := {}, residue := {},
       work := Released(b.work, b.markerResidue), committed := AfterSync(b))
  }

  /** sync as it is called: without a commit since the last one it does nothing. */
  function SyncOnce(b: Books): Books {
    if b.revision == b.syncedRevision then b else Sync(b)
  }

  /** No dirty page names a page of the committed tree in its history. */
  ghost predicate SyncIsFree(b: Books) {
    forall p, i :: p in b.dirty && b.dirty[p].NodePage? && 0 <= i < |b.dirty[p].history| ==> b.dirty[p].history[i].page !in b.committed.live
  }

  lemma NothingDirty(b: Books)
    requires b.dirty == map[]
    ensures SyncIsFree(b)
  {
  }

  lemma SyncKeepsVersion(b: Books)
    requires BooksOk(b)
    ensures VersionOk(b.disk, AfterSync(b), b.collectible + b.markerResidue, {})
    ensures AfterSync(b).live !! b.collectible + b.markerResidue
  {
    hide SyncedOk, WorkOk, OrdersOk, CleanIds;
    forall p | p in b.committed.live && b.disk[p].NodePage?
      ensures HistoryOk(b.disk, AfterSync(b), p, b.disk[p].history)
    {
      assert HistoryOk(b.disk, b.committed, p, b.disk[p].history);
    }
    forall n | n in b.committed.live ensures n !in b.collectible + b.markerResidue {
      assert HasRole(b.committed, n, Live);
    }
  }

  lemma SyncKeepsOrder(b: Books)
    requires BooksOk(b)
    ensures OrdersOk(b.disk, b.committed.live, b.committed.live, b.lastSyncedId + 1)
    ensures CleanIds(b.disk, b.committed.live, b.lastSyncedId + 1, b.revision)
  {
    hide SyncedOk, WorkOk;
    forall p | p in b.committed.live && p in b.disk && b.disk[p].NodePage?
      ensures OrderOk(p, b.disk[p], b.committed.live, b.lastSyncedId + 1)
      ensures IdsOk(b.disk[p], b.lastSyncedId + 1, b.revision, b.revision, 2)
    {
      var h := b.disk[p].history;
      assert HistoryOk(b.disk, b.committed, p, h);
      assert IdsOk(b.disk[p], b.lastSyncedId, b.revision, b.revision, 2);
      forall i | 0 <= i < |h| ensures h[i].page !in b.committed.live {
        assert HasRole(b.committed, h[i].page, Old(p));
      }
    }
  }

  lemma SyncKeepsWork(b: Books)
    requires BooksOk(b)
    ensures VersionOk(b.View(), Released(b.work, b.markerResidue), b.collectible + b.markerResidue, {})
  {
    hide SyncedOk, CommittedOk, CleanIds, OrderOk;
    MarkerIsResidue(b);
    forall p | p in b.work.live && b.View()[p].NodePage?
      ensures HistoryOk(b.View(), Released(b.work, b.markerResidue), p, b.View()[p].history)
    {
      var h := b.View()[p].history;
      assert HistoryOk(b.View(), b.work, p, h);
      forall i | 0 <= i < |h| ensures HasRole(Released(b.work, b.markerResidue), h[i].page, Old(p)) {
        assert HasRole(b.work, h[i].page, Old(p));
      }
    }
  }

  lemma SyncKeepsWorkOrder(b: Books)
    requires BooksOk(b) && SyncIsFree(b)
    ensures OrdersOk(b.View(), b.work.live, b.committed.live, b.lastSyncedId + 1)
  {
    hide SyncedOk, VersionOk;
    SyncKeepsOrder(b);
    forall p | p in b.work.live && p in b.View() && b.View()[p].NodePage?
      ensures OrderOk(p, b.View()[p], b.committed.live, b.lastSyncedId + 1)
    {
      if p !in b.dirty {
        assert p in b.committed.live && b.View()[p] == b.disk[p];
      }
    }
  }

  lemma MarkerIsResidue(b: Books)
    requires BooksOk(b)
    ensures forall n :: n in b.markerResidue ==> n in b.View() && HasRole(b.work, n, Residue)
    ensures forall n :: n in b.collectible ==> n in b.View() && HasRole(b.work, n, Collectible)
  {
    hide SyncedOk, CommittedOk;
  }

  lemma SyncKeepsApart(b: Books)
    requires BooksOk(b)
    ensures BoundsOk(Sync(b)) && ApartOk(Sync(b))
  {
    hide SyncedOk, OrdersOk, CleanIds;
    SyncKeepsVersion(b);
  }

  /** A sync between transactions, or in one whose dirty pages do not name committed pages in their histories. */
  lemma SyncKeepsBooks(b: Books)
    requires BooksOk(b) && SyncIsFree(b)
    ensures BooksOk(Sync(b)) && BooksOk(SyncOnce(b))
  {
    hide LiveOk, SetOk, OrdersOk, CleanIds;
    var c := Sync(b);
    SyncKeepsVersion(b);
    SyncKeepsOrder(b);
    SyncKeepsWork(b);
    SyncKeepsWorkOrder(b);
    SyncKeepsApart(b);
    assert Upto(b.disk, b.fileEnd) == b.disk && c.View() == b.View();
  }

  /** open, on the file as a crash left it: the pages of the durable tree are there, others may hold anything. */
  function Reopen(b: Books, disk: Pages): Books {
    var d := Upto(disk, b.syncedSize);
    b.(disk := d, fileEnd := b.syncedSize, lastPage := b.syncedSize, dirty := map[],
       collectible := b.syncedList, residue := {}, markerResidue := {}, revision := b.syncedRevision,
       work := b.synced, committed := b.synced)
  }

  /** A file in which the pages of the durable tree are untouched. */
  ghost predicate Crashed(b: Books, disk: Pages) {
    && b.disk.Keys <= disk.Keys && (forall p :: p in disk ==> p > 2)
    && forall p :: p in b.synced.live ==> p in disk && p in b.disk && disk[p] == b.disk[p]
  }

  lemma ReopenKeepsBooks(b: Books, disk: Pages)
    requires BooksOk(b) && Crashed(b, disk)
    ensures BooksOk(Reopen(b, disk))
  {
    SyncedUntouched(b, disk);
    var c := Reopen(b, disk);
    var d := Upto(disk, b.syncedSize);
    assert c.View() == d && Upto(d, b.syncedSize) == d;
    RolesApart(d, b.synced, b.syncedList, {});
    assert forall p :: p in b.synced.live ==> p in d && d[p] == disk[p];
  }

  /** Why the residue matters: when an aborted transaction had put a page of the committed tree there, the next commit
      and sync make that page collectible while the durable tree still uses it. */
  lemma UnsafeAbort(b: Books, role: map<PageNo, Role>, n: PageNo)
    requires BooksOk(b) && n in b.residue && n in b.committed.live
    ensures var c := Sync(Commit(Abort(b, role), b.fileEnd));
      n in c.collectible && MayTake(c, n) && n in c.synced.live
  {
  }

  // ---- runs ------------------------------------------------------------------------------------------------

  datatype Step =
    | DoNew(n: PageNo, page: Page)
    | DoEdit(p: PageNo, page: Page)
    | DoTouch(p: PageNo, n: PageNo, fits: bool)
    | DoRemove(p: PageNo)
    | DoFree(s: set<PageNo>)
    | DoCommit(end: int)
    | DoAbort
    | DoSync
    | DoCrash(disk: Pages)

  ghost predicate Enabled(b: Books, step: Step) {
    match step
    case DoNew(n, page) => MayTake(b, n) && Blank(b, n, page)
    case DoEdit(p, page) => p in b.dirty && (SameBooks(b.dirty[p], page) || (b.dirty[p].OverflowPage? && page.OverflowPage?))
    case DoTouch(p, n, fits) => MayTake(b, n) && p in b.work.live && p !in b.dirty && p in b.View() && b.View()[p].NodePage?
    case DoRemove(p) => p in b.dirty && b.dirty[p].NodePage?
    case DoFree(s) => s <= b.work.live && forall p :: p in s ==> p in b.View() && b.View()[p].OverflowPage?
    case DoCommit(end) => EndOk(b, end)
    case DoAbort => ResidueIsFree(b)
    case DoSync => SyncIsFree(b)
    case DoCrash(disk) => Crashed(b, disk)
  }

  ghost function Apply(b: Books, step: Step): Books
    requires Enabled(b, step)
  {
    match step
    case DoNew(n, page) => NewPage(b, n, page)
    case DoEdit(p, page) => Edit(b, p, page)
    case DoTouch(p, n, fits) => Touch(b, p, n, fits)
    case DoRemove(p) => RemoveFromTree(b, p)
    case DoFree(s) => FreeOverflow(b, s)
    case DoCommit(end) => Commit(b, end)
    case DoAbort => Abort(b, AbortedRole(b))
    case DoSync => SyncOnce(b)
    case DoCrash(disk) => Reopen(b, disk)
  }

  lemma StepKeepsBooks(b: Books, step: Step)
    requires BooksOk(b) && Enabled(b, step)
    ensures BooksOk(Apply(b, step))
  {
    match step
    case DoNew(n, page) => NewPageKeepsBooks(b, n, page);
    case DoEdit(p, page) => EditKeepsBooks(b, p, page);
    case DoTouch(p, n, fits) => TouchKeepsBooks(b, p, n, fits);
    case DoRemove(p) => RemoveKeepsBooks(b, p);
    case DoFree(s) => FreeKeepsBooks(b, s);
    case DoCommit(end) => CommitKeepsBooks(b, end);
    case DoAbort => AbortKeepsBooks(b);
    case DoSync => SyncKeepsBooks(b);
    case DoCrash(disk) => ReopenKeepsBooks(b, disk);
  }

  /** A run: every state follows from the one before by an enabled step. */
  ghost predicate Run(states: seq<Books>, steps: seq<Step>) {
    && |states| == |steps| + 1
    && forall i :: 0 <= i < |steps| ==> Enabled(states[i], steps[i]) && states[i + 1] == Apply(states[i], steps[i])
  }

  /** The page a step takes, if any. */
  ghost predicate Takes(step: Step, n: PageNo) {
    (step.DoNew? || step.DoTouch?) && step.n == n
  }

  /** Copy-on-write safety: over every run, with any number of commits, safe aborts, syncs and crashes, a page number
      that is handed out is not reachable from the synced, the committed or the working root, and no two roles overlap. */
  lemma {:induction false} RunIsSafe(states: seq<Books>, steps: seq<Step>, i: nat)
    requires Run(states, steps) && BooksOk(states[0]) && i < |states|
    ensures BooksOk(states[i])
    ensures i < |steps| ==> forall n :: Takes(steps[i], n) ==>
      n !in states[i].synced.live && n !in states[i].committed.live && n !in states[i].work.live
    ensures var b := states[i];
      b.work.live !! Superseded(b.View(), b.work) && b.work.live !! b.residue && b.work.live !! b.collectible
      && Superseded(b.View(), b.work) !! b.residue && Superseded(b.View(), b.work) !! b.collectible
      && b.residue !! b.collectible && b.collectible !! b.synced.live && b.collectible !! b.committed.live
  {
    hide VersionOk, OrdersOk, Superseded;
    if i > 0 {
      RunIsSafe(states, steps, i - 1);
      StepKeepsBooks(states[i - 1], steps[i - 1]);
    }
    var b := states[i];
    RolesApart(b.View(), b.work, b.collectible, b.residue);
    RolesApart(b.disk, b.committed, b.collectible, b.markerResidue);
    if i < |steps| {
      forall n | Takes(steps[i], n) ensures n !in b.synced.live && n !in b.committed.live && n !in b.work.live {
        NewPageIsUnreachable(b, n);
      }
    }
  }

  /** A new file holds three pages and no tree. */
  ghost predicate NewFile(b: Books) {
    && b.disk == map[] && b.dirty == map[] && b.fileEnd == b.lastPage == b.syncedSize == 3
    && b.collectible == b.residue == b.markerResidue == b.syncedList == {}
    && b.work == b.committed == b.synced == Version({}, map[]) && b.syncedRevision == b.revision
  }

  lemma NewFileIsOk(b: Books)
    requires NewFile(b)
    ensures BooksOk(b)
  {
    assert b.View() == map[] && Upto(b.disk, 3) == map[];
  }
}

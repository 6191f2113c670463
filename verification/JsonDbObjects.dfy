// Documents with a version, a history of replaced versions and a list of conflicting versions: optimistic writes and
// replicated merges.
module JsonDbObjects {
  import opened Versions

  /** What the content hash is taken of: everything but the uuid, the version and the bookkeeping. */
  datatype Body = Body(deleted: bool, local: bool, data: string)

  datatype Doc = Doc(uuid: string, version: Version, body: Body, history: History, conflicts: seq<Doc>)

  const EMPTY := Doc("", NO_VERSION, Body(false, false, ""), [], [])

  /** The document without its bookkeeping. */
  function Stripped(d: Doc): Doc {
    d.(history := [], conflicts := [])
  }

  /** A document of object u whose body has no flags, for the examples. */
  function Sample(count: nat, data: string, history: History, conflicts: seq<Doc>): Doc {
    Doc("u", Version(count, data), Body(false, false, data), history, conflicts)
  }

  // ---- populateHistory -------------------------------------------------------------------------------------

  function AddHashes(h: History, count: nat, xs: seq<Hash>): History
    decreases |xs|
  {
    if xs == [] then h else AddHashes(WithAncestor(h, Version(count, xs[0])), count, xs[1..])
  }

  /** The versions of another history are added, from position i on. */
  function AddHistory(h: History, other: History, i: nat): History
    requires i <= |other|
    decreases |other| - i
  {
    if i == |other| then h else AddHistory(AddHashes(h, i + 1, Hashes(other[i])), other, i + 1)
  }

  function Remembered(h: History, d: Doc, includeCurrent: bool): History {
    var r := AddHistory(h, d.history, 0);
    if includeCurrent then WithAncestor(r, d.version) else r
  }

  method PopulateHistory(history: History, d: Doc, includeCurrent: bool) returns (h: History)
    ensures h == Remembered(history, d, includeCurrent)
  {
    h := history;
    var ii := 0;
    while ii < |d.history|
      invariant 0 <= ii <= |d.history| && AddHistory(h, d.history, ii) == AddHistory(history, d.history, 0)
    {
      var xs, jj, was := Hashes(d.history[ii]), 0, h;
      while jj < |xs|
        invariant 0 <= jj <= |xs| && AddHashes(h, ii + 1, xs[jj..]) == AddHashes(was, ii + 1, xs)
      {
        h := AddAncestor(h, Version(ii + 1, xs[jj]));
        assert xs[jj..][1..] == xs[jj + 1..];
        jj := jj + 1;
      }
      ii := ii + 1;
    }
    if includeCurrent {
      h := AddAncestor(h, d.version);
    }
  }

  lemma {:induction false} AddHashesKnows(h: History, count: nat, xs: seq<Hash>)
    requires Canonical(h) && count >= 1
    ensures Canonical(AddHashes(h, count, xs))
    ensures forall u :: Knows(AddHashes(h, count, xs), u) <==> Knows(h, u) || (u.count == count && u.hash in xs)
    decreases |xs|
  {
    hide WithAncestor, Canonical, Knows;
    if xs != [] {
      WithAncestorKnows(h, Version(count, xs[0]));
      AddHashesKnows(WithAncestor(h, Version(count, xs[0])), count, xs[1..]);
      assert xs == [xs[0]] + xs[1..];
    }
  }

  ghost predicate KnowsFrom(h: History, i: nat, u: Version) {
    i < u.count && Knows(h, u)
  }

  lemma {:induction false} AddHistoryKnows(h: History, other: History, i: nat)
    requires Canonical(h) && i <= |other|
    ensures Canonical(AddHistory(h, other, i))
    ensures forall u :: Knows(AddHistory(h, other, i), u) <==> Knows(h, u) || KnowsFrom(other, i, u)
    decreases |other| - i
  {
    hide AddHashes, Canonical, Knows, KnowsFrom, Hashes;
    KnowsPosition(other, i);
    if i < |other| {
      AddHashesKnows(h, i + 1, Hashes(other[i]));
      AddHistoryKnows(AddHashes(h, i + 1, Hashes(other[i])), other, i + 1);
    }
  }

  lemma KnowsPosition(h: History, i: nat)
    requires i <= |h|
    ensures i < |h| ==> forall u :: KnowsFrom(h, i, u) <==> KnowsFrom(h, i + 1, u) || (u.count == i + 1 && u.hash in Hashes(h[i]))
    ensures i == |h| ==> forall u :: !KnowsFrom(h, i, u)
  {
  }

  lemma KnowsAll(h: History)
    ensures forall u :: KnowsFrom(h, 0, u) <==> Knows(h, u)
  {
  }

  /** populateHistory adds the versions the document knows, and its own. */
  lemma RememberedKnows(h: History, d: Doc, includeCurrent: bool)
    requires Canonical(h)
    ensures Canonical(Remembered(h, d, includeCurrent))
    ensures forall u :: Knows(Remembered(h, d, includeCurrent), u) <==>
      Knows(h, u) || Knows(d.history, u) || (includeCurrent && u == d.version && u.count >= 1)
  {
    hide AddHistory, WithAncestor, Canonical, Knows;
    KnowsAll(d.history);
    AddHistoryKnows(h, d.history, 0);
    WithAncestorKnows(AddHistory(h, d.history, 0), d.version);
  }

  // ---- populateMerge ---------------------------------------------------------------------------------------

  ghost predicate Ordered(ds: seq<Doc>) {
    forall i, j :: 0 <= i < j < |ds| ==> Before(ds[i].version, ds[j].version)
  }

  /** Insertion in a map ordered by version: a document with a version that is there already is not taken. */
  function InsertDoc(ds: seq<Doc>, d: Doc): seq<Doc> {
    if ds == [] then [d]
    else if Before(d.version, ds[0].version) then [d] + ds
    else if Before(ds[0].version, d.version) then [ds[0]] + InsertDoc(ds[1..], d)
    else ds
  }

  /** The version is that of the content. */
  predicate Valid(d: Doc, hash: Body -> Hash) {
    d.version.count != 0 && hash(d.body) == d.version.hash
  }

  predicate Accepted(d: Doc, id: string, validate: bool, hash: Body -> Hash) {
    d.uuid == id && (validate ==> Valid(d, hash))
  }

  function WithConflicts(ds: seq<Doc>, id: string, cs: seq<Doc>, validate: bool, hash: Body -> Hash): seq<Doc>
    decreases |cs|
  {
    if cs == [] then ds
    else WithConflicts(if Accepted(cs[0], id, validate, hash) then InsertDoc(ds, cs[0]) else ds, id, cs[1..], validate, hash)
  }

  predicate AllAccepted(d: Doc, id: string, validate: bool, hash: Body -> Hash) {
    Accepted(d, id, validate, hash) && forall c :: c in d.conflicts ==> Accepted(c, id, validate, hash)
  }

  function WithSource(ds: seq<Doc>, id: string, d: Doc, validate: bool, hash: Body -> Hash): seq<Doc> {
    var r := WithConflicts(ds, id, d.conflicts, validate, hash);
    if AllAccepted(d, id, validate, hash) then InsertDoc(r, d) else r
  }

  method PopulateMerge(documents: seq<Doc>, id: string, source: Doc, validate: bool, hash: Body -> Hash)
    returns (ds: seq<Doc>, valid: bool)
    ensures ds == WithSource(documents, id, source, validate, hash)
    ensures valid <==> AllAccepted(source, id, validate, hash)
  {
    ds := documents;
    valid := Accepted(source, id, validate, hash);
    var ii := 0;
    while ii < |source.conflicts|
      invariant 0 <= ii <= |source.conflicts|
      invariant WithConflicts(ds, id, source.conflicts[ii..], validate, hash) == WithConflicts(documents, id, source.conflicts, validate, hash)
      invariant valid <==> Accepted(source, id, validate, hash) && forall c :: c in source.conflicts[..ii] ==> Accepted(c, id, validate, hash)
    {
      var c := source.conflicts[ii];
      assert source.conflicts[ii..][1..] == source.conflicts[ii + 1..];
      assert source.conflicts[..ii + 1] == source.conflicts[..ii] + [c];
      if Accepted(c, id, validate, hash) {
        ds := InsertDoc(ds, c);
      } else {
        valid := false;
      }
      ii := ii + 1;
    }
    assert source.conflicts[..ii] == source.conflicts;
    if valid {
      ds := InsertDoc(ds, source);
    }
  }

  lemma {:induction false} InsertDocOrdered(ds: seq<Doc>, d: Doc)
    requires Ordered(ds)
    ensures Ordered(InsertDoc(ds, d))
    ensures forall x :: x in InsertDoc(ds, d) ==> x in ds || x == d
    ensures forall x :: x in ds ==> x in InsertDoc(ds, d)
    ensures exists x :: x in InsertDoc(ds, d) && x.version == d.version
  {
    if ds == [] {
      assert d in InsertDoc(ds, d);
    } else {
      assert ds == [ds[0]] + ds[1..];
      BeforeIsTotal(d.version, ds[0].version);
      if Before(d.version, ds[0].version) {
        assert d in InsertDoc(ds, d);
        forall j | 0 <= j < |ds| ensures Before(d.version, ds[j].version) {
          if j > 0 {
            BeforeIsTransitive(d.version, ds[0].version, ds[j].version);
          }
        }
      } else if Before(ds[0].version, d.version) {
        InsertDocOrdered(ds[1..], d);
        var r := InsertDoc(ds[1..], d);
        forall j | 0 <= j < |r| ensures Before(ds[0].version, r[j].version) {
          assert r[j] in r;
          if r[j] in ds[1..] {
            var k :| 0 <= k < |ds[1..]| && ds[1..][k] == r[j];
            assert ds[k + 1] == r[j];
          }
        }
      } else {
        assert ds[0] in ds;
      }
    }
  }

  ghost predicate HasVersion(ds: seq<Doc>, v: Version) {
    exists x :: x in ds && x.version == v
  }

  lemma {:induction false} WithConflictsHas(ds: seq<Doc>, id: string, cs: seq<Doc>, validate: bool, hash: Body -> Hash)
    requires Ordered(ds)
    ensures var r := WithConflicts(ds, id, cs, validate, hash);
      && Ordered(r) && (forall x :: x in ds ==> x in r)
      && (forall x :: x in r ==> x in ds || (x in cs && Accepted(x, id, validate, hash)))
      && forall x :: x in cs && Accepted(x, id, validate, hash) ==> HasVersion(r, x.version)
    decreases |cs|
  {
    hide InsertDoc, Ordered, Accepted;
    if cs != [] {
      InsertDocOrdered(ds, cs[0]);
      var one := if Accepted(cs[0], id, validate, hash) then InsertDoc(ds, cs[0]) else ds;
      WithConflictsHas(one, id, cs[1..], validate, hash);
      assert cs == [cs[0]] + cs[1..];
    }
  }

  lemma WithSourceHas(ds: seq<Doc>, id: string, d: Doc, validate: bool, hash: Body -> Hash)
    requires Ordered(ds)
    ensures var r := WithSource(ds, id, d, validate, hash);
      && Ordered(r) && (forall x :: x in ds ==> x in r)
      && (forall x :: x in r ==> x in ds || ((x == d || x in d.conflicts) && Accepted(x, id, validate, hash)))
      && (forall x :: x in d.conflicts && Accepted(x, id, validate, hash) ==> HasVersion(r, x.version))
      && (AllAccepted(d, id, validate, hash) ==> HasVersion(r, d.version))
  {
    hide InsertDoc, Ordered, Accepted, WithConflicts;
    WithConflictsHas(ds, id, d.conflicts, validate, hash);
    InsertDocOrdered(WithConflicts(ds, id, d.conflicts, validate, hash), d);
  }

  // ---- what to keep and what to toss -----------------------------------------------------------------------

  /** A version is kept as a conflict unless it is deleted or a later document has replaced it. */
  predicate Alive(ds: seq<Doc>, i: nat)
    requires i < |ds|
  {
    !ds[i].body.deleted && forall j :: i < j < |ds| ==> !IsAncestorOf(ds[j].history, ds[i].version)
  }

  datatype Settlement = Settlement(history: History, conflicts: seq<Doc>)

  /** History and conflicts after the first n documents; the last of all is the head. */
  function Settled(ds: seq<Doc>, n: nat): Settlement
    requires n <= |ds|
  {
    if n == 0 then Settlement([], [])
    else
      var s, d := Settled(ds, n - 1), ds[n - 1];
      if n == |ds| then s.(history := Remembered(s.history, d, false))
      else if Alive(ds, n - 1) then s.(conflicts := s.conflicts + [Stripped(d)])
      else s.(history := Remembered(s.history, d, true))
  }

  function Resolved(ds: seq<Doc>): Doc
    requires ds != []
  {
    var s := Settled(ds, |ds|);
    ds[|ds| - 1].(history := s.history, conflicts := s.conflicts)
  }

  function MergeId(self: Doc, other: Doc): string {
    if self == EMPTY then other.uuid else self.uuid
  }

  /** All versions of both objects, in order and without duplicates. */
  function Documents(self: Doc, other: Doc, hash: Body -> Hash): seq<Doc> {
    var id := MergeId(self, other);
    WithSource(if self == EMPTY then [] else WithSource([], id, self, false, hash), id, other, true, hash)
  }

  predicate Mergeable(self: Doc, other: Doc, hash: Body -> Hash) {
    AllAccepted(other, MergeId(self, other), true, hash)
  }

  function Replicated(self: Doc, other: Doc, hash: Body -> Hash): Doc {
    var ds := Documents(self, other, hash);
    if Mergeable(self, other, hash) && ds != [] then Resolved(ds) else self
  }

  /** The versions of an object that a merge looks at: the object and its conflicts. */
  ghost predicate Part(self: Doc, d: Doc) {
    self != EMPTY && (d == self || d in self.conflicts)
  }

  /** What goes into a merge. */
  ghost predicate Input(self: Doc, other: Doc, d: Doc) {
    Part(self, d) || d == other || d in other.conflicts
  }

  /** The conflicts of an object are versions of the same document. */
  ghost predicate SameUuid(d: Doc) {
    forall c :: c in d.conflicts ==> c.uuid == d.uuid
  }

  lemma DocumentsHave(self: Doc, other: Doc, hash: Body -> Hash)
    requires Mergeable(self, other, hash) && SameUuid(self)
    ensures var ds := Documents(self, other, hash);
      && ds != [] && Ordered(ds)
      && (forall d :: Part(self, d) || d == other || d in other.conflicts ==> HasVersion(ds, d.version))
      && (forall d :: d in ds ==> d.uuid == MergeId(self, other) && (Part(self, d) || d == other || d in other.conflicts))
  {
    hide WithSource, Ordered, HasVersion, Valid;
    var id := MergeId(self, other);
    var mine := if self == EMPTY then [] else WithSource([], id, self, false, hash);
    assert Ordered([]) by { NoDocs(); }
    WithSourceHas([], id, self, false, hash);
    WithSourceHas(mine, id, other, true, hash);
    var ds := Documents(self, other, hash);
    forall d | Part(self, d) ensures HasVersion(ds, d.version) {
      assert HasVersion(mine, d.version);
      VersionStays(mine, ds, d.version);
    }
    NotEmpty(ds, other.version);
  }

  lemma NoDocs()
    ensures Ordered([])
  {
  }

  lemma NotEmpty(ds: seq<Doc>, v: Version)
    requires HasVersion(ds, v)
    ensures ds != []
  {
  }

  lemma VersionStays(a: seq<Doc>, b: seq<Doc>, v: Version)
    requires HasVersion(a, v) && forall x :: x in a ==> x in b
    ensures HasVersion(b, v)
  {
  }

  /** What makes a version known to the new history: a replaced document, or what a replaced document or the head knew. */
  ghost predicate Tells(ds: seq<Doc>, i: nat, u: Version)
    requires i < |ds|
  {
    if i + 1 == |ds| then Knows(ds[i].history, u)
    else !Alive(ds, i) && (Knows(ds[i].history, u) || (u == ds[i].version && u.count >= 1))
  }

  ghost predicate Told(ds: seq<Doc>, n: nat, u: Version)
    requires n <= |ds|
  {
    exists i :: 0 <= i < n && Tells(ds, i, u)
  }

  lemma {:induction false} SettledHistory(ds: seq<Doc>, n: nat)
    requires n <= |ds|
    ensures Canonical(Settled(ds, n).history)
    ensures forall u :: Knows(Settled(ds, n).history, u) <==> Told(ds, n, u)
  {
    hide Canonical, Knows, Remembered, Alive;
    if n == 0 {
      EmptyHistory();
    } else {
      SettledHistory(ds, n - 1);
      var s := Settled(ds, n - 1);
      RememberedKnows(s.history, ds[n - 1], n < |ds|);
      forall u ensures Told(ds, n, u) <==> Told(ds, n - 1, u) || Tells(ds, n - 1, u) {
      }
    }
  }

  lemma EmptyHistory()
    ensures Canonical([]) && forall u :: !Knows([], u)
  {
  }

  ghost predicate Kept(ds: seq<Doc>, i: nat)
    requires i < |ds|
  {
    i + 1 < |ds| && Alive(ds, i)
  }

  lemma {:induction false} SettledConflicts(ds: seq<Doc>, n: nat)
    requires n <= |ds| && Ordered(ds)
    ensures var cs := Settled(ds, n).conflicts;
      && Ordered(cs) && (forall c :: c in cs <==> exists i :: 0 <= i < n && Kept(ds, i) && c == Stripped(ds[i]))
      && forall c :: c in cs && n < |ds| ==> Before(c.version, ds[n].version)
  {
    hide Remembered, Alive;
    if n > 0 {
      SettledConflicts(ds, n - 1);
      var cs, before := Settled(ds, n).conflicts, Settled(ds, n - 1).conflicts;
      var d := ds[n - 1];
      assert cs == if Kept(ds, n - 1) then before + [Stripped(d)] else before;
      forall c | c in cs && n < |ds| ensures Before(c.version, ds[n].version) {
        if c in before {
          BeforeIsTransitive(c.version, d.version, ds[n].version);
        }
      }
      forall c ensures c in cs <==> exists i :: 0 <= i < n && Kept(ds, i) && c == Stripped(ds[i]) {
        assert c in cs <==> c in before || (Kept(ds, n - 1) && c == Stripped(d));
      }
      forall i, j | 0 <= i < j < |cs| ensures Before(cs[i].version, cs[j].version) {
        if j == |before| {
          assert cs[i] in before;
        }
      }
    }
  }

  // ---- what a merge keeps ----------------------------------------------------------------------------------

  ghost predicate InConflicts(d: Doc, v: Version) {
    exists c :: c in d.conflicts && c.version == v
  }

  /** No version is lost: after a merge every version of both sides is the head, a conflict or in the history. */
  lemma MergeAccounts(self: Doc, other: Doc, hash: Body -> Hash, d: Doc)
    requires Mergeable(self, other, hash) && SameUuid(self)
    requires (Part(self, d) || d == other || d in other.conflicts) && d.version.count >= 1
    ensures var r := Replicated(self, other, hash);
      d.version == r.version || InConflicts(r, d.version) || Knows(r.history, d.version)
  {
    hide Ordered, Alive, Settled, Documents, Knows, Part;
    var ds := Documents(self, other, hash);
    DocumentsHave(self, other, hash);
    assert HasVersion(ds, d.version);
    var x :| x in ds && x.version == d.version;
    var i :| 0 <= i < |ds| && ds[i] == x;
    SettledHistory(ds, |ds|);
    SettledConflicts(ds, |ds|);
    if i + 1 < |ds| {
      if Alive(ds, i) {
        assert Kept(ds, i);
        assert Stripped(ds[i]) in Settled(ds, |ds|).conflicts;
      } else {
        assert Tells(ds, i, d.version);
        assert Told(ds, |ds|, d.version);
      }
    }
  }

  /** The conflicts after a merge are in order, below the head, alive, and no ancestors of a later version. */
  lemma MergeConflicts(self: Doc, other: Doc, hash: Body -> Hash)
    requires Mergeable(self, other, hash) && SameUuid(self)
    ensures var r, ds := Replicated(self, other, hash), Documents(self, other, hash);
      && Ordered(r.conflicts) && Canonical(r.history) && SameUuid(r) && r.uuid == MergeId(self, other)
      && (forall c :: c in r.conflicts ==>
            && Before(c.version, r.version) && !c.body.deleted && c.history == [] && c.conflicts == []
            && forall x :: x in ds && Before(c.version, x.version) ==> !IsAncestorOf(x.history, c.version))
  {
    hide Documents, Canonical, Settled, Alive, Ordered, Mergeable;
    var ds := Documents(self, other, hash);
    DocumentsHave(self, other, hash);
    SettledHistory(ds, |ds|);
    SettledConflicts(ds, |ds|);
    var r := Replicated(self, other, hash);
    assert ds[|ds| - 1] in ds;
    forall c | c in r.conflicts
      ensures Before(c.version, r.version) && !c.body.deleted && c.history == [] && c.conflicts == [] && c.uuid == r.uuid
      ensures forall x :: x in ds && Before(c.version, x.version) ==> !IsAncestorOf(x.history, c.version)
    {
      var i :| 0 <= i < |ds| && Kept(ds, i) && c == Stripped(ds[i]);
      assert ds[i] in ds;
      KeptIsAlive(ds, i);
    }
  }

  lemma KeptIsAlive(ds: seq<Doc>, i: nat)
    requires Ordered(ds) && i < |ds| && Kept(ds, i)
    ensures Before(ds[i].version, ds[|ds| - 1].version) && !ds[i].body.deleted
    ensures forall x :: x in ds && Before(ds[i].version, x.version) ==> !IsAncestorOf(x.history, ds[i].version)
  {
    forall x | x in ds && Before(ds[i].version, x.version) ensures !IsAncestorOf(x.history, ds[i].version) {
      var j :| 0 <= j < |ds| && ds[j] == x;
      BeforeIsTotal(ds[i].version, ds[j].version);
      assert j > i;
    }
  }

  /** One and the same version of a document, whatever else is known of it. */
  ghost predicate SameVersion(c: Doc, d: Doc) {
    c.uuid == d.uuid && c.version == d.version && c.body == d.body
  }

  /** The head after a merge is a version that went in, with its content, and so is each conflict. A merge that is refused
      changes nothing. */
  lemma MergeTakesContent(self: Doc, other: Doc, hash: Body -> Hash)
    requires SameUuid(self)
    ensures var r := Replicated(self, other, hash);
      if Mergeable(self, other, hash) then
        && (exists d :: Input(self, other, d) && SameVersion(r, d))
        && forall c :: c in r.conflicts ==> exists d :: Input(self, other, d) && SameVersion(c, d)
      else r == self
  {
    hide Documents, Settled, Alive, Ordered, Mergeable, Part;
    if Mergeable(self, other, hash) {
      var ds, r := Documents(self, other, hash), Replicated(self, other, hash);
      DocumentsHave(self, other, hash);
      SettledConflicts(ds, |ds|);
      assert ds[|ds| - 1] in ds && SameVersion(r, ds[|ds| - 1]);
      forall c | c in r.conflicts ensures exists d :: Input(self, other, d) && SameVersion(c, d) {
        var i :| 0 <= i < |ds| && Kept(ds, i) && c == Stripped(ds[i]);
        assert ds[i] in ds && SameVersion(c, ds[i]);
      }
    }
  }

  /** So a version above all others that go in is the head, with its content. */
  lemma HighestContentWins(self: Doc, other: Doc, hash: Body -> Hash, d: Doc)
    requires Mergeable(self, other, hash) && SameUuid(self) && Input(self, other, d)
    requires forall e :: Input(self, other, e) && e != d ==> Before(e.version, d.version)
    ensures SameVersion(Replicated(self, other, hash), d)
  {
    hide Replicated, Mergeable, Part, VersionsOf;
    var r := Replicated(self, other, hash);
    MergeTakesContent(self, other, hash);
    MergeTakesHighest(self, other, hash);
    var e :| Input(self, other, e) && SameVersion(r, e);
    InputIsVersion(self, other, d);
    BeforeIsTotal(d.version, r.version);
  }

  lemma InputIsVersion(self: Doc, other: Doc, d: Doc)
    requires Input(self, other, d)
    ensures d.version in VersionsOf(other) + if self == EMPTY then iset{} else VersionsOf(self)
  {
  }

  /** What the object has of the highest version stays, whatever the other has of it. */
  lemma OwnContentStays(self: Doc, other: Doc, hash: Body -> Hash, d: Doc)
    requires Mergeable(self, other, hash) && SameUuid(self) && Part(self, d) && d.version == Replicated(self, other, hash).version
    ensures exists e :: Part(self, e) && SameVersion(Replicated(self, other, hash), e)
  {
    hide WithSource, Ordered, HasVersion, Valid, Settled;
    var id := MergeId(self, other);
    var mine, ds := WithSource([], id, self, false, hash), Documents(self, other, hash);
    NoDocs();
    WithSourceHas([], id, self, false, hash);
    WithSourceHas(mine, id, other, true, hash);
    DocumentsHave(self, other, hash);
    assert HasVersion(mine, d.version);
    var x := WithVersion(mine, d.version);
    assert x in ds;
    var i :| 0 <= i < |ds| && ds[i] == x;
    OneOfVersion(ds, i, |ds| - 1);
    assert Part(self, x) && SameVersion(Replicated(self, other, hash), x);
  }

  lemma WithVersion(ds: seq<Doc>, v: Version) returns (x: Doc)
    requires HasVersion(ds, v)
    ensures x in ds && x.version == v
  {
    x :| x in ds && x.version == v;
  }

  lemma OneOfVersion(ds: seq<Doc>, i: nat, k: nat)
    requires Ordered(ds) && i < |ds| && k < |ds| && ds[i].version == ds[k].version
    ensures i == k
  {
    BeforeIsTotal(ds[i].version, ds[k].version);
  }

  lemma StrippedIs(d: Doc)
    ensures Stripped(d).version == d.version
  {
  }

  /** Of the merged documents the head is the last, and the conflicts those that are alive. */
  lemma AliveIsConflict(self: Doc, other: Doc, hash: Body -> Hash, i: nat)
    requires Mergeable(self, other, hash) && SameUuid(self) && i < |Documents(self, other, hash)|
    ensures var r, ds := Replicated(self, other, hash), Documents(self, other, hash);
      && ds[i] in ds && (ds[i].version == r.version <==> i + 1 == |ds|)
      && (InConflicts(r, ds[i].version) <==> i + 1 < |ds| && Alive(ds, i))
  {
    hide Documents, Settled, Ordered, Mergeable, Stripped, Alive;
    var ds, r := Documents(self, other, hash), Replicated(self, other, hash);
    DocumentsHave(self, other, hash);
    SettledConflicts(ds, |ds|);
    if ds[i].version == r.version {
      OneOfVersion(ds, i, |ds| - 1);
    }
    StrippedIs(ds[i]);
    if i + 1 < |ds| && Alive(ds, i) {
      assert Kept(ds, i) && Stripped(ds[i]) in r.conflicts;
    }
    if InConflicts(r, ds[i].version) {
      var c :| c in r.conflicts && c.version == ds[i].version;
      var k :| 0 <= k < |ds| && Kept(ds, k) && c == Stripped(ds[k]);
      StrippedIs(ds[k]);
      OneOfVersion(ds, i, k);
    }
  }

  lemma AliveMeans(ds: seq<Doc>, i: nat)
    requires Ordered(ds) && i < |ds|
    ensures Alive(ds, i) <==>
      !ds[i].body.deleted && forall x :: x in ds && Before(ds[i].version, x.version) ==> !IsAncestorOf(x.history, ds[i].version)
  {
    hide IsAncestorOf;
    forall x | x in ds && Before(ds[i].version, x.version) ensures exists j :: i < j < |ds| && ds[j] == x {
      var j :| 0 <= j < |ds| && ds[j] == x;
      BeforeIsTotal(ds[i].version, ds[j].version);
    }
  }

  /** Of the versions that are merged exactly those are conflicts that are not the head, not deleted and no ancestor of a later
      one. */
  lemma ConflictsAreUnreplaced(self: Doc, other: Doc, hash: Body -> Hash, d: Doc)
    requires Mergeable(self, other, hash) && SameUuid(self) && d in Documents(self, other, hash)
    ensures var r, ds := Replicated(self, other, hash), Documents(self, other, hash);
      InConflicts(r, d.version) <==>
        && d.version != r.version && !d.body.deleted
        && forall x :: x in ds && Before(d.version, x.version) ==> !IsAncestorOf(x.history, d.version)
  {
    hide Documents, Replicated, Ordered, Mergeable, Alive, InConflicts;
    var ds := Documents(self, other, hash);
    DocumentsHave(self, other, hash);
    var i :| 0 <= i < |ds| && ds[i] == d;
    AliveIsConflict(self, other, hash, i);
    AliveMeans(ds, i);
  }

  /** A merged document tells the head of a version that it knows, or of its own. */
  ghost predicate TellsOf(r: Doc, d: Doc, u: Version) {
    Knows(d.history, u) || (u == d.version != r.version && u.count >= 1)
  }

  /** The history after a merge has what the head knew, and the replaced versions with what these knew, and nothing else. */
  lemma MergeHistory(self: Doc, other: Doc, hash: Body -> Hash, u: Version)
    requires Mergeable(self, other, hash) && SameUuid(self)
    ensures var r, ds := Replicated(self, other, hash), Documents(self, other, hash);
      Knows(r.history, u) <==> exists d :: d in ds && !InConflicts(r, d.version) && TellsOf(r, d, u)
  {
    hide Documents, Settled, Ordered, Mergeable, Knows, Alive, InConflicts;
    var ds, r := Documents(self, other, hash), Replicated(self, other, hash);
    DocumentsHave(self, other, hash);
    SettledHistory(ds, |ds|);
    if Told(ds, |ds|, u) {
      var i :| 0 <= i < |ds| && Tells(ds, i, u);
      AliveIsConflict(self, other, hash, i);
      assert ds[i] in ds && TellsOf(r, ds[i], u);
    }
    if d :| d in ds && !InConflicts(r, d.version) && TellsOf(r, d, u) {
      var i :| 0 <= i < |ds| && ds[i] == d;
      AliveIsConflict(self, other, hash, i);
      assert Tells(ds, i, u);
    }
  }

  /** Every version is the hash of its content. */
  ghost predicate Authentic(d: Doc, hash: Body -> Hash) {
    && d.version.count >= 1 && d.version.hash == hash(d.body)
    && forall c :: c in d.conflicts ==> c.version.count >= 1 && c.version.hash == hash(c.body)
  }

  /** Merges keep that, and take in nothing else. */
  lemma MergeIsAuthentic(self: Doc, other: Doc, hash: Body -> Hash)
    requires Mergeable(self, other, hash) && SameUuid(self) && (self == EMPTY || Authentic(self, hash))
    ensures Authentic(other, hash) && Authentic(Replicated(self, other, hash), hash)
  {
    hide Replicated;
    MergeTakesContent(self, other, hash);
    assert Accepted(other, MergeId(self, other), true, hash);
    assert forall c :: c in other.conflicts ==> Accepted(c, MergeId(self, other), true, hash);
  }

  // ---- convergence -----------------------------------------------------------------------------------------

  /** v is the highest version among those of a set. */
  ghost predicate Highest(v: Version, vs: iset<Version>) {
    v in vs && forall u :: u in vs ==> u == v || Before(u, v)
  }

  lemma HighestIsUnique(v: Version, w: Version, vs: iset<Version>)
    requires Highest(v, vs) && Highest(w, vs)
    ensures v == w
  {
    BeforeIsTotal(v, w);
  }

  ghost function VersionsOf(d: Doc): iset<Version> {
    iset v | v == d.version || InConflicts(d, v)
  }

  /** The head after a merge is the highest version of both sides. */
  lemma MergeTakesHighest(self: Doc, other: Doc, hash: Body -> Hash)
    requires Mergeable(self, other, hash) && SameUuid(self)
    ensures var r := Replicated(self, other, hash);
      Highest(r.version, VersionsOf(other) + if self == EMPTY then iset{} else VersionsOf(self))
  {
    hide Documents, Settled, Mergeable;
    var ds := Documents(self, other, hash);
    DocumentsHave(self, other, hash);
    var r, vs := Replicated(self, other, hash), VersionsOf(other) + if self == EMPTY then iset{} else VersionsOf(self);
    assert ds[|ds| - 1] in ds;
    forall u | u in vs ensures u == r.version || Before(u, r.version) {
      assert HasVersion(ds, u);
      var x :| x in ds && x.version == u;
      var i :| 0 <= i < |ds| && ds[i] == x;
    }
  }

  /** What an object knows of: its head is its highest version. */
  ghost predicate HeadIsHighest(d: Doc) {
    Highest(d.version, VersionsOf(d))
  }

  /** A run of merges, none of them refused. */
  ghost predicate MergeRun(states: seq<Doc>, others: seq<Doc>, hash: Body -> Hash) {
    && |states| == |others| + 1 && SameUuid(states[0])
    && (forall i :: 0 <= i < |states| ==> states[i] != EMPTY)
    && forall i :: 0 <= i < |others| ==> Merged(states[i], others[i], states[i + 1], hash)
  }

  ghost predicate Merged(before: Doc, other: Doc, after: Doc, hash: Body -> Hash) {
    Mergeable(before, other, hash) && after == Replicated(before, other, hash)
  }

  /** The versions that went into a run. */
  ghost function RunVersions(start: Doc, others: seq<Doc>, n: nat): iset<Version>
    requires n <= |others|
  {
    VersionsOf(start) + iset v | Brought(others, n, v)
  }

  ghost predicate Brought(others: seq<Doc>, n: nat, v: Version)
    requires n <= |others|
  {
    exists i :: 0 <= i < n && v in VersionsOf(others[i])
  }

  /** After any run of merges the head is the highest of all versions that went in. */
  lemma {:induction false} RunTakesHighest(states: seq<Doc>, others: seq<Doc>, hash: Body -> Hash, n: nat)
    requires MergeRun(states, others, hash) && n <= |others| && HeadIsHighest(states[0])
    ensures Highest(states[n].version, RunVersions(states[0], others, n)) && SameUuid(states[n])
    ensures forall v :: v in VersionsOf(states[n]) ==> v in RunVersions(states[0], others, n)
  {
    hide Replicated, Mergeable, VersionsOf;
    if n > 0 {
      var a, b, r := states[n - 1], others[n - 1], states[n];
      assert Merged(a, b, r, hash) && a != EMPTY;
      RunTakesHighest(states, others, hash, n - 1);
      MergeTakesHighest(a, b, hash);
      MergeConflicts(a, b, hash);
      MergeAddsNothing(a, b, hash);
      HeadIsThere(a);
      forall v | v in RunVersions(states[0], others, n) ensures v == r.version || Before(v, r.version) {
        if v !in VersionsOf(b) {
          assert v in RunVersions(states[0], others, n - 1);
          assert a.version == r.version || Before(a.version, r.version);
          if Before(v, a.version) && Before(a.version, r.version) {
            BeforeIsTransitive(v, a.version, r.version);
          }
        }
      }
    } else {
      NothingMerged(states[0], others);
    }
  }

  lemma NothingMerged(start: Doc, others: seq<Doc>)
    ensures RunVersions(start, others, 0) == VersionsOf(start)
  {
  }

  lemma HeadIsThere(d: Doc)
    ensures d.version in VersionsOf(d)
  {
  }

  lemma MergeAddsNothing(self: Doc, other: Doc, hash: Body -> Hash)
    requires Mergeable(self, other, hash) && SameUuid(self) && self != EMPTY
    ensures forall v :: v in VersionsOf(Replicated(self, other, hash)) ==> v in VersionsOf(self) + VersionsOf(other)
  {
    hide Documents, Settled, Alive, Mergeable;
    var ds := Documents(self, other, hash);
    DocumentsHave(self, other, hash);
    SettledConflicts(ds, |ds|);
    assert ds[|ds| - 1] in ds;
    var r := Replicated(self, other, hash);
    forall c | c in r.conflicts ensures c.version in VersionsOf(self) + VersionsOf(other) {
      var i :| 0 <= i < |ds| && Kept(ds, i) && c == Stripped(ds[i]);
      assert ds[i] in ds;
    }
  }

  /** Two runs that start from the same object and merge the same versions, in any order and any number of times, end with
      the same head. */
  lemma RunsConverge(a: seq<Doc>, as': seq<Doc>, b: seq<Doc>, bs: seq<Doc>, hash: Body -> Hash)
    requires MergeRun(a, as', hash) && MergeRun(b, bs, hash) && a[0] == b[0] && HeadIsHighest(a[0])
    requires forall x :: x in as' <==> x in bs
    ensures a[|as'|].version == b[|bs|].version
  {
    hide Merged, HeadIsHighest, VersionsOf, Highest, RunVersions;
    RunTakesHighest(a, as', hash, |as'|);
    RunTakesHighest(b, bs, hash, |bs|);
    SameRunVersions(a[0], as', bs);
    HighestIsUnique(a[|as'|].version, b[|bs|].version, RunVersions(a[0], as', |as'|));
  }

  lemma SameRunVersions(start: Doc, a: seq<Doc>, b: seq<Doc>)
    requires forall x :: x in a <==> x in b
    ensures RunVersions(start, a, |a|) == RunVersions(start, b, |b|)
  {
    forall v ensures Brought(a, |a|, v) <==> Brought(b, |b|, v) {
      BroughtToo(a, b, v);
      BroughtToo(b, a, v);
    }
  }

  lemma BroughtToo(a: seq<Doc>, b: seq<Doc>, v: Version)
    requires forall x :: x in a ==> x in b
    ensures Brought(a, |a|, v) ==> Brought(b, |b|, v)
  {
    if Brought(a, |a|, v) {
      var i :| 0 <= i < |a| && v in VersionsOf(a[i]);
      assert a[i] in b;
      var j :| 0 <= j < |b| && b[j] == a[i];
    }
  }

  // ---- idempotence -----------------------------------------------------------------------------------------

  /** A document knows only versions older than its own. */
  ghost predicate OlderHistory(d: Doc) {
    forall u :: Knows(d.history, u) ==> Before(u, d.version)
  }

  /** No conflict is known to the new history. */
  lemma ConflictsUnknown(ds: seq<Doc>, k: nat)
    requires Ordered(ds) && ds != [] && k < |ds| && Kept(ds, k) && forall d :: d in ds ==> OlderHistory(d)
    ensures !Knows(Resolved(ds).history, ds[k].version)
  {
    hide Knows, Settled;
    var u := ds[k].version;
    SettledHistory(ds, |ds|);
    if Told(ds, |ds|, u) {
      var i :| 0 <= i < |ds| && Tells(ds, i, u);
      assert ds[i] in ds;
      BeforeIsTotal(u, ds[i].version);
      AncestorIsMember(ds[i].history, u);
      assert false;
    }
  }

  lemma {:induction false} InsertKnown(ds: seq<Doc>, d: Doc)
    requires Ordered(ds) && HasVersion(ds, d.version)
    ensures InsertDoc(ds, d) == ds
  {
    if ds != [] {
      BeforeIsTotal(ds[0].version, d.version);
      assert ds == [ds[0]] + ds[1..];
      var x :| x in ds && x.version == d.version;
      var k :| 0 <= k < |ds| && ds[k] == x;
      if k > 0 {
        assert ds[1..][k - 1] == x;
        InsertKnown(ds[1..], d);
      }
    }
  }

  lemma {:induction false} FoldKnown(ds: seq<Doc>, id: string, cs: seq<Doc>, validate: bool, hash: Body -> Hash)
    requires Ordered(ds) && forall c :: c in cs ==> HasVersion(ds, c.version)
    ensures WithConflicts(ds, id, cs, validate, hash) == ds
    decreases |cs|
  {
    if cs != [] {
      InsertKnown(ds, cs[0]);
      FoldKnown(ds, id, cs[1..], validate, hash);
    }
  }

  lemma {:induction false} InsertLast(ds: seq<Doc>, d: Doc)
    requires Ordered(ds + [d])
    ensures InsertDoc(ds, d) == ds + [d]
  {
    if ds != [] {
      assert (ds + [d])[|ds|] == d && (ds + [d])[0] == ds[0];
      BeforeIsTotal(ds[0].version, d.version);
      assert forall i :: 0 <= i < |ds[1..] + [d]| ==> (ds[1..] + [d])[i] == (ds + [d])[i + 1];
      InsertLast(ds[1..], d);
    }
  }

  lemma {:induction false} FoldAppends(ds: seq<Doc>, id: string, cs: seq<Doc>, hash: Body -> Hash)
    requires Ordered(ds + cs) && forall c :: c in cs ==> c.uuid == id
    ensures WithConflicts(ds, id, cs, false, hash) == ds + cs
    decreases |cs|
  {
    if cs != [] {
      assert ds + cs == (ds + [cs[0]]) + cs[1..];
      assert forall i :: 0 <= i < |ds + [cs[0]]| ==> (ds + [cs[0]])[i] == (ds + cs)[i];
      InsertLast(ds, cs[0]);
      FoldAppends(ds + [cs[0]], id, cs[1..], hash);
    }
  }

  /** Merged with itself, an object whose conflicts are in order and below it has just its own versions. */
  lemma OwnDocuments(r: Doc, hash: Body -> Hash)
    requires r != EMPTY && SameUuid(r) && Ordered(r.conflicts + [r])
    ensures Documents(r, r, hash) == r.conflicts + [r]
  {
    hide InsertDoc, WithConflicts, HasVersion, Ordered;
    var ds := r.conflicts + [r];
    assert [] + r.conflicts == r.conflicts;
    OrderedFront(r.conflicts, r);
    FoldAppends([], r.uuid, r.conflicts, hash);
    InsertLast(r.conflicts, r);
    VersionsHere(r.conflicts, r);
    FoldKnown(ds, r.uuid, r.conflicts, true, hash);
    InsertKnown(ds, r);
  }

  lemma OrderedFront(ds: seq<Doc>, d: Doc)
    requires Ordered(ds + [d])
    ensures Ordered(ds)
  {
    assert forall i :: 0 <= i < |ds| ==> ds[i] == (ds + [d])[i];
  }

  lemma VersionsHere(ds: seq<Doc>, d: Doc)
    ensures HasVersion(ds + [d], d.version) && forall c :: c in ds ==> HasVersion(ds + [d], c.version)
  {
    assert (ds + [d])[|ds|] in ds + [d];
    forall c | c in ds ensures HasVersion(ds + [d], c.version) {
      assert c in ds + [d];
    }
  }

  lemma {:induction false} OwnConflictsStay(r: Doc, n: nat)
    requires n <= |r.conflicts| && forall c :: c in r.conflicts ==>
      !c.body.deleted && c.history == [] && c.conflicts == [] && !Knows(r.history, c.version)
    ensures Settled(r.conflicts + [r], n) == Settlement([], r.conflicts[..n])
  {
    hide Alive, Knows, Remembered;
    if n > 0 {
      OwnConflictsStay(r, n - 1);
      var ds, c := r.conflicts + [r], r.conflicts[n - 1];
      assert ds[n - 1] == c && c in r.conflicts && Stripped(c) == c;
      OwnConflictAlive(r, n - 1);
      assert r.conflicts[..n] == r.conflicts[..n - 1] + [c];
    } else {
      assert r.conflicts[..0] == [];
    }
  }

  lemma OwnConflictAlive(r: Doc, k: nat)
    requires k < |r.conflicts| && !Knows(r.history, r.conflicts[k].version)
    requires forall c :: c in r.conflicts ==> !c.body.deleted && c.history == []
    ensures Alive(r.conflicts + [r], k)
  {
    hide Knows;
    var ds, c := r.conflicts + [r], r.conflicts[k];
    AncestorIsMember(r.history, c.version);
    forall j | k < j < |ds| ensures !IsAncestorOf(ds[j].history, c.version) {
      if j < |r.conflicts| {
        assert ds[j] in r.conflicts;
      }
    }
  }

  /** What a merge leaves: conflicts in order, below the head, stripped and not deleted. */
  ghost predicate MergeForm(r: Doc) {
    && r != EMPTY && SameUuid(r) && Ordered(r.conflicts + [r]) && Canonical(r.history)
    && forall c :: c in r.conflicts ==> !c.body.deleted && c.history == [] && c.conflicts == []
  }

  /** Merging such an object with itself changes nothing exactly when its history knows none of its conflicts. */
  lemma SelfMergeIff(r: Doc, hash: Body -> Hash)
    requires MergeForm(r) && Mergeable(r, r, hash)
    ensures Replicated(r, r, hash) == r <==> forall c :: c in r.conflicts ==> !Knows(r.history, c.version)
  {
    hide Documents, Settled, Canonical, Knows, Ordered, Mergeable;
    OwnDocuments(r, hash);
    if forall c :: c in r.conflicts ==> !Knows(r.history, c.version) {
      OwnConflictsStay(r, |r.conflicts|);
      SelfMerge(r, hash);
    } else {
      var c :| c in r.conflicts && Knows(r.history, c.version);
      KnownConflictGoes(r, c, hash);
    }
  }

  lemma KnownConflictGoes(r: Doc, c: Doc, hash: Body -> Hash)
    requires Ordered(r.conflicts + [r]) && Documents(r, r, hash) == r.conflicts + [r] && Mergeable(r, r, hash)
    requires c in r.conflicts && Knows(r.history, c.version)
    ensures c !in Replicated(r, r, hash).conflicts
  {
    hide Documents, Settled, Knows, Mergeable;
    var ds := r.conflicts + [r];
    SettledConflicts(ds, |ds|);
    AncestorIsMember(r.history, c.version);
    assert ds[|ds| - 1] == r;
    forall i | 0 <= i < |ds| && Kept(ds, i) ensures c != Stripped(ds[i]) {
      var k :| 0 <= k < |r.conflicts| && r.conflicts[k] == c;
      assert ds[k] == c;
      BeforeIsTotal(c.version, ds[i].version);
      assert !Alive(ds, k);
    }
  }

  lemma MergeSettles(self: Doc, other: Doc, hash: Body -> Hash)
    requires Mergeable(self, other, hash) && SameUuid(self) && Replicated(self, other, hash) != EMPTY
    ensures MergeForm(Replicated(self, other, hash))
  {
    hide Documents, Canonical, Replicated, Mergeable;
    MergeConflicts(self, other, hash);
    var r := Replicated(self, other, hash);
    forall i, j | 0 <= i < j < |r.conflicts + [r]| ensures Before((r.conflicts + [r])[i].version, (r.conflicts + [r])[j].version) {
      assert r.conflicts[i] in r.conflicts;
    }
  }

  /** Merging the result of a merge with itself changes nothing, when histories hold only older versions. */
  lemma MergeIsIdempotent(self: Doc, other: Doc, hash: Body -> Hash)
    requires Mergeable(self, other, hash) && SameUuid(self)
    requires forall d :: d in Documents(self, other, hash) ==> OlderHistory(d)
    ensures var r := Replicated(self, other, hash); Replicated(r, r, hash) == r
  {
    hide Documents, Settled, Alive, Canonical, Knows, OlderHistory, Remembered, MergeForm, Ordered;
    var ds, r := Documents(self, other, hash), Replicated(self, other, hash);
    DocumentsHave(self, other, hash);
    if Mergeable(r, r, hash) {
      SettledConflicts(ds, |ds|);
      forall c | c in r.conflicts ensures !Knows(r.history, c.version) {
        var k :| 0 <= k < |ds| && Kept(ds, k) && c == Stripped(ds[k]);
        ConflictsUnknown(ds, k);
      }
      MergeSettles(self, other, hash);
      SelfMergeIff(r, hash);
    }
  }

  /** A head with a conflict, and a tombstone below both whose history names the conflict. */
  function OddHead(): Doc {
    Sample(3, "c", [], [Sample(2, "x", [], [])])
  }

  function OddTombstone(): Doc {
    Sample(1, "t", [Null, One("x")], []).(body := Body(true, false, "t"))
  }

  lemma OddDocuments()
    ensures var d, t, hash := OddHead(), OddTombstone(), (b: Body) => b.data;
      Mergeable(d, t, hash) && SameUuid(d) && Documents(d, t, hash) == [t, d.conflicts[0], d]
  {
    var d, t, hash := OddHead(), OddTombstone(), (b: Body) => b.data;
    var x := d.conflicts[0];
    assert d.conflicts == [x] && [x][1..] == [] && t.conflicts == [];
    assert InsertDoc([x], d) == [x] + InsertDoc([], d);
    assert WithConflicts([], "u", [x], false, hash) == InsertDoc([], x);
    assert WithSource([], "u", d, false, hash) == [x, d];
  }

  /** The merge of the two keeps the conflict although its history knows it, and loses it when merged with itself: where
      histories hold newer versions, merging is not idempotent. */
  lemma SelfMergeChanges()
    ensures var d, t, hash := OddHead(), OddTombstone(), (b: Body) => b.data;
      var r := Replicated(d, t, hash);
      && Mergeable(d, t, hash) && MergeForm(r) && d.conflicts[0] in r.conflicts && Knows(r.history, d.conflicts[0].version)
      && Mergeable(r, r, hash) && d.conflicts[0] !in Replicated(r, r, hash).conflicts
  {
    hide Documents, Settled;
    var d, t, hash := OddHead(), OddTombstone(), (b: Body) => b.data;
    var ds, x, r := [t, d.conflicts[0], d], d.conflicts[0], Replicated(d, t, hash);
    OddDocuments();
    assert Ordered(ds) && Kept(ds, 1) && Stripped(ds[1]) == x;
    assert Tells(ds, 0, x.version);
    SettledHistory(ds, 3);
    SettledConflicts(ds, 3);
    MergeSettles(d, t, hash);
    forall c | c in r.conflicts ensures c == x {
      var i :| 0 <= i < 3 && Kept(ds, i) && c == Stripped(ds[i]);
    }
    OwnDocuments(r, hash);
    KnownConflictGoes(r, x, hash);
  }

  lemma SelfMerge(r: Doc, hash: Body -> Hash)
    requires Mergeable(r, r, hash) && Documents(r, r, hash) == r.conflicts + [r] && Canonical(r.history)
    requires Settled(r.conflicts + [r], |r.conflicts|) == Settlement([], r.conflicts[..|r.conflicts|])
    ensures Replicated(r, r, hash) == r
  {
    hide Documents, Alive, Canonical, Knows, Remembered, Mergeable;
    var ds := r.conflicts + [r];
    assert ds[|r.conflicts|] == r && r.conflicts[..|r.conflicts|] == r.conflicts;
    EmptyHistory();
    RememberedKnows([], r, false);
    CanonicalIsUnique(Remembered([], r, false), r.history);
  }

  // ---- optimistic writes -----------------------------------------------------------------------------------

  /** A write whose content hash is that of the version it names is a replay of that version. */
  predicate IsReplay(other: Doc, hash: Body -> Hash) {
    hash(other.body) == other.version.hash
  }

  /** The version a write stands for. */
  function Written(other: Doc, hash: Body -> Hash): Version {
    if IsReplay(other, hash) then other.version else Version(other.version.count + 1, hash(other.body))
  }

  /** The conflicts left when those of a version are removed while the list is walked: the one after a removed one is
      skipped. */
  function ConflictsLeft(cs: seq<Doc>, v: Version, i: nat): seq<Doc>
    decreases |cs| - i
  {
    if i >= |cs| then cs
    else if cs[i].version == v then ConflictsLeft(cs[..i] + cs[i + 1..], v, i + 1)
    else ConflictsLeft(cs, v, i + 1)
  }

  /** The new bookkeeping. Where conflicts are left the history is stored in their place, so that each comes back as an
      empty object. */
  function Booked(d: Doc, h: History, cs: seq<Doc>, track: bool): Doc {
    d.(history := if track then h else [], conflicts := if cs == [] then [] else seq(|h|, i => EMPTY))
  }

  datatype Write = Write(doc: Doc, ok: bool, version: Version)

  predicate Resolves(d: Doc, v: Version) {
    exists c :: c in d.conflicts && c.version == v
  }

  function Optimistic(d: Doc, other: Doc, trackHistory: bool, hash: Body -> Hash): Write {
    var track, replaced, replay, v := trackHistory && !d.body.local, other.version, IsReplay(other, hash), Written(other, hash);
    var hit := Resolves(d, replaced);
    var cs := if replay then d.conflicts else ConflictsLeft(d.conflicts, replaced, 0);
    var h := if hit then WithAncestor(d.history, v) else d.history;
    if d.version == NO_VERSION || d.version == replaced then
      if replay then Write(d.(version := v), true, v)
      else Write(Booked(other.(version := v), WithAncestor(h, replaced), cs, track), true, v)
    else if !hit && d.body.deleted then
      var w := Version(d.version.count + 1, v.hash);
      if replay then Write(other.(version := w), true, w)
      else Write(Booked(other.(version := w), WithAncestor(WithAncestor(h, replaced), d.version), cs, track), true, w)
    else if hit then
      Write(if replay then d else Booked(d, WithAncestor(h, replaced), cs, track), true, v)
    else if IsAncestorOf(h, v) then Write(d, true, v)
    else Write(d, false, NO_VERSION)
  }

  /** A write names the head, or there is no head yet. */
  predicate Heads(d: Doc, other: Doc) {
    d.version == NO_VERSION || other.version == d.version
  }

  /** A write that no conflict waits for, on a tombstone that it does not name. */
  predicate Revives(d: Doc, other: Doc) {
    !Heads(d, other) && d.body.deleted && !Resolves(d, other.version)
  }

  /** A write that names the head, or makes the first, is accepted. Unless it is a replay the head is its document, one count
      above the version it names and with the hash of its content; a replay only sets the version it stands for. */
  lemma WriteOnHead(d: Doc, other: Doc, trackHistory: bool, hash: Body -> Hash)
    requires Heads(d, other)
    ensures var w := Optimistic(d, other, trackHistory, hash);
      && w.ok && w.version == w.doc.version
      && (!IsReplay(other, hash) ==>
            && w.version == Version(other.version.count + 1, hash(other.body)) && w.doc.body == other.body && w.doc.uuid == other.uuid)
      && (IsReplay(other, hash) ==> w.doc == d.(version := other.version))
  {
    hide WithAncestor, ConflictsLeft, IsAncestorOf, Resolves;
  }

  /** A write that names a conflict, but not the head, is accepted and leaves the head's version and content. */
  lemma WriteOnConflict(d: Doc, other: Doc, trackHistory: bool, hash: Body -> Hash)
    requires !Heads(d, other) && Resolves(d, other.version)
    ensures var w := Optimistic(d, other, trackHistory, hash);
      && w.ok && SameVersion(w.doc, d)
      && (!IsReplay(other, hash) ==> w.version == Version(other.version.count + 1, hash(other.body)))
      && (IsReplay(other, hash) ==> w.version == other.version && w.doc == d)
  {
    hide WithAncestor, ConflictsLeft, IsAncestorOf, Resolves;
  }

  /** A write is accepted exactly when it names the head or a conflict, is the first or finds a tombstone, or writes once more
      what the head knows. Any other write, and one of a known version, changes nothing. */
  lemma AcceptedIff(d: Doc, other: Doc, trackHistory: bool, hash: Body -> Hash)
    ensures var w, written := Optimistic(d, other, trackHistory, hash), Written(other, hash);
      && (w.ok <==> Accepts(d, other) || Knows(d.history, written))
      && (!Accepts(d, other) ==> w.doc == d && w.version == if w.ok then written else NO_VERSION)
  {
    hide WithAncestor, ConflictsLeft, IsAncestorOf, Resolves, Knows;
    AncestorIsMember(d.history, Written(other, hash));
  }

  /** The versions that a write makes ancestors: the one it names, that of the conflict's successor, and a tombstone it revives. */
  ghost predicate Replaces(d: Doc, other: Doc, hash: Body -> Hash, u: Version) {
    u.count >= 1 &&
    (u == other.version || (Resolves(d, other.version) && u == Version(other.version.count + 1, hash(other.body)))
     || (Revives(d, other) && u == d.version))
  }

  /** The history after an accepted write that is no replay: what the head knew and the versions it replaces, or nothing if
      history is not tracked. */
  lemma WriteHistory(d: Doc, other: Doc, trackHistory: bool, hash: Body -> Hash)
    requires Accepts(d, other) && !IsReplay(other, hash)
    ensures var h := Optimistic(d, other, trackHistory, hash).doc.history;
      if !trackHistory || d.body.local then h == []
      else Canonical(d.history) ==> Canonical(h) && forall u :: Knows(h, u) <==> Knows(d.history, u) || Replaces(d, other, hash, u)
  {
    hide WithAncestor, ConflictsLeft, IsAncestorOf, Resolves, Knows, Canonical;
    if Canonical(d.history) {
      var written := Written(other, hash);
      WithAncestorKnows(d.history, written);
      WithAncestorKnows(d.history, other.version);
      WithAncestorKnows(WithAncestor(d.history, written), other.version);
      WithAncestorKnows(WithAncestor(d.history, other.version), d.version);
    }
  }

  /** A head that keeps its history, or no head yet, with no conflicts stored. */
  ghost predicate Plain(d: Doc) {
    !d.body.local && d.conflicts == [] && Canonical(d.history)
  }

  ghost predicate Tracked(d: Doc) {
    d.version.count >= 1 && Plain(d)
  }

  /** A write on a live head changes it exactly when it is no replay and names the version it replaces; the head it replaces
      becomes an ancestor. Any other write leaves the object as it is, and is accepted only as a replay of the head or of
      an ancestor. */
  lemma WriteOnLive(d: Doc, other: Doc, hash: Body -> Hash)
    requires Tracked(d) && !d.body.deleted
    ensures var w := Optimistic(d, other, true, hash);
      && (w.doc != d <==> !IsReplay(other, hash) && other.version == d.version)
      && (w.doc != d ==>
            && w.ok && w.version == w.doc.version == Version(d.version.count + 1, hash(other.body)) && w.doc.body == other.body
            && w.doc.conflicts == [] && Canonical(w.doc.history)
            && forall u :: Knows(w.doc.history, u) <==> Knows(d.history, u) || u == d.version)
      && (w.doc == d ==> (w.ok <==> (IsReplay(other, hash) && other.version == d.version) || Knows(d.history, Written(other, hash))))
  {
    hide Canonical, Knows, IsAncestorOf, WithAncestor;
    WithAncestorKnows(d.history, other.version);
    AncestorIsMember(d.history, Written(other, hash));
    assert d.(version := d.version) == d;
  }

  /** A tombstone is resurrected by a write that does not name it, one count above it. A write that is no replay keeps the
      history; a replay brings its own bookkeeping with it. */
  lemma WriteOnTombstone(d: Doc, other: Doc, hash: Body -> Hash)
    requires Revives(d, other)
    ensures var w := Optimistic(d, other, true, hash);
      && w.ok && w.version == w.doc.version == Version(d.version.count + 1, hash(other.body))
      && w.doc.body == other.body && w.doc.uuid == other.uuid
      && (IsReplay(other, hash) ==> w.doc == other.(version := w.version))
      && (!IsReplay(other, hash) && Tracked(d) ==>
            && w.doc.conflicts == [] && Canonical(w.doc.history)
            && forall u :: Knows(w.doc.history, u) <==>
              Knows(d.history, u) || u == d.version || (u == other.version && u.count >= 1))
  {
    hide Canonical, Knows, IsAncestorOf, WithAncestor;
    if Canonical(d.history) {
      WithAncestorKnows(d.history, other.version);
      WithAncestorKnows(WithAncestor(d.history, other.version), d.version);
    }
  }

  /** Resurrection by a replay is the one way to lose history. */
  predicate Forgetful(d: Doc, other: Doc, hash: Body -> Hash) {
    Revives(d, other) && IsReplay(other, hash)
  }

  ghost predicate KnowsMore(d: Doc, e: Doc) {
    forall u :: Knows(d.history, u) ==> Knows(e.history, u)
  }

  /** A version is the head's or an ancestor of it; nothing is asked of versions with no count, which no write makes. */
  ghost predicate Holds(e: Doc, v: Version) {
    v.count >= 1 ==> e.version == v || Knows(e.history, v)
  }

  /** The head or its successor: what came before is still an ancestor, and a version that was there has a higher one above it. */
  ghost predicate Follows(d: Doc, e: Doc) {
    e == d || (KnowsMore(d, e) && Holds(e, d.version) && (d.version != NO_VERSION ==> d.version.count < e.version.count))
  }

  /** A write keeps all ancestors unless it is a replay that resurrects a tombstone; then it keeps them only if its own
      history names them. The version an accepted write reports is the head's or an ancestor. */
  lemma WriteKeepsAncestors(d: Doc, other: Doc, hash: Body -> Hash)
    requires Plain(d)
    ensures var w := Optimistic(d, other, true, hash);
      && (!Forgetful(d, other, hash) ==> Follows(d, w.doc))
      && (Forgetful(d, other, hash) ==>
            (Follows(d, w.doc) <==> (forall u :: Knows(d.history, u) ==> Knows(other.history, u))
                                    && (d.version.count >= 1 ==> Knows(other.history, d.version))))
      && (!Forgetful(d, other, hash) && !other.body.local ==> Plain(w.doc))
      && (w.ok ==> Holds(w.doc, w.version))
  {
    hide Canonical, Knows, Optimistic;
    AcceptedIff(d, other, true, hash);
    if Heads(d, other) {
      WriteOnHead(d, other, true, hash);
    } else if d.body.deleted {
      WriteOnTombstone(d, other, hash);
    }
    if Accepts(d, other) && !IsReplay(other, hash) {
      WriteHistory(d, other, true, hash);
      StaysPlain(d, other, hash);
    }
  }

  lemma StaysPlain(d: Doc, other: Doc, hash: Body -> Hash)
    requires d.conflicts == [] && Accepts(d, other) && !IsReplay(other, hash)
    ensures var e := Optimistic(d, other, true, hash).doc; e.conflicts == [] && e.body == other.body
  {
    hide WithAncestor, IsAncestorOf;
  }

  /** The replay of an old version resurrects a tombstone and drops what the tombstone knew. */
  lemma AncestorsAreLost()
    ensures var d := Sample(2, "b", [One("a")], []).(body := Body(true, false, "b"));
      var other, hash := Sample(1, "c", [], []), (b: Body) => b.data;
      var w := Optimistic(d, other, true, hash);
      && Tracked(d) && Forgetful(d, other, hash) && w.ok && w.version == Version(3, "c")
      && Knows(d.history, Version(1, "a")) && !Knows(w.doc.history, Version(1, "a")) && !Knows(w.doc.history, d.version)
  {
    var d := Sample(2, "b", [One("a")], []).(body := Body(true, false, "b"));
    assert !Resolves(d, Version(1, "c")) && "c" != "b";
  }

  /** A run of optimistic writes, that may start before there is a head. */
  ghost predicate WriteRun(states: seq<Doc>, others: seq<Doc>, hash: Body -> Hash) {
    && |states| == |others| + 1 && Plain(states[0])
    && forall i :: 0 <= i < |others| ==>
      WriteStep(states[i], others[i], states[i + 1], hash) && !Forgetful(states[i], others[i], hash) && !others[i].body.local
  }

  ghost predicate WriteStep(before: Doc, other: Doc, after: Doc, hash: Body -> Hash) {
    after == Optimistic(before, other, true, hash).doc
  }

  lemma EmptyIsPlain()
    ensures Plain(EMPTY) && EMPTY.version == NO_VERSION
  {
    EmptyHistory();
  }

  /** Over any run heads follow each other: every earlier head is the current one or an ancestor of it, and update counts grow. */
  lemma {:induction false} HeadsFollow(states: seq<Doc>, others: seq<Doc>, hash: Body -> Hash, i: nat, j: nat)
    requires WriteRun(states, others, hash) && i <= j < |states|
    ensures Plain(states[j]) && Follows(states[i], states[j])
  {
    hide Plain, Knows, Optimistic, Forgetful;
    if i < j {
      HeadsFollow(states, others, hash, i, j - 1);
      assert WriteStep(states[j - 1], others[j - 1], states[j], hash);
      WriteKeepsAncestors(states[j - 1], others[j - 1], hash);
      FollowsOn(states[i], states[j - 1], states[j]);
    } else if j > 0 {
      HeadsFollow(states, others, hash, 0, j - 1);
      assert WriteStep(states[j - 1], others[j - 1], states[j], hash);
      WriteKeepsAncestors(states[j - 1], others[j - 1], hash);
    }
  }

  lemma FollowsOn(d: Doc, e: Doc, f: Doc)
    requires Follows(d, e) && Follows(e, f)
    ensures Follows(d, f)
  {
    hide Knows;
  }

  /** No update is lost: the version that an accepted write reported, and every earlier head, is ever after the head or an
      ancestor of it. */
  lemma NoLostUpdate(states: seq<Doc>, others: seq<Doc>, hash: Body -> Hash, i: nat, j: nat)
    requires WriteRun(states, others, hash) && i <= j < |states|
    ensures Follows(states[i], states[j])
    ensures i < j ==> var w := Optimistic(states[i], others[i], true, hash); w.ok ==> Holds(states[j], w.version)
  {
    hide Plain, Knows, Optimistic, Forgetful;
    HeadsFollow(states, others, hash, i, j);
    HeadsFollow(states, others, hash, i, i);
    if i < j {
      HeadsFollow(states, others, hash, i + 1, j);
      assert WriteStep(states[i], others[i], states[i + 1], hash);
      WriteKeepsAncestors(states[i], others[i], hash);
    }
  }

  /** The write's content takes the place of the head's: it names the head, or is the first, and is no replay; or it neither
      names the head nor resolves a conflict, and the head is a tombstone. */
  predicate TakesContent(d: Doc, other: Doc, hash: Body -> Hash) {
    if d.version == NO_VERSION || d.version == other.version then !IsReplay(other, hash)
    else !Resolves(d, other.version) && d.body.deleted
  }

  /** An accepted write leaves its own content exactly then, or if the head has the same. */
  lemma ContentTakenIff(d: Doc, other: Doc, trackHistory: bool, hash: Body -> Hash)
    requires Optimistic(d, other, trackHistory, hash).ok
    ensures var r := Optimistic(d, other, trackHistory, hash).doc;
      && (r.body == other.body <==> TakesContent(d, other, hash) || d.body == other.body)
      && (r.body == d.body || r.body == other.body)
  {
    hide WithAncestor, ConflictsLeft, IsAncestorOf, Resolves;
  }

  /** The first write of an object, when its version is that of its content, is accepted and stores the version without the
      content. */
  lemma FirstReplayIsEmpty()
    ensures var other, hash := Sample(1, "c", [], []), (b: Body) => b.data;
      var w := Optimistic(EMPTY, other, true, hash);
      w.ok && w.version == other.version && w.doc == EMPTY.(version := other.version) && w.doc.body != other.body
  {
    assert "c" != "";
  }

  // ---- conflicts beside an optimistic write ------------------------------------------------------------------

  /** The conflicts that a write naming version v does not resolve. */
  function Unresolved(cs: seq<Doc>, v: Version): seq<Doc> {
    if cs == [] then [] else (if cs[0].version == v then [] else [cs[0]]) + Unresolved(cs[1..], v)
  }

  /** The write names the head or a conflict, or the head is a tombstone or has no version yet. */
  predicate Accepts(d: Doc, other: Doc) {
    d.version == NO_VERSION || other.version == d.version || d.body.deleted || Resolves(d, other.version)
  }

  /** The loop over the conflicts leaves none exactly when there is none, or a single one that the write names. */
  lemma NoneLeftIff(cs: seq<Doc>, v: Version)
    ensures ConflictsLeft(cs, v, 0) == [] <==> cs == [] || (|cs| == 1 && cs[0].version == v)
  {
    LeftAtLeast(cs, v, 0);
    if |cs| > 1 {
      LeftAtLeast(cs, v, 1);
      LeftAtLeast(cs[..0] + cs[1..], v, 1);
    }
  }

  /** What the loop has passed stays. */
  lemma {:induction false} LeftAtLeast(cs: seq<Doc>, v: Version, i: nat)
    requires i <= |cs|
    ensures |ConflictsLeft(cs, v, i)| >= i
    decreases |cs| - i
  {
    if i < |cs| {
      if cs[i].version == v {
        if i + 1 <= |cs| - 1 {
          LeftAtLeast(cs[..i] + cs[i + 1..], v, i + 1);
        }
      } else {
        LeftAtLeast(cs, v, i + 1);
      }
    }
  }

  lemma {:induction false} UnresolvedOther(cs: seq<Doc>, v: Version, c: Doc)
    requires c in Unresolved(cs, v)
    ensures c in cs && c.version != v
  {
    if c in Unresolved(cs[1..], v) {
      UnresolvedOther(cs[1..], v, c);
    }
  }

  lemma AncestorStored(h: History, v: Version)
    ensures v.count >= 1 || h != [] ==> WithAncestor(h, v) != []
  {
  }

  /** A write that is no replay keeps the conflicts it does not resolve exactly when the loop leaves none; otherwise it stores
      a list of empty objects, one for each count of the history. */
  lemma ConflictsKeptIff(d: Doc, other: Doc, trackHistory: bool, hash: Body -> Hash)
    requires !IsReplay(other, hash) && Accepts(d, other) && forall c :: c in d.conflicts ==> c.version.count >= 1
    ensures var w, left := Optimistic(d, other, trackHistory, hash), ConflictsLeft(d.conflicts, other.version, 0);
      && w.ok && (w.doc.conflicts == Unresolved(d.conflicts, other.version) <==> left == [])
      && (left == [] <==> d.conflicts == [] || (|d.conflicts| == 1 && d.conflicts[0].version == other.version))
      && (left != [] ==> (d.version.count >= 1 ==> w.doc.conflicts != []) && forall c :: c in w.doc.conflicts ==> c == EMPTY)
  {
    hide WithAncestor, ConflictsLeft, IsAncestorOf;
    var v, w := other.version, Optimistic(d, other, trackHistory, hash);
    var h := if Resolves(d, v) then WithAncestor(d.history, Written(other, hash)) else d.history;
    NoneLeftIff(d.conflicts, v);
    AncestorStored(h, v);
    AncestorStored(d.history, Written(other, hash));
    AncestorStored(WithAncestor(h, v), d.version);
    if Unresolved(d.conflicts, v) != [] {
      UnresolvedOther(d.conflicts, v, Unresolved(d.conflicts, v)[0]);
    } else if d.conflicts != [] {
      assert d.conflicts[0].version == v && d.conflicts[0] in d.conflicts;
    }
  }

  lemma UnresolvedOfTwo(x: Doc, y: Doc, v: Version)
    requires x.version == v
    ensures Unresolved([x, y], v) == if y.version == v then [] else [y]
  {
    assert [x, y][1..] == [y] && [y][1..] == [];
    assert Unresolved([y], v) == (if y.version == v then [] else [y]) + Unresolved([], v);
  }

  /** A head at count 2 with two conflicts at count 1. */
  function Forked(): Doc {
    Sample(2, "b", [One("a")], [Sample(1, "x", [], []), Sample(1, "y", [], [])])
  }

  /** A write that names the head loses both conflicts. */
  lemma ConflictsAreLost()
    ensures var d, hash := Forked(), (b: Body) => b.data;
      var w := Optimistic(d, Sample(2, "c", [], []).(version := d.version), true, hash);
      w.ok && Unresolved(d.conflicts, d.version) == d.conflicts && w.doc.conflicts == [EMPTY, EMPTY]
  {
    var d := Forked();
    var x, y := d.conflicts[0], d.conflicts[1];
    assert d.conflicts[1..] == [y] && [y][1..] == [];
    assert Unresolved([y], d.version) == [y] + Unresolved([], d.version);
    assert !Resolves(d, d.version);
    assert |WithAncestor(d.history, d.version)| == 2;
    assert ConflictsLeft(d.conflicts, d.version, 2) == d.conflicts;
  }

  /** A write that names the first conflict takes it out, passes over the second, and loses that. */
  lemma OtherConflictIsLost()
    ensures var d, hash := Forked(), (b: Body) => b.data;
      var w := Optimistic(d, Sample(1, "c", [], []).(version := d.conflicts[0].version), true, hash);
      w.ok && Unresolved(d.conflicts, d.conflicts[0].version) == [d.conflicts[1]] && w.doc.conflicts == [EMPTY, EMPTY]
  {
    var d := Forked();
    var x, y := d.conflicts[0], d.conflicts[1];
    UnresolvedOfTwo(x, y, x.version);
    assert d.conflicts == [x, y] && x in d.conflicts && Resolves(d, x.version);
    assert [x, y][..0] + [x, y][1..] == [y];
    assert ConflictsLeft([y], x.version, 1) == [y];
    assert |WithAncestor(WithAncestor(d.history, Version(2, "c")), x.version)| == 2;
  }

  /** Of two conflicts of one version the loop takes out the first and skips the second. */
  lemma ConflictIsSkipped(x: Doc)
    ensures ConflictsLeft([x, x], x.version, 0) == [x] && Unresolved([x, x], x.version) == []
  {
    UnresolvedOfTwo(x, x, x.version);
    assert [x, x][..0] + [x, x][1..] == [x] && [x, x][1..] == [x] && [x][1..] == [];
    assert ConflictsLeft([x], x.version, 1) == [x];
  }

  // ---- the object ------------------------------------------------------------------------------------------

  class JsonDbObject {
    var doc: Doc

    constructor (d: Doc)
      ensures doc == d
    {
      doc := d;
    }

    /** updateVersionReplicating: the object takes in another one, or stays as it is if that is not valid. */
    method UpdateVersionReplicating(other: Doc, hash: Body -> Hash) returns (ok: bool)
      requires SameUuid(doc)
      modifies this
      ensures ok <==> Mergeable(old(doc), other, hash)
      ensures doc == Replicated(old(doc), other, hash) && SameUuid(doc)
    {
      hide WithSource, Settled, Mergeable, Documents;
      var documents, valid := [], true;
      var id := MergeId(doc, other);
      if doc != EMPTY {
        documents, valid := PopulateMerge(documents, id, doc, false, hash);
      }
      documents, ok := PopulateMerge(documents, id, other, true, hash);
      MergeableIs(doc, other, hash, documents);
      if ok {
        MergeConflicts(doc, other, hash);
        DocumentsHave(doc, other, hash);
        doc := Resolve(documents);
      }
    }

    /** The loop over the conflicts: those the write replaces are removed, and the new version is noted once. */
    method ResolveConflicts(replaced: Version, version: Version, isReplay: bool)
      returns (hit: bool, history: History, conflicts: seq<Doc>)
      ensures hit <==> Resolves(doc, replaced)
      ensures history == if hit then WithAncestor(doc.history, version) else doc.history
      ensures conflicts == if isReplay then doc.conflicts else ConflictsLeft(doc.conflicts, replaced, 0)
    {
      hide WithAncestor;
      hit, history, conflicts := false, doc.history, doc.conflicts;
      var ii := 0;
      while ii < |conflicts|
        invariant 0 <= ii && history == if hit then WithAncestor(doc.history, version) else doc.history
        invariant isReplay ==> conflicts == doc.conflicts
        invariant !isReplay ==> ConflictsLeft(conflicts, replaced, ii) == ConflictsLeft(doc.conflicts, replaced, 0)
        invariant hit ==> Resolves(doc, replaced)
        invariant !hit ==> conflicts == doc.conflicts && forall j :: 0 <= j < ii && j < |conflicts| ==> conflicts[j].version != replaced
        decreases |conflicts| - ii
      {
        if conflicts[ii].version == replaced {
          if !hit {
            assert conflicts[ii] in doc.conflicts;
            history := AddAncestor(history, version);
          }
          hit := true;
          if !isReplay {
            conflicts := conflicts[..ii] + conflicts[ii + 1..];
          }
        }
        ii := ii + 1;
      }
    }

    /** updateVersionOptimistic: a write names the version it replaces. */
    method UpdateVersionOptimistic(other: Doc, trackHistory: bool, hash: Body -> Hash) returns (ok: bool, versionWritten: Version)
      modifies this
      ensures Write(doc, ok, versionWritten) == Optimistic(old(doc), other, trackHistory, hash)
    {
      hide WithAncestor;
      var track, replaced, isReplay := trackHistory && !doc.body.local, other.version, IsReplay(other, hash);
      var version := Written(other, hash);
      var history, conflicts;
      ok, history, conflicts := ResolveConflicts(replaced, version, isReplay);
      versionWritten := if ok then version else NO_VERSION;
      var ancestor := replaced;

      if doc.version == NO_VERSION || doc.version == replaced {
        if !isReplay {
          doc := other;
        }
        versionWritten := version;
        doc := doc.(version := versionWritten);
        ok := true;
      }
      if !ok && doc.body.deleted {
        if !isReplay {
          history := AddAncestor(history, replaced);
        }
        ancestor := doc.version;
        versionWritten := Version(doc.version.count + 1, version.hash);
        doc := other.(version := versionWritten);
        ok := true;
      }
      if ok && !isReplay {
        history := AddAncestor(history, ancestor);
        doc := Booked(doc, history, conflicts, track);
      }
      if !ok && IsAncestorOf(history, version) {
        ok := true;
        versionWritten := version;
      }
    }

    /** The loop over the documents: replaced ones go to the history, others become conflicts, the last is the head. */
    method Resolve(documents: seq<Doc>) returns (head: Doc)
      requires documents != []
      ensures head == Resolved(documents)
    {
      var history, conflicts, ii := [], [], 0;
      head := documents[|documents| - 1];
      while ii < |documents|
        invariant 0 <= ii <= |documents| && Settled(documents, ii) == Settlement(history, conflicts)
      {
        var d := documents[ii];
        var alive, jj := !d.body.deleted, ii + 1;
        while alive && jj < |documents|
          invariant ii < jj <= |documents|
          invariant alive <==> !d.body.deleted && forall j :: ii < j < jj ==> !IsAncestorOf(documents[j].history, d.version)
        {
          if IsAncestorOf(documents[jj].history, d.version) {
            alive := false;
          }
          jj := jj + 1;
        }
        assert alive <==> Alive(documents, ii);
        if ii + 1 == |documents| {
          history := PopulateHistory(history, d, false);
        } else if alive {
          conflicts := conflicts + [Stripped(d)];
        } else {
          history := PopulateHistory(history, d, true);
        }
        ii := ii + 1;
      }
      head := head.(history := history, conflicts := conflicts);
    }
  }

  lemma MergeableIs(self: Doc, other: Doc, hash: Body -> Hash, ds: seq<Doc>)
    requires ds == WithSource(if self == EMPTY then [] else WithSource([], MergeId(self, other), self, false, hash),
                              MergeId(self, other), other, true, hash)
    ensures ds == Documents(self, other, hash)
    ensures Mergeable(self, other, hash) <==> AllAccepted(other, MergeId(self, other), true, hash)
  {
  }
}

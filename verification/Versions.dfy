// Versions of documents: an update count and a content hash, their order, and the history of replaced versions.
module Versions {
  import opened Lexicographic

  type Hash = string

  /** A version; a count of 0 stands for no version. */
  datatype Version = Version(count: nat, hash: Hash)

  const NO_VERSION := Version(0, "")

  // ---- the order -------------------------------------------------------------------------------------------

  predicate Less(a: Hash, b: Hash) {
    b != "" && (a == "" || a[0] < b[0] || (a[0] == b[0] && Less(a[1..], b[1..])))
  }

  /** Hashes are ordered as texts. */
  lemma {:induction false} LessIsLexicographic(a: Hash, b: Hash)
    ensures Less(a, b) <==> Precedes(a, b, (x: char, y: char) => x < y)
  {
    var below := (x: char, y: char) => x < y;
    if a != [] && b != [] {
      PrecedesStep(a, b, below);
      LessIsLexicographic(a[1..], b[1..]);
    } else {
      PrecedesEmpty(a, b, below);
    }
  }

  lemma {:induction false} LessIsTotal(a: Hash, b: Hash)
    ensures Less(a, b) || Less(b, a) || a == b
    ensures !(Less(a, b) && Less(b, a)) && !Less(a, a)
  {
    if a != "" && b != "" {
      LessIsTotal(a[1..], b[1..]);
      assert a == [a[0]] + a[1..] && b == [b[0]] + b[1..];
    }
    if a != "" {
      LessIsTotal(a[1..], a[1..]);
    }
  }

  lemma {:induction false} LessIsTransitive(a: Hash, b: Hash, c: Hash)
    requires Less(a, b) && Less(b, c)
    ensures Less(a, c)
  {
    if a != "" && a[0] == b[0] == c[0] {
      LessIsTransitive(a[1..], b[1..], c[1..]);
    }
  }

  /** operator<: by update count first, then by hash. */
  predicate Before(a: Version, b: Version) {
    a.count < b.count || (a.count == b.count && Less(a.hash, b.hash))
  }

  lemma BeforeIsTotal(a: Version, b: Version)
    ensures Before(a, b) || Before(b, a) || a == b
    ensures !(Before(a, b) && Before(b, a)) && !Before(a, a)
  {
    LessIsTotal(a.hash, b.hash);
    LessIsTotal(a.hash, a.hash);
  }

  /** The version with fewer updates comes first; of two with as many, that with the lower hash. */
  lemma BeforeMeans(a: Version, b: Version)
    ensures Before(a, b) <==> if a.count == b.count then Precedes(a.hash, b.hash, (x: char, y: char) => x < y) else a.count < b.count
  {
    LessIsLexicographic(a.hash, b.hash);
  }

  lemma BeforeIsTransitive(a: Version, b: Version, c: Version)
    requires Before(a, b) && Before(b, c)
    ensures Before(a, c)
  {
    if a.count == b.count == c.count {
      LessIsTransitive(a.hash, b.hash, c.hash);
    }
  }

  // ---- history ---------------------------------------------------------------------------------------------

  /** What the history array holds at position count - 1. */
  datatype Entry = Null | One(hash: Hash) | Many(hashes: seq<Hash>)

  type History = seq<Entry>

  function Hashes(e: Entry): seq<Hash> {
    match e
    case Null => []
    case One(x) => [x]
    case Many(xs) => xs
  }

  /** The set of versions a history stands for. */
  ghost predicate Knows(h: History, v: Version) {
    1 <= v.count <= |h| && v.hash in Hashes(h[v.count - 1])
  }

  /** isAncestorOf on a history. */
  predicate IsAncestorOf(h: History, v: Version) {
    if v.count < 1 || |h| < v.count then false
    else
      match h[v.count - 1]
      case One(x) => x == v.hash
      case Many(xs) => v.hash in xs
      case Null => false
  }

  /** isAncestorOf is membership, for any history whatever. */
  lemma AncestorIsMember(h: History, v: Version)
    ensures IsAncestorOf(h, v) <==> Knows(h, v)
  {
    if 1 <= v.count <= |h| && h[v.count - 1].One? {
      assert v.hash in [h[v.count - 1].hash] <==> v.hash == h[v.count - 1].hash;
    }
  }

  ghost predicate Increasing(xs: seq<Hash>) {
    forall i, j :: 0 <= i < j < |xs| ==> Less(xs[i], xs[j])
  }

  ghost predicate CanonicalEntry(e: Entry) {
    e.Many? ==> Increasing(e.hashes) && |e.hashes| >= 2
  }

  /** The form addAncestor keeps: one hash alone, several in increasing order, no nulls at the end. */
  ghost predicate Canonical(h: History) {
    (forall i :: 0 <= i < |h| ==> CanonicalEntry(h[i])) && (h != [] ==> !h[|h| - 1].Null?)
  }

  // ---- addAncestor -----------------------------------------------------------------------------------------

  /** The search from the end for the place of a hash: what the array is afterwards. */
  function InsertHash(xs: seq<Hash>, x: Hash, n: nat): seq<Hash>
    requires n <= |xs|
  {
    if n == 0 then [x] + xs
    else if xs[n - 1] == x then xs
    else if Less(xs[n - 1], x) then xs[..n] + [x] + xs[n..]
    else InsertHash(xs, x, n - 1)
  }

  function Joined(e: Entry, x: Hash): Entry {
    match e
    case Null => One(x)
    case One(y) => if y == x then e else if Less(y, x) then Many([y, x]) else Many([x, y])
    case Many(xs) => Many(InsertHash(xs, x, |xs|))
  }

  function Padded(h: History, n: nat): History {
    if |h| >= n then h else h + seq(n - |h|, i => Null)
  }

  function WithAncestor(h: History, v: Version): History {
    if v.count < 1 then h
    else
      var p := Padded(h, v.count);
      p[v.count - 1 := Joined(p[v.count - 1], v.hash)]
  }

  /** addAncestor as the code does it: nulls up to the position, then a search from the end of the array there. */
  method AddAncestor(history: History, v: Version) returns (h: History)
    ensures h == WithAncestor(history, v)
  {
    h := history;
    if v.count < 1 {
      return;
    }
    while |h| < v.count
      invariant |history| <= |h| <= if |history| < v.count then v.count else |history|
      invariant h == history + seq(|h| - |history|, i => Null)
    {
      h := h + [Null];
    }
    assert h == Padded(history, v.count);
    var pos := v.count - 1;
    match h[pos] {
      case Many(multi) =>
        var ii := |multi|;
        while ii > 0
          invariant 0 <= ii <= |multi| && InsertHash(multi, v.hash, |multi|) == InsertHash(multi, v.hash, ii)
        {
          ii := ii - 1;
          if multi[ii] == v.hash {
            assert InsertHash(multi, v.hash, ii + 1) == multi;
            assert h[pos := h[pos]] == h;
            return;
          } else if Less(multi[ii], v.hash) {
            h := h[pos := Many(multi[..ii + 1] + [v.hash] + multi[ii + 1..])];
            return;
          }
        }
        h := h[pos := Many([v.hash] + multi)];
      case Null =>
        h := h[pos := One(v.hash)];
      case One(x) =>
        if x == v.hash {
          assert h[pos := h[pos]] == h;
          return;
        }
        LessIsTotal(x, v.hash);
        h := h[pos := if Less(x, v.hash) then Many([x, v.hash]) else Many([v.hash, x])];
    }
  }

  lemma {:induction false} InsertHashKeeps(xs: seq<Hash>, x: Hash, n: nat)
    requires Increasing(xs) && n <= |xs| && forall j :: n <= j < |xs| ==> Less(x, xs[j])
    ensures var r := InsertHash(xs, x, n);
      Increasing(r) && |r| >= |xs| && (x !in xs ==> |r| == |xs| + 1) && forall y :: y in r <==> y in xs || y == x
  {
    if n > 0 && xs[n - 1] != x && !Less(xs[n - 1], x) {
      LessIsTotal(xs[n - 1], x);
      InsertHashKeeps(xs, x, n - 1);
    } else if n == 0 || xs[n - 1] != x {
      var r := xs[..n] + [x] + xs[n..];
      InsertedIncreasing(xs, x, n);
      assert n == 0 ==> r == [x] + xs;
      forall y | y in xs ensures y in r {
        var k :| 0 <= k < |xs| && xs[k] == y;
        assert r[if k < n then k else k + 1] == y;
      }
    }
  }

  lemma InsertedIncreasing(xs: seq<Hash>, x: Hash, n: nat)
    requires Increasing(xs) && n <= |xs| && (forall j :: n <= j < |xs| ==> Less(x, xs[j])) && (n > 0 ==> Less(xs[n - 1], x))
    ensures Increasing(xs[..n] + [x] + xs[n..])
  {
    var r := xs[..n] + [x] + xs[n..];
    forall i, j | 0 <= i < j < |r| ensures Less(r[i], r[j]) {
      if j == n && i < n - 1 {
        LessIsTransitive(xs[i], xs[n - 1], x);
      } else if i < n && j > n && n > 0 {
        assert r[i] == xs[i] && r[j] == xs[j - 1];
      }
    }
  }

  lemma JoinedKeeps(e: Entry, x: Hash)
    requires CanonicalEntry(e)
    ensures CanonicalEntry(Joined(e, x)) && !Joined(e, x).Null?
    ensures forall y :: y in Hashes(Joined(e, x)) <==> y in Hashes(e) || y == x
  {
    match e
    case Null =>
    case One(y) => LessIsTotal(y, x);
    case Many(xs) => InsertHashKeeps(xs, x, |xs|);
  }

  /** addAncestor adds one version to the set and keeps the form. */
  lemma WithAncestorKnows(h: History, v: Version)
    requires Canonical(h)
    ensures Canonical(WithAncestor(h, v))
    ensures forall u :: Knows(WithAncestor(h, v), u) <==> Knows(h, u) || (u == v && v.count >= 1)
  {
    if v.count >= 1 {
      var p := Padded(h, v.count);
      assert forall i :: 0 <= i < |p| ==> p[i] == if i < |h| then h[i] else Null;
      JoinedKeeps(p[v.count - 1], v.hash);
    }
  }

  // ---- the canonical form ----------------------------------------------------------------------------------

  /** Increasing lists of the same hashes are the same list. */
  lemma {:induction false} IncreasingIsUnique(a: seq<Hash>, b: seq<Hash>)
    requires Increasing(a) && Increasing(b) && forall x :: x in a <==> x in b
    ensures a == b
  {
    assert b != [] ==> b[0] in b;
    if a != [] {
      assert a[0] in b;
      FirstIsLeast(a, b[0]);
      FirstIsLeast(b, a[0]);
      LessIsTotal(a[0], b[0]);
      Tails(a, b);
      IncreasingIsUnique(a[1..], b[1..]);
      assert a == [a[0]] + a[1..] && b == [b[0]] + b[1..];
    }
  }

  lemma FirstIsLeast(a: seq<Hash>, x: Hash)
    requires Increasing(a) && x in a
    ensures x == a[0] || Less(a[0], x)
  {
  }

  lemma Tails(a: seq<Hash>, b: seq<Hash>)
    requires a != [] && b != [] && a[0] == b[0] && Increasing(a) && Increasing(b) && forall x :: x in a <==> x in b
    ensures Increasing(a[1..]) && Increasing(b[1..]) && forall x :: x in a[1..] <==> x in b[1..]
  {
    forall x | x in a[1..] ensures x in b[1..] {
      TailElement(a, b, x);
    }
    forall x | x in b[1..] ensures x in a[1..] {
      TailElement(b, a, x);
    }
  }

  lemma TailElement(a: seq<Hash>, b: seq<Hash>, x: Hash)
    requires a != [] && b != [] && a[0] == b[0] && Increasing(a) && x in a[1..] && forall y :: y in a ==> y in b
    ensures x in b[1..]
  {
    var k :| 0 <= k < |a[1..]| && a[1..][k] == x;
    assert a[k + 1] == x && Less(a[0], a[k + 1]);
    LessIsTotal(x, x);
    assert x in b;
    var i :| 0 <= i < |b| && b[i] == x;
    assert b[1..][i - 1] == x;
  }

  /** Two histories in canonical form that stand for the same versions are the same array, so the order in which versions
      are added does not matter. */
  lemma CanonicalIsUnique(a: History, b: History)
    requires Canonical(a) && Canonical(b) && forall v :: Knows(a, v) <==> Knows(b, v)
    ensures a == b
  {
    SameLength(a, b);
    SameLength(b, a);
    forall i | 0 <= i < |a| ensures a[i] == b[i] {
      assert forall x :: x in Hashes(a[i]) <==> Knows(a, Version(i + 1, x));
      assert forall x :: x in Hashes(b[i]) <==> Knows(b, Version(i + 1, x));
      SameEntry(a[i], b[i]);
    }
  }

  lemma SameLength(a: History, b: History)
    requires Canonical(a) && forall v :: Knows(a, v) ==> Knows(b, v)
    ensures |a| <= |b|
  {
    if a != [] {
      var e := a[|a| - 1];
      assert CanonicalEntry(e);
      var x := Hashes(e)[0];
      assert Knows(a, Version(|a|, x));
    }
  }

  lemma SameEntry(e: Entry, f: Entry)
    requires CanonicalEntry(e) && CanonicalEntry(f) && forall x :: x in Hashes(e) <==> x in Hashes(f)
    ensures e == f
  {
    assert Increasing(Hashes(e)) && Increasing(Hashes(f));
    IncreasingIsUnique(Hashes(e), Hashes(f));
  }

  /** Adding two versions in either order gives the same history. */
  lemma AddingCommutes(h: History, u: Version, v: Version)
    requires Canonical(h)
    ensures WithAncestor(WithAncestor(h, u), v) == WithAncestor(WithAncestor(h, v), u)
  {
    hide WithAncestor, Canonical, Knows;
    WithAncestorKnows(h, u);
    WithAncestorKnows(h, v);
    WithAncestorKnows(WithAncestor(h, u), v);
    WithAncestorKnows(WithAncestor(h, v), u);
    CanonicalIsUnique(WithAncestor(WithAncestor(h, u), v), WithAncestor(WithAncestor(h, v), u));
  }

  /** Adding a version that is known changes nothing. */
  lemma AddingKnown(h: History, v: Version)
    requires Canonical(h) && Knows(h, v)
    ensures WithAncestor(h, v) == h
  {
    WithAncestorKnows(h, v);
    CanonicalIsUnique(WithAncestor(h, v), h);
  }
}

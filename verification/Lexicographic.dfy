// The order of sequences by their first difference.
module Lexicographic {

  /** a is a proper beginning of b, or is below b where they first differ. */
  ghost predicate Precedes<T(!new)>(a: seq<T>, b: seq<T>, below: (T, T) -> bool) {
    exists k: nat :: DifferAt(a, b, below, k)
  }

  ghost predicate DifferAt<T(!new)>(a: seq<T>, b: seq<T>, below: (T, T) -> bool, k: nat) {
    k <= |a| && k < |b| && a[..k] == b[..k] && (k < |a| ==> below(a[k], b[k]))
  }

  lemma PrecedesEmpty<T(!new)>(a: seq<T>, b: seq<T>, below: (T, T) -> bool)
    requires a == [] || b == []
    ensures Precedes(a, b, below) <==> |a| < |b|
  {
    assert |a| < |b| ==> DifferAt(a, b, below, 0);
  }

  /** The first items decide, or what follows them. */
  lemma PrecedesStep<T(!new)>(a: seq<T>, b: seq<T>, below: (T, T) -> bool)
    requires a != [] && b != []
    ensures Precedes(a, b, below) <==> below(a[0], b[0]) || (a[0] == b[0] && Precedes(a[1..], b[1..], below))
  {
    if below(a[0], b[0]) {
      assert DifferAt(a, b, below, 0);
    }
    if k: nat :| DifferAt(a[1..], b[1..], below, k) && a[0] == b[0] {
      assert a[..k + 1] == [a[0]] + a[1..][..k] && b[..k + 1] == [b[0]] + b[1..][..k];
      assert DifferAt(a, b, below, k + 1);
    }
    if k: nat :| DifferAt(a, b, below, k) && k > 0 {
      assert a[..k][0] == a[0] && b[..k][0] == b[0];
      assert a[1..][..k - 1] == a[..k][1..] && b[1..][..k - 1] == b[..k][1..];
      assert DifferAt(a[1..], b[1..], below, k - 1);
    }
  }
}

// The node container: a list of nodes kept in key order, searched by binary search.
module OrderedNodes {
  import opened HBtreeRecords

  ghost predicate Sorted(ns: seq<Node>) {
    forall i, j :: 0 <= i < j < |ns| ==> ns[i].key.ord < ns[j].key.ord
  }

  function LowerFrom(ns: seq<Node>, o: real, i: nat): (r: nat)
    requires i <= |ns|
    ensures i <= r <= |ns|
    ensures forall j :: i <= j < r ==> ns[j].key.ord < o
    ensures r < |ns| ==> o <= ns[r].key.ord
    decreases |ns| - i
  {
    if i == |ns| || o <= ns[i].key.ord then i else LowerFrom(ns, o, i + 1)
  }

  /** The first position whose key is not below o. */
  function LowerBound(ns: seq<Node>, o: real): (r: nat)
    ensures r <= |ns|
    ensures forall j :: 0 <= j < r ==> ns[j].key.ord < o
    ensures r < |ns| ==> o <= ns[r].key.ord
  {
    LowerFrom(ns, o, 0)
  }

  function UpperFrom(ns: seq<Node>, o: real, i: nat): (r: nat)
    requires i <= |ns|
    ensures i <= r <= |ns|
    ensures forall j :: i <= j < r ==> ns[j].key.ord <= o
    ensures r < |ns| ==> o < ns[r].key.ord
    decreases |ns| - i
  {
    if i == |ns| || o < ns[i].key.ord then i else UpperFrom(ns, o, i + 1)
  }

  /** The first position whose key is above o. */
  function UpperBound(ns: seq<Node>, o: real): (r: nat)
    ensures r <= |ns|
    ensures forall j :: 0 <= j < r ==> ns[j].key.ord <= o
    ensures r < |ns| ==> o < ns[r].key.ord
  {
    UpperFrom(ns, o, 0)
  }

  function Contains(ns: seq<Node>, o: real): bool {
    var i := LowerBound(ns, o);
    i < |ns| && ns[i].key.ord == o
  }

  function Insert(ns: seq<Node>, nd: Node): seq<Node> {
    var i := LowerBound(ns, nd.key.ord);
    if i == |ns| then ns + [nd]
    else if ns[i].key.ord == nd.key.ord then ns[i := nd]
    else ns[..i] + [nd] + ns[i..]
  }

  function Remove(ns: seq<Node>, o: real): seq<Node> {
    var i := LowerBound(ns, o);
    if i < |ns| && ns[i].key.ord == o then ns[..i] + ns[i + 1..] else ns
  }

  /** In a sorted list the position of a key is the only one that fits. */
  lemma LowerBoundIs(ns: seq<Node>, o: real, i: nat)
    requires Sorted(ns) && i <= |ns|
    requires i > 0 ==> ns[i - 1].key.ord < o
    requires i < |ns| ==> o <= ns[i].key.ord
    ensures LowerBound(ns, o) == i
  {
    var r := LowerBound(ns, o);
  }

  lemma UpperBoundIs(ns: seq<Node>, o: real, i: nat)
    requires Sorted(ns) && i <= |ns|
    requires i > 0 ==> ns[i - 1].key.ord <= o
    requires i < |ns| ==> o < ns[i].key.ord
    ensures UpperBound(ns, o) == i
  {
    var r := UpperBound(ns, o);
  }

  lemma InsertIs(ns: seq<Node>, nd: Node, i: nat)
    requires Sorted(ns) && i <= |ns|
    requires i > 0 ==> ns[i - 1].key.ord < nd.key.ord
    requires i < |ns| ==> nd.key.ord < ns[i].key.ord
    ensures Insert(ns, nd) == ns[..i] + [nd] + ns[i..]
    ensures Sorted(Insert(ns, nd))
  {
    LowerBoundIs(ns, nd.key.ord, i);
    assert ns[i..] == [] <==> i == |ns|;
    forall a, b | 0 <= a < b < |Insert(ns, nd)| ensures Insert(ns, nd)[a].key.ord < Insert(ns, nd)[b].key.ord {
      if b < i {
      } else if b == i {
        assert a < i ==> ns[a].key.ord <= ns[i - 1].key.ord;
      } else if a == i {
        assert ns[i].key.ord <= ns[b - 1].key.ord;
      }
    }
  }

  /** A new node pushes those above it up by one place. */
  lemma InsertShifts(ns: seq<Node>, nd: Node)
    requires Sorted(ns) && !Contains(ns, nd.key.ord)
    ensures var i, r := LowerBound(ns, nd.key.ord), Insert(ns, nd);
      && Sorted(r) && |r| == |ns| + 1 && i < |r| && r[i] == nd
      && forall k :: 0 <= k < |ns| ==> r[if k < i then k else k + 1] == ns[k]
  {
    InsertIs(ns, nd, LowerBound(ns, nd.key.ord));
  }

  lemma RemoveIs(ns: seq<Node>, i: nat)
    requires Sorted(ns) && i < |ns|
    ensures Contains(ns, ns[i].key.ord)
    ensures Remove(ns, ns[i].key.ord) == ns[..i] + ns[i + 1..]
    ensures Sorted(Remove(ns, ns[i].key.ord))
  {
    LowerBoundIs(ns, ns[i].key.ord, i);
  }

  // ---- the list as an association list -------------------------------------------------------------------

  /** The pairs of a sorted list as a map from places in the order to values. */
  ghost function Assoc(ns: seq<Node>): map<real, NodeValue> {
    map o | o in Ords(ns) :: ns[LowerBound(ns, o)].value
  }

  ghost function Ords(ns: seq<Node>): set<real> {
    set i | 0 <= i < |ns| :: ns[i].key.ord
  }

  lemma AssocAt(ns: seq<Node>, i: nat)
    requires Sorted(ns) && i < |ns|
    ensures ns[i].key.ord in Assoc(ns) && Assoc(ns)[ns[i].key.ord] == ns[i].value
  {
    LowerBoundIs(ns, ns[i].key.ord, i);
  }

  lemma AssocIs(ns: seq<Node>, m: map<real, NodeValue>)
    requires Sorted(ns)
    requires forall i :: 0 <= i < |ns| ==> ns[i].key.ord in m && m[ns[i].key.ord] == ns[i].value
    requires forall o :: o in m ==> o in Ords(ns)
    ensures Assoc(ns) == m
  {
    forall o | o in m ensures o in Assoc(ns) && Assoc(ns)[o] == m[o] {
      var i :| 0 <= i < |ns| && ns[i].key.ord == o;
      AssocAt(ns, i);
    }
  }

  lemma InsertIsUpdate(ns: seq<Node>, nd: Node)
    requires Sorted(ns)
    ensures Sorted(Insert(ns, nd))
    ensures Assoc(Insert(ns, nd)) == Assoc(ns)[nd.key.ord := nd.value]
  {
    hide Assoc, Sorted;
    var i := LowerBound(ns, nd.key.ord);
    if i < |ns| && ns[i].key.ord == nd.key.ord {
      ReplaceIsUpdate(ns, nd, i);
    } else {
      InsertShifts(ns, nd);
      GrowIsUpdate(ns, Insert(ns, nd), nd, i);
    }
  }

  /** Where a key of the map is in the list. */
  lemma PlaceOf(ns: seq<Node>, o: real) returns (j: nat)
    requires o in Assoc(ns)
    ensures j < |ns| && ns[j].key.ord == o
  {
    j :| 0 <= j < |ns| && ns[j].key.ord == o;
  }

  lemma KeyAt(ns: seq<Node>, i: nat)
    requires i < |ns|
    ensures ns[i].key.ord in Ords(ns)
  {
  }

  lemma ReplaceIsUpdate(ns: seq<Node>, nd: Node, i: nat)
    requires Sorted(ns) && i < |ns| && ns[i].key.ord == nd.key.ord
    ensures Sorted(ns[i := nd]) && Assoc(ns[i := nd]) == Assoc(ns)[nd.key.ord := nd.value]
  {
    hide Assoc, Ords;
    var r := ns[i := nd];
    forall j | 0 <= j < |r| && j != i
      ensures r[j].key.ord in Assoc(ns) && Assoc(ns)[r[j].key.ord] == r[j].value && r[j].key.ord != nd.key.ord
    {
      AssocAt(ns, j);
    }
    KeyAt(r, i);
    forall o | o in Assoc(ns) ensures o in Ords(r) {
      var j := PlaceOf(ns, o);
      KeyAt(r, j);
    }
    AssocIs(r, Assoc(ns)[nd.key.ord := nd.value]);
  }

  lemma GrowIsUpdate(ns: seq<Node>, r: seq<Node>, nd: Node, i: nat)
    requires Sorted(ns) && Sorted(r) && i <= |ns| && |r| == |ns| + 1 && r[i] == nd
    requires forall j :: 0 <= j < |ns| ==> r[if j < i then j else j + 1] == ns[j]
    ensures Assoc(r) == Assoc(ns)[nd.key.ord := nd.value]
  {
    hide Assoc, Ords;
    forall j | 0 <= j < |r| && j != i
      ensures r[j].key.ord in Assoc(ns) && Assoc(ns)[r[j].key.ord] == r[j].value && r[j].key.ord != nd.key.ord
    {
      var k := if j < i then j else j - 1;
      assert r[if k < i then k else k + 1] == ns[k];
      AssocAt(ns, k);
      assert j < i ==> r[j].key.ord < r[i].key.ord;
    }
    KeyAt(r, i);
    forall o | o in Assoc(ns) ensures o in Ords(r) {
      var j := PlaceOf(ns, o);
      KeyAt(r, if j < i then j else j + 1);
    }
    AssocIs(r, Assoc(ns)[nd.key.ord := nd.value]);
  }

  lemma RemoveIsDeletion(ns: seq<Node>, o: real)
    requires Sorted(ns)
    ensures Sorted(Remove(ns, o))
    ensures Assoc(Remove(ns, o)) == Assoc(ns) - {o}
  {
    hide Assoc, Sorted;
    var i := LowerBound(ns, o);
    if i < |ns| && ns[i].key.ord == o {
      RemoveIs(ns, i);
      ShrinkIsDeletion(ns, Remove(ns, o), i);
    } else {
      LookupIsAssoc(ns, o);
    }
  }

  lemma ShrinkIsDeletion(ns: seq<Node>, r: seq<Node>, i: nat)
    requires Sorted(ns) && Sorted(r) && i < |ns| && |r| == |ns| - 1
    requires forall j :: 0 <= j < |r| ==> r[j] == ns[if j < i then j else j + 1]
    ensures Assoc(r) == Assoc(ns) - {ns[i].key.ord}
  {
    hide Assoc, Ords;
    var m := Assoc(ns) - {ns[i].key.ord};
    forall j | 0 <= j < |r| ensures r[j].key.ord in m && m[r[j].key.ord] == r[j].value {
      AssocAt(ns, if j < i then j else j + 1);
    }
    forall o | o in m ensures o in Ords(r) {
      var j := PlaceOf(ns, o);
      KeyAt(r, if j < i then j else j - 1);
    }
    AssocIs(r, m);
  }

  /** contains and value read the same map. */
  lemma LookupIsAssoc(ns: seq<Node>, o: real)
    requires Sorted(ns)
    ensures Contains(ns, o) <==> o in Assoc(ns)
    ensures Contains(ns, o) ==> Assoc(ns)[o] == ns[LowerBound(ns, o)].value
  {
    var i := LowerBound(ns, o);
    if Contains(ns, o) {
      AssocAt(ns, i);
    } else {
      forall j | 0 <= j < |ns| ensures ns[j].key.ord != o {
        assert j > i ==> ns[i].key.ord < ns[j].key.ord;
      }
    }
  }

  // ---- byte sizes ----------------------------------------------------------------------------------------

  /** Bytes the nodes take in the data area of their page. */
  function UpperBytes(ns: seq<Node>): nat {
    if ns == [] then 0 else UpperBytes(ns[..|ns| - 1]) + ns[|ns| - 1].Size()
  }

  lemma {:induction false} UpperBytesConcat(a: seq<Node>, b: seq<Node>)
    ensures UpperBytes(a + b) == UpperBytes(a) + UpperBytes(b)
  {
    if b == [] {
      assert a + b == a;
    } else {
      assert (a + b)[..|a + b| - 1] == a + b[..|b| - 1];
      UpperBytesConcat(a, b[..|b| - 1]);
    }
  }

  lemma UpperBytesOne(nd: Node)
    ensures UpperBytes([nd]) == nd.Size() && UpperBytes([]) == 0
  {
    assert [nd][..0] == [];
  }

  lemma UpperBytesInsert(ns: seq<Node>, nd: Node, i: nat)
    requires i <= |ns|
    ensures UpperBytes(ns[..i] + [nd] + ns[i..]) == UpperBytes(ns) + nd.Size()
  {
    hide UpperBytes;
    UpperBytesConcat(ns[..i] + [nd], ns[i..]);
    UpperBytesConcat(ns[..i], [nd]);
    UpperBytesConcat(ns[..i], ns[i..]);
    UpperBytesOne(nd);
    assert ns[..i] + ns[i..] == ns;
  }

  lemma UpperBytesRemove(ns: seq<Node>, i: nat)
    requires i < |ns|
    ensures UpperBytes(ns[..i] + ns[i + 1..]) == UpperBytes(ns) - ns[i].Size()
  {
    hide UpperBytes;
    var a, b := ns[..i], ns[i + 1..];
    UpperBytesConcat(a, b);
    UpperBytesConcat(a + [ns[i]], b);
    UpperBytesConcat(a, [ns[i]]);
    UpperBytesOne(ns[i]);
    assert a + [ns[i]] + b == ns;
  }

  lemma UpperBytesReplace(ns: seq<Node>, nd: Node, i: nat)
    requires i < |ns| && nd.Size() == ns[i].Size()
    ensures UpperBytes(ns[i := nd]) == UpperBytes(ns)
  {
    UpperBytesInsert(ns[..i] + ns[i + 1..], nd, i);
    UpperBytesRemove(ns, i);
    assert ns[i := nd] == (ns[..i] + ns[i + 1..])[..i] + [nd] + (ns[..i] + ns[i + 1..])[i..];
  }

  /** The list as an object: insert, operator[] and remove change it in place. */
  class OrderedList {
    var list: seq<Node>

    constructor ()
      ensures list == []
    {
      list := [];
    }

    /** qLowerBound: the stretch that is left is halved until it is empty. */
    method LowerBoundOf(key: Key) returns (begin: nat)
      requires Sorted(list)
      ensures begin == LowerBound(list, key.ord)
    {
      begin := 0;
      var n := |list|;
      while n > 0
        invariant 0 <= n && begin + n <= |list|
        invariant begin > 0 ==> list[begin - 1].key.ord < key.ord
        invariant begin + n < |list| ==> key.ord <= list[begin + n].key.ord
      {
        var half := n / 2;
        if list[begin + half].key.ord < key.ord {
          begin, n := begin + half + 1, n - (half + 1);
        } else {
          n := half;
        }
      }
      LowerBoundIs(list, key.ord, begin);
    }

    /** qUpperBound. */
    method UpperBoundOf(key: Key) returns (begin: nat)
      requires Sorted(list)
      ensures begin == UpperBound(list, key.ord)
    {
      begin := 0;
      var n := |list|;
      while n > 0
        invariant 0 <= n && begin + n <= |list|
        invariant begin > 0 ==> list[begin - 1].key.ord <= key.ord
        invariant begin + n < |list| ==> key.ord < list[begin + n].key.ord
      {
        var half := n / 2;
        if key.ord < list[begin + half].key.ord {
          n := half;
        } else {
          begin, n := begin + half + 1, n - (half + 1);
        }
      }
      UpperBoundIs(list, key.ord, begin);
    }

    /** qBinaryFind: the position of the key, or the end. */
    method Find(key: Key) returns (i: nat)
      requires Sorted(list)
      ensures i <= |list| && (i < |list| <==> key.ord in Assoc(list))
      ensures i < |list| ==> list[i].key.ord == key.ord && list[i].value == Assoc(list)[key.ord]
    {
      LookupIsAssoc(list, key.ord);
      i := LowerBoundOf(key);
      if i < |list| && key.ord < list[i].key.ord {
        i := |list|;
      }
    }

    method InsertPair(key: Key, value: NodeValue)
      requires Sorted(list)
      modifies this
      ensures Sorted(list)
      ensures list == Insert(old(list), Node(key, value))
      ensures Assoc(list) == old(Assoc(list))[key.ord := value]
    {
      hide Assoc, Sorted;
      InsertIsUpdate(list, Node(key, value));
      var i := LowerBoundOf(key);
      if i == |list| {
        list := list + [Node(key, value)];
      } else if list[i].key.ord == key.ord {
        list := list[i := Node(key, value)];
      } else {
        list := list[..i] + [Node(key, value)] + list[i..];
      }
    }

    /** operator[]: the position of the key, entered with the default value when it was not there. */
    method At(key: Key, default: NodeValue) returns (i: nat)
      requires Sorted(list)
      modifies this
      ensures Sorted(list) && i < |list| && list[i].key.ord == key.ord
      ensures Assoc(list) == if key.ord in old(Assoc(list)) then old(Assoc(list)) else old(Assoc(list))[key.ord := default]
    {
      hide Assoc, Sorted;
      LookupIsAssoc(list, key.ord);
      InsertIsUpdate(list, Node(key, default));
      i := LowerBoundOf(key);
      if i == |list| || list[i].key.ord != key.ord {
        assert list[..i] + [Node(key, default)] + list[i..] == Insert(list, Node(key, default));
        list := list[..i] + [Node(key, default)] + list[i..];
      }
    }

    method RemoveKey(key: Key)
      requires Sorted(list)
      modifies this
      ensures Sorted(list)
      ensures Assoc(list) == old(Assoc(list)) - {key.ord}
    {
      hide Assoc, Sorted;
      RemoveIsDeletion(list, key.ord);
      LookupIsAssoc(list, key.ord);
      var i := Find(key);
      if i < |list| {
        RemoveIs(list, i);
        list := list[..i] + list[i + 1..];
      }
    }

    method Value(key: Key, default: NodeValue) returns (v: NodeValue)
      requires Sorted(list)
      ensures v == if key.ord in Assoc(list) then Assoc(list)[key.ord] else default
    {
      var i := Find(key);
      v := if i < |list| then list[i].value else default;
    }
  }
}

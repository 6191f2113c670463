// An index kept in step with the objects is one that queries can scan: its tree entries are rows.
module IndexRows {
  import opened HBtreeRecords
  import opened TreeInvariant
  import opened ForwardKeys
  import opened IndexTerms
  import opened Indexes
  import opened IndexQueries

  ghost predicate Injective(place: Bytes -> real) {
    forall a, b :: place(a) == place(b) ==> a == b
  }

  /** The index tree's map from bytes to bytes, with the places of the keys. */
  ghost function EntriesOf(tree: Indexes.Tree, place: Bytes -> real): Entries
    requires Injective(place)
  {
    map k | k in tree :: place(k) := tree[k]
  }

  ghost function RowsOf(tree: Indexes.Tree, place: Bytes -> real, d: Doubles): Rows
    requires Injective(place) && forall k :: k in tree ==> |k| >= 4 + UUID_SIZE
  {
    map k | k in tree :: place(k) := RowOf(k, d)
  }

  function RowOf(k: Bytes, d: Doubles): IndexKey
    requires |k| >= 4 + UUID_SIZE
  {
    IndexKey(SplitValue(k, d), SplitUuid(k))
  }

  /** A key of an object is built from what it splits into. */
  lemma {:induction false} KeysAreBuilt(values: seq<Value>, uuid: Uuid, spec: Spec, d: Doubles, k: Bytes)
    requires Indexable(Item(uuid, "", values), spec, d) && Faithful(d) && k in KeysOf(values, uuid, spec, d)
    ensures |k| >= 4 + UUID_SIZE
    ensures var x := RowOf(k, d);
      x.uuid == uuid && Storable(x, d) && OfType(x.value, spec.ty) && MakeForwardKey(x, d) == k
  {
    hide MakeForwardKey, SplitUuid, SplitValue, Bound, KeyOf, Encodable, OfType;
    var v := values[|values| - 1];
    if k in KeysOf(values[..|values| - 1], uuid, spec, d) {
      KeysAreBuilt(values[..|values| - 1], uuid, spec, d, k);
    } else {
      KeyIsBuilt(v, uuid, spec, d);
      BoundIsScalar(v, spec);
      EncodableIsScalar(Bound(v, spec), d);
      SplitInvertsMake(IndexKey(Bound(v, spec), uuid), d);
    }
  }

  lemma EncodableIsScalar(v: Value, d: Doubles)
    requires Encodable(v, d)
    ensures Scalar(v) && v != Undefined
  {
  }

  /** The row of one key. */
  lemma KeyHasRow(tree: Indexes.Tree, live: map<Uuid, Item>, index: Index, k: Bytes)
    requires InStep(tree, live, index) && Known(live, index) && k in tree
    ensures |k| >= 4 + UUID_SIZE
    ensures var x := RowOf(k, index.doubles);
      && OfType(x.value, index.spec.ty) && Storable(x, index.doubles) && x.uuid in live
      && MakeForwardKey(x, index.doubles) == k && tree[k] == BigEndian(x.uuid, UUID_SIZE)
  {
    hide MakeForwardKey, SplitUuid, SplitValue, Storable, OfType, BigEndian, Faithful, InStep, Known, KeysOf, Encodable, Bound, RowOf;
    OwnerOf(tree, live, index, k);
    var o := live[SplitUuid(k)];
    KeysAreBuilt(o.values, o.uuid, index.spec, index.doubles, k);
    RowUuid(k, index.doubles);
  }

  lemma OwnerOf(tree: Indexes.Tree, live: map<Uuid, Item>, index: Index, k: Bytes)
    requires InStep(tree, live, index) && Known(live, index) && k in tree
    ensures |k| >= 4 + UUID_SIZE && SplitUuid(k) in live && tree[k] == BigEndian(SplitUuid(k), UUID_SIZE)
    ensures var o := live[SplitUuid(k)];
      k in index.KeysFor(o) && o.uuid == SplitUuid(k) && Indexable(o, index.spec, index.doubles) && Faithful(index.doubles)
  {
    hide SplitUuid, BigEndian, Faithful, Indexable, Index.KeysFor;
  }

  lemma RowAt(tree: Indexes.Tree, place: Bytes -> real, d: Doubles, e: real) returns (k: Bytes)
    requires Injective(place) && (forall k :: k in tree ==> |k| >= 4 + UUID_SIZE) && e in EntriesOf(tree, place)
    ensures k in tree && place(k) == e && EntriesOf(tree, place)[e] == tree[k]
    ensures e in RowsOf(tree, place, d) && RowsOf(tree, place, d)[e] == RowOf(k, d)
  {
    hide RowOf;
    k :| k in tree && place(k) == e;
  }

  lemma SameKeys(tree: Indexes.Tree, place: Bytes -> real, d: Doubles)
    requires Injective(place) && forall k :: k in tree ==> |k| >= 4 + UUID_SIZE
    ensures RowsOf(tree, place, d).Keys == EntriesOf(tree, place).Keys
  {
    hide RowOf;
  }

  /** The tree of an index in step with the live objects has a row for each of its entries. */
  lemma IndexHasRows(tree: Indexes.Tree, live: map<Uuid, Item>, index: Index, place: Bytes -> real, docs: map<Uuid, Doc>)
    requires InStep(tree, live, index) && Known(live, index) && PlacesKeys(place, index.doubles) && live.Keys <= docs.Keys
    ensures RowsOk(EntriesOf(tree, place), RowsOf(tree, place, index.doubles), docs, index.spec.ty, place, index.doubles)
  {
    hide MakeForwardKey, Storable, OfType, CompareKeys, BigEndian, Indexable, RowOf, EntriesOf, RowsOf, Faithful, Index.KeysFor, SplitUuid;
    var entries, rows, d := EntriesOf(tree, place), RowsOf(tree, place, index.doubles), index.doubles;
    SameKeys(tree, place, d);
    forall e | e in rows
      ensures OfType(rows[e].value, index.spec.ty) && Storable(rows[e], d) && rows[e].uuid in docs
      ensures e == PlaceOf(rows[e], place, d) && entries[e] == BigEndian(rows[e].uuid, UUID_SIZE)
    {
      var k := RowAt(tree, place, d, e);
      KeyHasRow(tree, live, index, k);
    }
  }

  /** The rows are exactly the field values of the live objects that the index is for. */
  lemma RowsAreFieldValues(tree: Indexes.Tree, live: map<Uuid, Item>, index: Index, place: Bytes -> real, w: Value, u: Uuid)
    requires InStep(tree, live, index) && Known(live, index) && PlacesKeys(place, index.doubles)
    requires Encodable(w, index.doubles) && u < UUID_LIMIT && forall k :: k in tree ==> |k| >= 4 + UUID_SIZE
    ensures IndexKey(w, u) in RowsOf(tree, place, index.doubles).Values <==>
      && u in live && (index.objectTypes == {} || live[u].typeName in index.objectTypes)
      && exists i :: 0 <= i < |live[u].values| && Bound(live[u].values[i], index.spec) == w
  {
    hide MakeForwardKey, SplitUuid, SplitValue, OfType, BigEndian, Faithful, Encodable, Bound, RowOf, KeysOf, CompareKeys, InStep;
    var d, rows, k := index.doubles, RowsOf(tree, place, index.doubles), MakeForwardKey(IndexKey(w, u), index.doubles);
    BuiltRow(IndexKey(w, u), d);
    if IndexKey(w, u) in rows.Values {
      var e :| e in rows && rows[e] == IndexKey(w, u);
      SameKeys(tree, place, d);
      var j := RowAt(tree, place, d, e);
      KeyHasRow(tree, live, index, j);
      assert j == k;
    }
    if k in tree {
      assert place(k) in rows && rows[place(k)] == RowOf(k, d);
      OwnerOf(tree, live, index, k);
      KeyThereIff(live[u].values, w, u, index.spec, d);
      HasKeys(index, live[u], k);
    }
    if u in live && (index.objectTypes == {} || live[u].typeName in index.objectTypes)
       && exists i :: 0 <= i < |live[u].values| && Bound(live[u].values[i], index.spec) == w
    {
      KeyThereIff(live[u].values, w, u, index.spec, d);
      KeyIsThere(tree, live, index, u, k);
    }
  }

  lemma BuiltRow(x: IndexKey, d: Doubles)
    requires Faithful(d) && Storable(x, d)
    ensures var k := MakeForwardKey(x, d); |k| >= 4 + UUID_SIZE && RowOf(k, d) == x && SplitUuid(k) == x.uuid
  {
    hide MakeForwardKey, SplitUuid, SplitValue, Faithful, Encodable;
    SplitInvertsMake(x, d);
  }

  lemma HasKeys(index: Index, o: Item, k: Bytes)
    requires k in index.KeysFor(o)
    ensures index.objectTypes == {} || o.typeName in index.objectTypes
    ensures k in KeysOf(o.values, o.uuid, index.spec, index.doubles)
  {
    hide KeysOf;
  }

  lemma KeyIsThere(tree: Indexes.Tree, live: map<Uuid, Item>, index: Index, u: Uuid, k: Bytes)
    requires InStep(tree, live, index) && Known(live, index) && u in live
    requires index.objectTypes == {} || live[u].typeName in index.objectTypes
    requires k in KeysOf(live[u].values, u, index.spec, index.doubles)
    ensures k in tree
  {
    hide KeysOf, Indexable, Faithful, BigEndian, SplitUuid;
    assert k in index.KeysFor(live[u]);
  }

  lemma RowUuid(k: Bytes, d: Doubles)
    requires |k| >= 4 + UUID_SIZE
    ensures RowOf(k, d).uuid == SplitUuid(k)
  {
  }
}

// A secondary index kept in step with the objects: indexObject and deindexObject over any run of changes.
module Indexes {
  import opened HBtreeRecords
  import opened Options
  import opened ForwardKeys
  import opened IndexTerms

  /** What an index sees of an object: its uuid, its type and the values of the indexed property. */
  datatype Item = Item(uuid: Uuid, typeName: string, values: seq<Value>)

  /** The forward key of a value, if the value can be indexed. */
  function KeyOf(v: Value, uuid: Uuid, spec: Spec, d: Doubles): Option<Bytes> {
    var w := MakeFieldValue(v, spec.ty, spec.num);
    if w == Undefined then None else Some(MakeForwardKey(IndexKey(Truncate(w, spec.ty, spec.maxSize), uuid), d))
  }

  /** The keys of values, in their order. */
  function KeysOf(values: seq<Value>, uuid: Uuid, spec: Spec, d: Doubles): seq<Bytes> {
    if values == [] then []
    else
      var last := KeyOf(values[|values| - 1], uuid, spec, d);
      KeysOf(values[..|values| - 1], uuid, spec, d) + if last.Some? then [last.value] else []
  }

  predicate Distinct(keys: seq<Bytes>) {
    forall i, j :: 0 <= i < j < |keys| ==> keys[i] != keys[j]
  }

  ghost predicate Indexable(o: Item, spec: Spec, d: Doubles) {
    && o.uuid < UUID_LIMIT
    && forall v :: v in o.values && Bound(v, spec) != Undefined ==> Encodable(Bound(v, spec), d)
  }

  lemma KeyIsBuilt(v: Value, uuid: Uuid, spec: Spec, d: Doubles)
    ensures KeyOf(v, uuid, spec, d) == if Bound(v, spec) == Undefined then None else Some(MakeForwardKey(IndexKey(Bound(v, spec), uuid), d))
  {
    hide MakeForwardKey;
  }

  lemma {:induction false} KeysHoldUuid(values: seq<Value>, uuid: Uuid, spec: Spec, d: Doubles, k: Bytes)
    requires Indexable(Item(uuid, "", values), spec, d) && Faithful(d) && k in KeysOf(values, uuid, spec, d)
    ensures |k| >= 4 + UUID_SIZE && SplitUuid(k) == uuid
  {
    hide MakeForwardKey, SplitUuid, Bound, KeyOf, Encodable;
    var v := values[|values| - 1];
    if k in KeysOf(values[..|values| - 1], uuid, spec, d) {
      KeysHoldUuid(values[..|values| - 1], uuid, spec, d, k);
    } else {
      KeyIsBuilt(v, uuid, spec, d);
      BuiltKey(IndexKey(Bound(v, spec), uuid), d);
    }
  }

  /** No two values of an object are the same field value to the index. */
  ghost predicate Separate(values: seq<Value>, spec: Spec) {
    forall i, j :: 0 <= i < j < |values| && Bound(values[i], spec) != Undefined ==> Bound(values[i], spec) != Bound(values[j], spec)
  }

  /** One field value has one key, and a key one field value. */
  lemma {:induction false} KeyThereIff(values: seq<Value>, w: Value, uuid: Uuid, spec: Spec, d: Doubles)
    requires Indexable(Item(uuid, "", values), spec, d) && Faithful(d) && Encodable(w, d)
    ensures MakeForwardKey(IndexKey(w, uuid), d) in KeysOf(values, uuid, spec, d)
      <==> exists i :: 0 <= i < |values| && Bound(values[i], spec) == w
  {
    hide MakeForwardKey, SplitValue, Bound, KeyOf, Encodable, Faithful;
    if values != [] {
      var front, v := values[..|values| - 1], values[|values| - 1];
      KeyThereIff(front, w, uuid, spec, d);
      KeyIsBuilt(v, uuid, spec, d);
      DefinedIfEncodable(w, d);
      SplitInvertsMake(IndexKey(w, uuid), d);
      if Bound(v, spec) != Undefined {
        SplitInvertsMake(IndexKey(Bound(v, spec), uuid), d);
      }
      if i :| 0 <= i < |front| && Bound(front[i], spec) == w {
        assert values[i] == front[i];
      }
    }
  }

  lemma DefinedIfEncodable(w: Value, d: Doubles)
    requires Encodable(w, d)
    ensures w != Undefined
  {
  }

  lemma {:induction false} DistinctIff(values: seq<Value>, uuid: Uuid, spec: Spec, d: Doubles)
    requires Indexable(Item(uuid, "", values), spec, d) && Faithful(d)
    ensures Distinct(KeysOf(values, uuid, spec, d)) <==> Separate(values, spec)
  {
    hide MakeForwardKey, Bound, KeyOf, Encodable, Faithful, Distinct;
    if values == [] {
      NoValues(uuid, spec, d);
    } else {
      var front, v := values[..|values| - 1], values[|values| - 1];
      DistinctIff(front, uuid, spec, d);
      KeyIsBuilt(v, uuid, spec, d);
      var keys := KeysOf(front, uuid, spec, d);
      assert keys + [] == keys;
      if Bound(v, spec) != Undefined {
        KeyThereIff(front, Bound(v, spec), uuid, spec, d);
        DistinctOneMore(keys, MakeForwardKey(IndexKey(Bound(v, spec), uuid), d));
      }
      assert forall i :: 0 <= i < |front| ==> front[i] == values[i];
    }
  }

  lemma DistinctOneMore(keys: seq<Bytes>, k: Bytes)
    ensures Distinct(keys + [k]) <==> Distinct(keys) && k !in keys
  {
    var all := keys + [k];
    assert forall i :: 0 <= i < |keys| ==> all[i] == keys[i];
    if Distinct(all) {
      assert forall i, j :: 0 <= i < j < |keys| ==> all[i] != all[j];
      assert forall i :: 0 <= i < |keys| ==> all[i] != all[|keys|];
    }
  }

  // ---- what puts and removes leave ---------------------------------------------------------------------------

  type Tree = map<Bytes, Bytes>

  ghost function PutAll(tree: Tree, keys: seq<Bytes>, value: Bytes): Tree {
    if keys == [] then tree else PutAll(tree, keys[..|keys| - 1], value)[keys[|keys| - 1] := value]
  }

  lemma {:induction false} PutAllHolds(tree: Tree, keys: seq<Bytes>, value: Bytes, k: Bytes)
    ensures var r := PutAll(tree, keys, value);
      && (k in r <==> k in tree || k in keys) && (k in r ==> r[k] == if k in keys then value else tree[k])
  {
    if keys != [] {
      PutAllHolds(tree, keys[..|keys| - 1], value, k);
      assert keys == keys[..|keys| - 1] + [keys[|keys| - 1]];
    }
  }

  ghost function KeySet(keys: seq<Bytes>): set<Bytes> {
    set k | k in keys
  }

  predicate Fit(keys: seq<Bytes>) {
    forall k :: k in keys ==> |k| <= MAX_KEY_SIZE
  }

  /** All keys can be removed one after the other. */
  ghost predicate Removable(tree: Tree, keys: seq<Bytes>) {
    Distinct(keys) && KeySet(keys) <= tree.Keys
  }

  /** The keys deindexObject takes out: those before the first that is not there. */
  ghost function Removed(tree: Tree, keys: seq<Bytes>): seq<Bytes> {
    if Removable(tree, keys) || keys == [] then keys else Removed(tree, keys[..|keys| - 1])
  }

  /** The keys indexObject puts: those before the first that is too long. */
  function Fitting(keys: seq<Bytes>): seq<Bytes> {
    if Fit(keys) || keys == [] then keys else Fitting(keys[..|keys| - 1])
  }

  /** The keys that stay behind when deindexObject stops at the first repeated one. */
  ghost function Stranded(keys: seq<Bytes>): set<Bytes> {
    KeySet(keys) - KeySet(Unrepeated(keys))
  }

  /** The keys before the first that is repeated. */
  function Unrepeated(keys: seq<Bytes>): seq<Bytes> {
    if Distinct(keys) || keys == [] then keys else Unrepeated(keys[..|keys| - 1])
  }

  lemma {:induction false} RemovedIs(tree: Tree, keys: seq<Bytes>, n: nat)
    requires n <= |keys| && Removable(tree, keys[..n]) && (n < |keys| ==> !Removable(tree, keys[..n + 1]))
    ensures Removed(tree, keys) == keys[..n]
  {
    if n < |keys| {
      var front := keys[..|keys| - 1];
      assert front[..n] == keys[..n] && (n < |front| ==> front[..n + 1] == keys[..n + 1]);
      RemovedIs(tree, front, n);
      if Removable(tree, keys) {
        RemovableFront(tree, keys, n + 1);
      }
    } else {
      assert keys[..n] == keys;
    }
  }

  lemma RemovableFront(tree: Tree, keys: seq<Bytes>, n: nat)
    requires Removable(tree, keys) && n <= |keys|
    ensures Removable(tree, keys[..n])
  {
  }

  lemma {:induction false} FittingIs(keys: seq<Bytes>, n: nat)
    requires n <= |keys| && Fit(keys[..n]) && (n < |keys| ==> !Fit(keys[..n + 1]))
    ensures Fitting(keys) == keys[..n]
  {
    if n < |keys| {
      var front := keys[..|keys| - 1];
      assert front[..n] == keys[..n] && (n < |front| ==> front[..n + 1] == keys[..n + 1]);
      FittingIs(front, n);
      var k :| k in keys[..n + 1] && |k| > MAX_KEY_SIZE;
      assert k in keys;
    } else {
      assert keys[..n] == keys;
    }
  }

  /** The tree holds exactly the keys of the live objects. */
  ghost predicate InStep(tree: Tree, live: map<Uuid, Item>, index: Index) {
    && (forall u, k :: u in live && k in index.KeysFor(live[u]) ==> k in tree && tree[k] == BigEndian(u, UUID_SIZE))
    && (forall k :: k in tree ==> |k| >= 4 + UUID_SIZE && SplitUuid(k) in live && k in index.KeysFor(live[SplitUuid(k)]))
  }

  ghost predicate Known(live: map<Uuid, Item>, index: Index) {
    Faithful(index.doubles) && forall u :: u in live ==> live[u].uuid == u && Indexable(live[u], index.spec, index.doubles)
  }

  lemma KeysForHoldUuid(o: Item, index: Index, k: Bytes)
    requires Indexable(o, index.spec, index.doubles) && Faithful(index.doubles) && k in index.KeysFor(o)
    ensures |k| >= 4 + UUID_SIZE && SplitUuid(k) == o.uuid
  {
    KeysHoldUuid(o.values, o.uuid, index.spec, index.doubles, k);
  }

  /** deindexObject of a live object succeeds exactly when the index can tell its values apart. */
  lemma LiveIsRemovableIff(tree: Tree, live: map<Uuid, Item>, index: Index, o: Item)
    requires InStep(tree, live, index) && Known(live, index) && o.uuid in live && live[o.uuid] == o
    ensures Removable(tree, index.KeysFor(o)) <==> index.Separates(o)
  {
    hide Separate, Distinct, KeysOf, Faithful, SplitUuid, BigEndian;
    NoValues(o.uuid, index.spec, index.doubles);
    DistinctIff(o.values, o.uuid, index.spec, index.doubles);
    forall k | k in index.KeysFor(o) ensures k in tree.Keys {
      assert k in index.KeysFor(live[o.uuid]);
    }
  }

  /** Two texts that differ behind the length the index keeps have one key, and their object cannot be taken out again. */
  lemma TruncatedTwins(tree: Tree, uuid: Uuid, num: Numerals, d: Doubles)
    ensures var spec, values := Spec(StringIndex, 1, num), [String([97, 97]), String([97, 98])];
      values[0] != values[1] && !Separate(values, spec) && !Removable(tree, KeysOf(values, uuid, spec, d))
  {
    var spec, a, b := Spec(StringIndex, 1, num), String([97, 97]), String([97, 98]);
    assert a.s[..1] == [97] == b.s[..1] && a.s[1] != b.s[1];
    var key := MakeForwardKey(IndexKey(String([97]), uuid), d);
    assert KeyOf(a, uuid, spec, d) == Some(key) == KeyOf(b, uuid, spec, d);
    assert [a, b][..1] == [a] && [a][..0] == [];
    assert KeysOf([a], uuid, spec, d) == [] + [key];
    assert KeysOf([a, b], uuid, spec, d) == [key] + [key] && ([key] + [key])[0] == ([key] + [key])[1];
  }

  /** With a third value behind them its key stays in the index, although the object is gone. */
  lemma StrandedKey(uuid: Uuid, num: Numerals, d: Doubles)
    requires uuid < UUID_LIMIT && Faithful(d)
    ensures var spec, values := Spec(StringIndex, 1, num), [String([97, 97]), String([97, 98]), String([98])];
      Stranded(KeysOf(values, uuid, spec, d)) == {MakeForwardKey(IndexKey(String([98]), uuid), d)}
  {
    hide MakeForwardKey, SplitValue, SplitUuid, Faithful;
    var spec, a, b, c := Spec(StringIndex, 1, num), String([97, 97]), String([97, 98]), String([98]);
    assert a.s[..1] == [97] == b.s[..1] && c.s[..1] == [98];
    var k, m := MakeForwardKey(IndexKey(String([97]), uuid), d), MakeForwardKey(IndexKey(String([98]), uuid), d);
    SplitInvertsMake(IndexKey(String([97]), uuid), d);
    SplitInvertsMake(IndexKey(c, uuid), d);
    assert KeyOf(a, uuid, spec, d) == Some(k) == KeyOf(b, uuid, spec, d) && KeyOf(c, uuid, spec, d) == Some(m);
    assert [a, b, c][..2] == [a, b] && [a, b][..1] == [a] && [a][..0] == [];
    assert KeysOf([a], uuid, spec, d) == [] + [k] == [k];
    assert KeysOf([a, b], uuid, spec, d) == [k] + [k] == [k, k];
    assert KeysOf([a, b, c], uuid, spec, d) == [k, k] + [m] == [k, k, m];
    TwinsStrand(k, m);
  }

  lemma TwinsStrand(k: Bytes, m: Bytes)
    requires k != m
    ensures Stranded([k, k, m]) == {m}
  {
    var keys := [k, k, m];
    assert keys[0] == keys[1] && keys[..2] == [k, k] && [k, k][0] == [k, k][1] && [k, k][..1] == [k];
    assert !Distinct(keys) && !Distinct([k, k]) && Distinct([k]);
    assert Unrepeated(keys) == Unrepeated(keys[..2]) == Unrepeated([k, k][..1]) == [k];
  }

  /** Removing the keys of a live object leaves those of the others. */
  lemma RemovedInStep(tree: Tree, live: map<Uuid, Item>, index: Index, o: Item)
    requires InStep(tree, live, index) && Known(live, index) && o.uuid in live && live[o.uuid] == o
    ensures InStep(tree - KeySet(index.KeysFor(o)), live - {o.uuid}, index)
  {
    hide Indexable, SplitUuid, Faithful, BigEndian, Index.KeysFor;
    var r := tree - KeySet(index.KeysFor(o));
    forall u, k | u in live - {o.uuid} && k in index.KeysFor(live[u]) ensures k in r && r[k] == BigEndian(u, UUID_SIZE) {
      KeysForHoldUuid(live[u], index, k);
      if k in index.KeysFor(o) {
        KeysForHoldUuid(o, index, k);
      }
    }
  }

  /** Putting the keys of a new object adds only those. */
  lemma AddedInStep(tree: Tree, live: map<Uuid, Item>, index: Index, o: Item)
    requires InStep(tree, live, index) && Known(live, index) && o.uuid !in live
    requires Indexable(o, index.spec, index.doubles)
    ensures InStep(PutAll(tree, index.KeysFor(o), BigEndian(o.uuid, UUID_SIZE)), live[o.uuid := o], index)
  {
    hide Indexable, SplitUuid, Faithful, PutAll, BigEndian, Index.KeysFor;
    var value := BigEndian(o.uuid, UUID_SIZE);
    var r, now := PutAll(tree, index.KeysFor(o), value), live[o.uuid := o];
    forall u, k | u in now && k in index.KeysFor(now[u]) ensures k in r && r[k] == BigEndian(u, UUID_SIZE) {
      PutAllHolds(tree, index.KeysFor(o), value, k);
      KeysForHoldUuid(now[u], index, k);
      if u != o.uuid && k in index.KeysFor(o) {
        KeysForHoldUuid(o, index, k);
      }
    }
    forall k | k in r ensures |k| >= 4 + UUID_SIZE && SplitUuid(k) in now && k in index.KeysFor(now[SplitUuid(k)]) {
      PutAllHolds(tree, index.KeysFor(o), value, k);
      if k in index.KeysFor(o) {
        KeysForHoldUuid(o, index, k);
      }
    }
  }

  // ---- the index ---------------------------------------------------------------------------------------------

  class Index {
    const spec: Spec
    const objectTypes: set<string>
    const doubles: Doubles
    var tree: Tree

    constructor (spec: Spec, objectTypes: set<string>, doubles: Doubles)
      ensures tree == map[] && InStep(tree, map[], this)
      ensures this.spec == spec && this.objectTypes == objectTypes && this.doubles == doubles
    {
      this.spec, this.objectTypes, this.doubles, tree := spec, objectTypes, doubles, map[];
    }

    /** The keys an object has in this index. */
    function KeysFor(o: Item): seq<Bytes> {
      if objectTypes != {} && o.typeName !in objectTypes then [] else KeysOf(o.values, o.uuid, spec, doubles)
    }

    /** The index tells the values of the object apart. */
    ghost predicate Separates(o: Item) {
      objectTypes == {} || o.typeName in objectTypes ==> Separate(o.values, spec)
    }

    method Put(key: Bytes, value: Bytes) returns (ok: bool)
      modifies this
      ensures ok == (|key| <= MAX_KEY_SIZE)
      ensures tree == if ok then old(tree)[key := value] else old(tree)
    {
      ok := |key| <= MAX_KEY_SIZE;
      if ok { tree := tree[key := value]; }
    }

    method Remove(key: Bytes) returns (ok: bool)
      modifies this
      ensures ok == (key in old(tree)) && tree == old(tree) - {key}
    {
      ok := key in tree;
      tree := tree - {key};
    }

    /** indexObject: stops at a key that is too long. */
    method IndexObject(o: Item) returns (ok: bool)
      modifies this
      ensures ok == Fit(KeysFor(o))
      ensures tree == PutAll(old(tree), Fitting(KeysFor(o)), BigEndian(o.uuid, UUID_SIZE))
    {
      hide MakeForwardKey, Truncate, MakeFieldValue, BigEndian, PutAll, Fit, KeysOf, Fitting;
      NoKeys(tree, BigEndian(o.uuid, UUID_SIZE));
      FittingIs([], 0);
      if objectTypes != {} && o.typeName !in objectTypes {
        return true;
      }
      NoValues(o.uuid, spec, doubles);
      ghost var was, value := tree, BigEndian(o.uuid, UUID_SIZE);
      var i := 0;
      while i < |o.values|
        invariant i <= |o.values|
        invariant var keys := KeysOf(o.values[..i], o.uuid, spec, doubles); Fit(keys) && tree == PutAll(was, keys, value)
      {
        ghost var keys := KeysOf(o.values[..i], o.uuid, spec, doubles);
        KeysStep(o.values, i, o.uuid, spec, doubles);
        var fieldValue := MakeFieldValue(o.values[i], spec.ty, spec.num);
        if fieldValue != Undefined {
          fieldValue := Truncate(fieldValue, spec.ty, spec.maxSize);
          var forwardKey := MakeForwardKey(IndexKey(fieldValue, o.uuid), doubles);
          PutOneMore(was, keys, forwardKey, value);
          var put := Put(forwardKey, BigEndian(o.uuid, UUID_SIZE));
          if !put {
            Prefixes(KeysFor(o), keys, forwardKey);
            FittingIs(KeysFor(o), |keys|);
            return false;
          }
        }
        i := i + 1;
      }
      assert o.values[..i] == o.values;
      assert KeysFor(o)[..|KeysFor(o)|] == KeysFor(o);
      FittingIs(KeysFor(o), |KeysFor(o)|);
      return true;
    }

    /** deindexObject: stops at a key that is not there. */
    method DeindexObject(o: Item) returns (ok: bool)
      modifies this
      ensures ok == Removable(old(tree), KeysFor(o))
      ensures tree == old(tree) - KeySet(Removed(old(tree), KeysFor(o)))
    {
      hide MakeForwardKey, Truncate, MakeFieldValue, BigEndian, KeysOf, Removable, KeySet, Removed;
      NothingRemoved(tree);
      RemovedIs(tree, [], 0);
      if objectTypes != {} && o.typeName !in objectTypes {
        return true;
      }
      ghost var was := tree;
      NoValues(o.uuid, spec, doubles);
      var i := 0;
      while i < |o.values|
        invariant i <= |o.values|
        invariant var keys := KeysOf(o.values[..i], o.uuid, spec, doubles); Removable(was, keys) && tree == was - KeySet(keys)
      {
        ghost var keys := KeysOf(o.values[..i], o.uuid, spec, doubles);
        KeysStep(o.values, i, o.uuid, spec, doubles);
        var fieldValue := MakeFieldValue(o.values[i], spec.ty, spec.num);
        if fieldValue != Undefined {
          fieldValue := Truncate(fieldValue, spec.ty, spec.maxSize);
          var forwardKey := MakeForwardKey(IndexKey(fieldValue, o.uuid), doubles);
          RemovableOneMore(was, keys, forwardKey);
          RemovableOneMore(was, keys, forwardKey);
          var removed := Remove(forwardKey);
          if !removed {
            Prefixes(KeysFor(o), keys, forwardKey);
            RemovedIs(was, KeysFor(o), |keys|);
            return false;
          }
        }
        i := i + 1;
      }
      assert o.values[..i] == o.values;
      assert KeysFor(o)[..|KeysFor(o)|] == KeysFor(o);
      RemovedIs(was, KeysFor(o), |KeysFor(o)|);
      return true;
    }

    /** The keys of an object that may not be there. */
    function KeysIf(o: Option<Item>): seq<Bytes> {
      if o.Some? then KeysFor(o.value) else []
    }

    /** A change of an object, as the partition makes it: the old version leaves the index, the new one enters it, and nobody
        asks whether they did. The index stays in step with the objects exactly when the old version leaves no key behind that
        the new one does not have, and the new one's keys fit. */
    method Update(before: Option<Item>, after: Option<Item>, ghost live: map<Uuid, Item>) returns (ghost now: map<Uuid, Item>)
      requires InStep(tree, live, this) && Known(live, this) && AllShort(tree) && MayChange(live, this, before, after)
      modifies this
      ensures now == Changed(live, before, after) && Known(now, this) && AllShort(tree)
      ensures InStep(tree, now, this) <==> Stranded(KeysIf(before)) <= KeySet(KeysIf(after)) && Fit(KeysIf(after))
    {
      hide Indexable, Fit, PutAll, KeySet, KeysFor, Removable, Removed, Fitting, Stranded, InStep, AllShort;
      now := Changed(live, before, after);
      ghost var was := tree;
      NoKeysMoved(tree);
      if before.Some? {
        var ok := DeindexObject(before.value);
      }
      if after.Some? {
        var ok := IndexObject(after.value);
      }
      ChangeInStepIff(was, tree, live, this, before, after);
    }
  }

  /** No key is longer than the tree takes. */
  ghost predicate AllShort(tree: Tree) {
    forall k :: k in tree ==> |k| <= MAX_KEY_SIZE
  }

  /** The old version of a change is a live object, the new one is of the same object or of a new one. */
  ghost predicate MayChange(live: map<Uuid, Item>, index: Index, before: Option<Item>, after: Option<Item>) {
    && (before.Some? ==> before.value.uuid in live && live[before.value.uuid] == before.value)
    && (after.Some? ==> Indexable(after.value, index.spec, index.doubles))
    && (after.Some? ==> if before.Some? then after.value.uuid == before.value.uuid else after.value.uuid !in live)
  }

  ghost function Changed(live: map<Uuid, Item>, before: Option<Item>, after: Option<Item>): map<Uuid, Item> {
    (if before.Some? then live - {before.value.uuid} else live) + if after.Some? then map[after.value.uuid := after.value] else map[]
  }

  /** The tree after a change. */
  ghost predicate Moved(tree: Tree, t: Tree, index: Index, before: Option<Item>, after: Option<Item>) {
    t == PutAll(tree - KeySet(Removed(tree, index.KeysIf(before))), Fitting(index.KeysIf(after)),
                if after.Some? then BigEndian(after.value.uuid, UUID_SIZE) else [])
  }

  lemma NoKeysMoved(tree: Tree)
    ensures Removed(tree, []) == [] && tree - KeySet([]) == tree && Fitting([]) == [] && forall t, v :: PutAll(t, [], v) == t
  {
  }

  lemma {:induction false} RemovedAre(tree: Tree, keys: seq<Bytes>)
    requires forall k :: k in keys ==> k in tree
    ensures Removed(tree, keys) == Unrepeated(keys)
  {
    if keys != [] {
      RemovedAre(tree, keys[..|keys| - 1]);
    }
  }

  lemma {:induction false} UnrepeatedIsPart(keys: seq<Bytes>)
    ensures Unrepeated(keys) <= keys && (Distinct(keys) ==> Stranded(keys) == {})
  {
    if !Distinct(keys) && keys != [] {
      UnrepeatedIsPart(keys[..|keys| - 1]);
    }
  }

  lemma {:induction false} FittingIsPart(keys: seq<Bytes>)
    ensures Fitting(keys) <= keys && Fit(Fitting(keys))
  {
    if !Fit(keys) && keys != [] {
      FittingIsPart(keys[..|keys| - 1]);
    }
  }

  /** Which keys are there after a change, and the value of each. */
  lemma MovedHolds(tree: Tree, t: Tree, live: map<Uuid, Item>, index: Index, before: Option<Item>, after: Option<Item>, k: Bytes)
    requires Moved(tree, t, index, before, after) && InStep(tree, live, index) && MayChange(live, index, before, after)
    ensures var gone, put := Unrepeated(index.KeysIf(before)), Fitting(index.KeysIf(after));
      && (k in t <==> (k in tree && k !in gone) || k in put)
      && (k in t && k !in put ==> t[k] == tree[k]) && (k in put ==> t[k] == BigEndian(after.value.uuid, UUID_SIZE))
  {
    hide PutAll, Removed, Unrepeated, Fitting, BigEndian, Indexable;
    var keys := index.KeysIf(before);
    RemovedAre(tree, keys);
    FittingIsPart(index.KeysIf(after));
    PutAllHolds(tree - KeySet(Removed(tree, keys)), Fitting(index.KeysIf(after)),
                if after.Some? then BigEndian(after.value.uuid, UUID_SIZE) else [], k);
  }

  lemma KeysIfHoldUuid(live: map<Uuid, Item>, index: Index, before: Option<Item>, after: Option<Item>, k: Bytes)
    requires Known(live, index) && MayChange(live, index, before, after)
    ensures k in index.KeysIf(before) ==> |k| >= 4 + UUID_SIZE && SplitUuid(k) == before.value.uuid
    ensures k in index.KeysIf(after) ==> |k| >= 4 + UUID_SIZE && SplitUuid(k) == after.value.uuid
  {
    hide Indexable, SplitUuid, Index.KeysFor;
    if k in index.KeysIf(before) {
      KeysForHoldUuid(before.value, index, k);
    }
    if k in index.KeysIf(after) {
      KeysForHoldUuid(after.value, index, k);
    }
  }

  /** Keys that stay behind or do not fit are keys the objects do not have, or have and the tree has not. */
  lemma FallsOut(tree: Tree, t: Tree, live: map<Uuid, Item>, index: Index, before: Option<Item>, after: Option<Item>)
    requires InStep(tree, live, index) && Known(live, index) && AllShort(tree) && MayChange(live, index, before, after)
    requires Moved(tree, t, index, before, after) && InStep(t, Changed(live, before, after), index)
    ensures Stranded(index.KeysIf(before)) <= KeySet(index.KeysIf(after)) && Fit(index.KeysIf(after))
  {
    hide Indexable, SplitUuid, Faithful, BigEndian, Index.KeysFor, Moved, Unrepeated, Fitting;
    var now := Changed(live, before, after);
    FittingIsPart(index.KeysIf(after));
    forall k | k in Stranded(index.KeysIf(before)) ensures k in KeySet(index.KeysIf(after)) {
      MovedHolds(tree, t, live, index, before, after, k);
      KeysIfHoldUuid(live, index, before, after, k);
      assert k in index.KeysFor(live[before.value.uuid]) && k in t;
    }
    forall k | k in index.KeysIf(after) ensures |k| <= MAX_KEY_SIZE {
      MovedHolds(tree, t, live, index, before, after, k);
      assert now[after.value.uuid] == after.value;
    }
  }

  lemma StaysInStep(tree: Tree, t: Tree, live: map<Uuid, Item>, index: Index, before: Option<Item>, after: Option<Item>)
    requires InStep(tree, live, index) && Known(live, index) && MayChange(live, index, before, after)
    requires Moved(tree, t, index, before, after)
    requires Stranded(index.KeysIf(before)) <= KeySet(index.KeysIf(after)) && Fit(index.KeysIf(after))
    ensures InStep(t, Changed(live, before, after), index)
  {
    hide Indexable, SplitUuid, Faithful, BigEndian, Index.KeysFor, Moved, Unrepeated, Stranded;
    var now := Changed(live, before, after);
    UnrepeatedIsPart(index.KeysIf(before));
    assert Fitting(index.KeysIf(after)) == index.KeysIf(after);
    forall u, k | u in now && k in index.KeysFor(now[u]) ensures k in t && t[k] == BigEndian(u, UUID_SIZE) {
      MovedHolds(tree, t, live, index, before, after, k);
      KeysIfHoldUuid(live, index, before, after, k);
      KeysForHoldUuid(now[u], index, k);
    }
    forall k | k in t ensures |k| >= 4 + UUID_SIZE && SplitUuid(k) in now && k in index.KeysFor(now[SplitUuid(k)]) {
      KeyStays(tree, t, live, index, before, after, k);
    }
  }

  lemma KeyStays(tree: Tree, t: Tree, live: map<Uuid, Item>, index: Index, before: Option<Item>, after: Option<Item>, k: Bytes)
    requires InStep(tree, live, index) && Known(live, index) && MayChange(live, index, before, after)
    requires Moved(tree, t, index, before, after) && k in t
    requires Stranded(index.KeysIf(before)) <= KeySet(index.KeysIf(after)) && Fit(index.KeysIf(after))
    ensures var now := Changed(live, before, after);
      |k| >= 4 + UUID_SIZE && SplitUuid(k) in now && k in index.KeysFor(now[SplitUuid(k)])
  {
    hide Indexable, SplitUuid, Faithful, BigEndian, Index.KeysFor, Moved, Unrepeated, Fitting;
    MovedHolds(tree, t, live, index, before, after, k);
    KeysIfHoldUuid(live, index, before, after, k);
    FittingIsPart(index.KeysIf(after));
    var was, put := index.KeysIf(before), index.KeysIf(after);
    assert k in was && k !in Unrepeated(was) ==> k in Stranded(was);
    assert k in Stranded(was) ==> k in put;
  }

  /** A change leaves the index in step exactly when no key of the old version stays behind that the new one does not have, and
      the new one's keys fit. */
  lemma ChangeInStepIff(tree: Tree, t: Tree, live: map<Uuid, Item>, index: Index, before: Option<Item>, after: Option<Item>)
    requires InStep(tree, live, index) && Known(live, index) && AllShort(tree) && MayChange(live, index, before, after)
    requires Moved(tree, t, index, before, after)
    ensures Known(Changed(live, before, after), index) && AllShort(t)
    ensures InStep(t, Changed(live, before, after), index)
      <==> Stranded(index.KeysIf(before)) <= KeySet(index.KeysIf(after)) && Fit(index.KeysIf(after))
  {
    hide InStep, Indexable, Faithful, Index.KeysFor, Moved, Unrepeated, Stranded, Fitting, KeySet, BigEndian;
    forall k | k in t ensures |k| <= MAX_KEY_SIZE {
      MovedHolds(tree, t, live, index, before, after, k);
      FittingIsPart(index.KeysIf(after));
    }
    if InStep(t, Changed(live, before, after), index) {
      FallsOut(tree, t, live, index, before, after);
    }
    if Stranded(index.KeysIf(before)) <= KeySet(index.KeysIf(after)) && Fit(index.KeysIf(after)) {
      StaysInStep(tree, t, live, index, before, after);
    }
  }

  /** Nothing stays behind of an object whose values the index tells apart. */
  lemma SeparateLeavesNothing(index: Index, o: Item)
    requires Indexable(o, index.spec, index.doubles) && Faithful(index.doubles) && index.Separates(o)
    ensures Stranded(index.KeysFor(o)) == {}
  {
    hide Separate, Distinct, KeysOf, Faithful, Stranded, SplitUuid, Bound, Encodable;
    NoValues(o.uuid, index.spec, index.doubles);
    DistinctIff(o.values, o.uuid, index.spec, index.doubles);
    UnrepeatedIsPart(index.KeysFor(o));
  }

  lemma {:induction false} KeysGrow(values: seq<Value>, i: nat, uuid: Uuid, spec: Spec, d: Doubles)
    requires i <= |values|
    ensures KeysOf(values[..i], uuid, spec, d) <= KeysOf(values, uuid, spec, d)
  {
    if i < |values| {
      KeysGrow(values[..|values| - 1], i, uuid, spec, d);
      assert values[..|values| - 1][..i] == values[..i];
    } else {
      assert values[..i] == values;
    }
  }

  lemma KeysStep(values: seq<Value>, i: nat, uuid: Uuid, spec: Spec, d: Doubles)
    requires i < |values|
    ensures var k, keys := KeyOf(values[i], uuid, spec, d), KeysOf(values[..i], uuid, spec, d);
      KeysOf(values[..i + 1], uuid, spec, d) == if k.Some? then keys + [k.value] else keys
    ensures KeysOf(values[..i], uuid, spec, d) <= KeysOf(values, uuid, spec, d)
    ensures KeysOf(values[..i + 1], uuid, spec, d) <= KeysOf(values, uuid, spec, d)
  {
    assert values[..i + 1][..i] == values[..i];
    KeysGrow(values, i, uuid, spec, d);
    KeysGrow(values, i + 1, uuid, spec, d);
  }

  lemma NoValues(uuid: Uuid, spec: Spec, d: Doubles)
    ensures KeysOf([], uuid, spec, d) == [] && Distinct([])
  {
  }

  lemma NothingRemoved(tree: Tree)
    ensures Removable(tree, []) && tree - KeySet([]) == tree
  {
  }

  lemma Prefixes(keys: seq<Bytes>, front: seq<Bytes>, key: Bytes)
    requires front + [key] <= keys
    ensures |front| < |keys| && keys[..|front|] == front && keys[..|front| + 1] == front + [key]
  {
  }

  lemma NoKeys(tree: Tree, value: Bytes)
    ensures PutAll(tree, [], value) == tree && Fit([])
  {
  }

  lemma RepeatedKey(keys: seq<Bytes>, key: Bytes, more: seq<Bytes>)
    requires keys + [key] <= more
    ensures key in keys ==> !Distinct(more)
  {
    if key in keys {
      var j :| 0 <= j < |keys| && keys[j] == key;
      assert more[j] == more[|keys|];
    }
  }

  lemma PutOneMore(tree: Tree, keys: seq<Bytes>, key: Bytes, value: Bytes)
    ensures PutAll(tree, keys + [key], value) == PutAll(tree, keys, value)[key := value]
    ensures Fit(keys + [key]) <==> Fit(keys) && |key| <= MAX_KEY_SIZE
    ensures forall more :: keys + [key] <= more && Fit(more) ==> |key| <= MAX_KEY_SIZE
    ensures forall more :: keys + [key] <= more ==> key in more && forall k :: k in keys ==> k in more
  {
    var r := keys + [key];
    assert r[..|r| - 1] == keys && r[|keys|] == key;
    forall more | r <= more ensures key in more && forall k :: k in keys ==> k in more {
      assert more[|keys|] == key;
      forall k | k in keys ensures k in more {
        var j :| 0 <= j < |keys| && keys[j] == k;
        assert more[j] == k;
      }
    }
    if Fit(keys) && |key| <= MAX_KEY_SIZE {
      forall k | k in r ensures |k| <= MAX_KEY_SIZE {
      }
    }
    assert forall k :: k in keys ==> k in r;
  }

  lemma RemovableOneMore(tree: Tree, keys: seq<Bytes>, key: Bytes)
    requires Removable(tree, keys)
    ensures Removable(tree, keys + [key]) <==> key in tree - KeySet(keys)
    ensures forall more :: keys + [key] <= more && Removable(tree, more) ==> key in tree - KeySet(keys)
    ensures tree - KeySet(keys + [key]) == tree - KeySet(keys) - {key}
  {
    var r := keys + [key];
    assert KeySet(r) == KeySet(keys) + {key};
    if Removable(tree, r) {
      assert r[|keys|] == key && key in KeySet(r);
    }
    forall more | r <= more && Removable(tree, more) ensures key in tree - KeySet(keys) {
      assert more[|keys|] == key && key in KeySet(more);
      RepeatedKey(keys, key, more);
    }
    if key in tree - KeySet(keys) {
      assert Removable(tree, r);
    }
  }
}

// The query model: one sorted list of rows over several partitions, each with its own sorted list, and the windows of
// rows that are fetched from them.
module QueryModels {

  /** A row's key. The rank is the place of the index value in the order of values, the uuid that of the object's uuid. */
  datatype SortingKey = SortingKey(rank: int, uuid: int, partition: nat)

  type Keys = seq<SortingKey>

  /** Equal values are ordered by uuid, both in the direction of the sort. */
  predicate Less(a: SortingKey, b: SortingKey, ascending: bool) {
    if ascending then a.rank < b.rank || (a.rank == b.rank && a.uuid < b.uuid)
    else b.rank < a.rank || (a.rank == b.rank && b.uuid < a.uuid)
  }

  predicate Equal(a: SortingKey, b: SortingKey) {
    a.rank == b.rank && a.uuid == b.uuid
  }

  ghost predicate Sorted(s: Keys, ascending: bool) {
    forall i, j :: 0 <= i < j < |s| ==> Less(s[i], s[j], ascending)
  }

  /** In a sorted list ranks rise or fall in the direction of the sort, and rows of one rank are ordered by uuid in the same
      direction; all rows differ in one of the two. */
  lemma SortedDirection(s: Keys, ascending: bool)
    ensures Sorted(s, ascending) <==> forall i, j :: 0 <= i < j < |s| ==>
      if s[i].rank == s[j].rank then s[i].uuid != s[j].uuid && (s[i].uuid < s[j].uuid <==> ascending)
      else s[i].rank < s[j].rank <==> ascending
  {
  }

  /** Descending is ascending read backwards. */
  lemma DescendingIsReversed(s: Keys)
    ensures Sorted(s, false) <==> Sorted(seq(|s|, i requires 0 <= i < |s| => s[|s| - 1 - i]), true)
  {
    var r := seq(|s|, i requires 0 <= i < |s| => s[|s| - 1 - i]);
    if Sorted(r, true) {
      forall i, j | 0 <= i < j < |s| ensures Less(s[i], s[j], false) {
        assert r[|s| - 1 - j] == s[j] && r[|s| - 1 - i] == s[i];
      }
    }
  }

  // ---- sorted maps -------------------------------------------------------------------------------------------

  /** Where the first key above k is. */
  function UpperBound(s: Keys, k: SortingKey, ascending: bool): (i: nat)
    ensures i <= |s|
  {
    if s == [] || !Less(k, s[|s| - 1], ascending) then |s| else UpperBound(s[..|s| - 1], k, ascending)
  }

  function Insert(s: Keys, k: SortingKey, ascending: bool): Keys {
    var i := UpperBound(s, k, ascending);
    s[..i] + [k] + s[i..]
  }

  function IndexOf(s: Keys, k: SortingKey): (i: nat)
    ensures i <= |s| && (k in s ==> i < |s| && s[i] == k)
  {
    if s == [] then 0 else if s[0] == k then 0 else 1 + IndexOf(s[1..], k)
  }

  function Remove(s: Keys, k: SortingKey): Keys {
    var i := IndexOf(s, k);
    if i < |s| then s[..i] + s[i + 1..] else s
  }

  lemma {:induction false} UpperBoundSplits(s: Keys, k: SortingKey, ascending: bool)
    requires Sorted(s, ascending)
    ensures var u := UpperBound(s, k, ascending);
      && (forall i :: 0 <= i < u ==> !Less(k, s[i], ascending))
      && (forall i :: u <= i < |s| ==> Less(k, s[i], ascending))
  {
    if s != [] && Less(k, s[|s| - 1], ascending) {
      UpperBoundSplits(s[..|s| - 1], k, ascending);
    }
  }

  ghost predicate HasUuid(s: Keys, uuid: int) {
    exists i :: 0 <= i < |s| && s[i].uuid == uuid
  }

  lemma InsertSorted(s: Keys, k: SortingKey, ascending: bool)
    requires Sorted(s, ascending) && !HasUuid(s, k.uuid)
    ensures Sorted(Insert(s, k, ascending), ascending)
    ensures forall e :: e in Insert(s, k, ascending) <==> e == k || e in s
  {
    hide UpperBound, Less;
    UpperBoundApart(s, k, ascending);
    var u, r := UpperBound(s, k, ascending), Insert(s, k, ascending);
    forall i, j | 0 <= i < j < |r| ensures Less(r[i], r[j], ascending) {
      assert i != u ==> r[i] == s[if i < u then i else i - 1];
      assert j != u ==> r[j] == s[if j < u then j else j - 1];
    }
    forall e | e in s ensures e in r {
      var i :| 0 <= i < |s| && s[i] == e;
      assert r[if i < u then i else i + 1] == e;
    }
    assert r[u] == k;
  }

  lemma UpperBoundApart(s: Keys, k: SortingKey, ascending: bool)
    requires Sorted(s, ascending) && !HasUuid(s, k.uuid)
    ensures forall i :: 0 <= i < |s| ==> if i < UpperBound(s, k, ascending) then Less(s[i], k, ascending) else Less(k, s[i], ascending)
  {
    hide UpperBound;
    UpperBoundSplits(s, k, ascending);
    assert forall i :: 0 <= i < |s| ==> s[i].uuid != k.uuid;
  }

  lemma RemoveSorted(s: Keys, k: SortingKey, ascending: bool)
    requires Sorted(s, ascending) && k in s
    ensures Sorted(Remove(s, k), ascending)
    ensures forall e :: e in Remove(s, k) <==> e != k && e in s
  {
    hide IndexOf;
    var n, r := IndexOf(s, k), Remove(s, k);
    assert forall i :: 0 <= i < n ==> r[i] == s[i];
    assert forall i :: n <= i < |r| ==> r[i] == s[i + 1];
    assert forall i :: n < i < |s| ==> s[i] == r[i - 1];
  }

  // ---- the rows of one partition -----------------------------------------------------------------------------

  /** The rows of partition p, in order. */
  function Part(s: Keys, p: nat): Keys {
    if s == [] then [] else Part(s[..|s| - 1], p) + if s[|s| - 1].partition == p then [s[|s| - 1]] else []
  }

  lemma {:induction false} PartOfSum(a: Keys, b: Keys, p: nat)
    ensures Part(a + b, p) == Part(a, p) + Part(b, p)
  {
    if b == [] {
      assert a + b == a;
    } else {
      PartOfSum(a, b[..|b| - 1], p);
      assert (a + b)[..|a + b| - 1] == a + b[..|b| - 1];
    }
  }

  lemma {:induction false} PartHolds(s: Keys, p: nat)
    ensures forall k :: k in Part(s, p) <==> k in s && k.partition == p
  {
    if s != [] {
      PartHolds(s[..|s| - 1], p);
      assert s == s[..|s| - 1] + [s[|s| - 1]];
    }
  }

  lemma {:induction false} PartSorted(s: Keys, p: nat, ascending: bool)
    requires Sorted(s, ascending)
    ensures Sorted(Part(s, p), ascending)
  {
    if s != [] {
      PartSorted(s[..|s| - 1], p, ascending);
      PartHolds(s[..|s| - 1], p);
    }
  }

  /** The rows of a window that belong to p are one stretch of p's rows. */
  lemma WindowOfPart(s: Keys, start: nat, end: nat, p: nat)
    requires start <= end <= |s|
    ensures var from, n := |Part(s[..start], p)|, |Part(s[start..end], p)|;
      from + n <= |Part(s, p)| && Part(s, p)[from..from + n] == Part(s[start..end], p)
  {
    PartOfSum(s[..start], s[start..], p);
    PartOfSum(s[start..end], s[end..], p);
    assert s == s[..start] + s[start..] && s[start..] == s[start..end] + s[end..];
  }

  lemma PartOfOne(k: SortingKey, p: nat)
    ensures Part([k], p) == if k.partition == p then [k] else []
  {
  }

  lemma HasFirst(s: Keys)
    ensures s == [] || exists k :: k in s
  {
    if s != [] {
      assert s[0] in s;
    }
  }

  /** A sorted list of given keys is unique, so inserting commutes with taking the rows of a partition. */
  lemma {:induction false} SortedIsUnique(a: Keys, b: Keys, ascending: bool)
    requires Sorted(a, ascending) && Sorted(b, ascending) && forall k :: k in a <==> k in b
    ensures a == b
  {
    if a == [] {
      HasFirst(b);
    } else {
      assert a[0] in b;
      assert b[0] in a;
      var i :| 0 <= i < |b| && b[i] == a[0];
      var j :| 0 <= j < |a| && a[j] == b[0];
      forall k ensures k in a[1..] <==> k in b[1..] {
        if k in a[1..] { assert k in b; var m :| 0 <= m < |b| && b[m] == k; }
        if k in b[1..] { assert k in a; var m :| 0 <= m < |a| && a[m] == k; }
      }
      SortedIsUnique(a[1..], b[1..], ascending);
      assert a == [a[0]] + a[1..] && b == [b[0]] + b[1..];
    }
  }

  lemma PartOfInsert(s: Keys, k: SortingKey, p: nat, ascending: bool)
    requires Sorted(s, ascending) && !HasUuid(s, k.uuid)
    ensures Part(Insert(s, k, ascending), p) == if k.partition == p then Insert(Part(s, p), k, ascending) else Part(s, p)
  {
    hide Insert, Sorted, Part;
    InsertSorted(s, k, ascending);
    PartSorted(s, p, ascending);
    PartSorted(Insert(s, k, ascending), p, ascending);
    PartHolds(s, p);
    PartHolds(Insert(s, k, ascending), p);
    if k.partition == p {
      InsertSorted(Part(s, p), k, ascending);
      SortedIsUnique(Part(Insert(s, k, ascending), p), Insert(Part(s, p), k, ascending), ascending);
    } else {
      SortedIsUnique(Part(Insert(s, k, ascending), p), Part(s, p), ascending);
    }
  }

  lemma PartOfRemove(s: Keys, k: SortingKey, p: nat, ascending: bool)
    requires Sorted(s, ascending) && k in s
    ensures Part(Remove(s, k), p) == if k.partition == p then Remove(Part(s, p), k) else Part(s, p)
  {
    hide Remove, Sorted, Part;
    RemoveSorted(s, k, ascending);
    PartSorted(s, p, ascending);
    PartSorted(Remove(s, k), p, ascending);
    PartHolds(s, p);
    PartHolds(Remove(s, k), p);
    if k.partition == p {
      RemoveSorted(Part(s, p), k, ascending);
      SortedIsUnique(Part(Remove(s, k), p), Remove(Part(s, p), k), ascending);
    } else {
      SortedIsUnique(Part(Remove(s, k), p), Part(s, p), ascending);
    }
  }

  lemma PartsOfInsert(s: Keys, k: SortingKey, ascending: bool)
    requires Sorted(s, ascending) && !HasUuid(s, k.uuid)
    ensures forall p: nat :: Part(Insert(s, k, ascending), p) == if k.partition == p then Insert(Part(s, p), k, ascending) else Part(s, p)
  {
    hide Insert, Part, Sorted, HasUuid;
    forall p: nat ensures Part(Insert(s, k, ascending), p) == if k.partition == p then Insert(Part(s, p), k, ascending) else Part(s, p) {
      PartOfInsert(s, k, p, ascending);
    }
  }

  lemma PartsOfRemove(s: Keys, k: SortingKey, ascending: bool)
    requires Sorted(s, ascending) && k in s
    ensures forall p: nat :: Part(Remove(s, k), p) == if k.partition == p then Remove(Part(s, p), k) else Part(s, p)
  {
    hide Remove, Part, Sorted;
    forall p: nat ensures Part(Remove(s, k), p) == if k.partition == p then Remove(Part(s, p), k) else Part(s, p) {
      PartOfRemove(s, k, p, ascending);
    }
  }

  /** Rows from the place of an inserted key on move up by one. */
  lemma InsertPlaces(s: Keys, k: SortingKey, ascending: bool)
    ensures var r, u := Insert(s, k, ascending), UpperBound(s, k, ascending);
      && |r| == |s| + 1 && r[u] == k && forall i :: 0 <= i < |s| ==> r[if i < u then i else i + 1] == s[i]
  {
    hide UpperBound;
  }

  lemma RemovePlaces(s: Keys, k: SortingKey)
    requires k in s
    ensures var r, n := Remove(s, k), IndexOf(s, k);
      && |r| == |s| - 1 && n < |s| && s[n] == k && forall i :: 0 <= i < |s| && i != n ==> r[if i < n then i else i - 1] == s[i]
  {
    hide IndexOf;
  }

  // ---- binary search -----------------------------------------------------------------------------------------

  /** findIndexOf. */
  function FindIndexOf(s: Keys, k: SortingKey, low: int, high: int, ascending: bool): int
    requires 0 <= low && high < |s|
    decreases high - low + 1
  {
    if high < low then -1
    else
      var mid := (low + high) / 2;
      if Equal(s[mid], k) then mid
      else if Less(s[mid], k, ascending) then FindIndexOf(s, k, mid + 1, high, ascending)
      else FindIndexOf(s, k, low, mid - 1, ascending)
  }

  /** The binary search finds a key of a sorted list, and only that. */
  lemma {:induction false} FindIndexOfFinds(s: Keys, k: SortingKey, low: int, high: int, ascending: bool, i: nat)
    requires 0 <= low && high < |s| && Sorted(s, ascending) && low <= i <= high && Equal(s[i], k)
    ensures FindIndexOf(s, k, low, high, ascending) == i
    decreases high - low + 1
  {
    var mid := (low + high) / 2;
    if mid < i {
      FindIndexOfFinds(s, k, mid + 1, high, ascending, i);
    } else if i < mid {
      FindIndexOfFinds(s, k, low, mid - 1, ascending, i);
    }
  }

  lemma {:induction false} FindIndexOfMisses(s: Keys, k: SortingKey, low: int, high: int, ascending: bool)
    requires 0 <= low && high < |s| && forall i :: low <= i <= high ==> !Equal(s[i], k)
    ensures FindIndexOf(s, k, low, high, ascending) == -1
    decreases high - low + 1
  {
    if low <= high {
      var mid := (low + high) / 2;
      FindIndexOfMisses(s, k, mid + 1, high, ascending);
      FindIndexOfMisses(s, k, low, mid - 1, ascending);
    }
  }

  /** Where row j of all rows is among the rows of its partition. */
  lemma PlaceInPart(s: Keys, j: nat, ascending: bool)
    requires j < |s| && Sorted(s, ascending)
    ensures var p := s[j].partition; var part := Part(s, p);
      FindIndexOf(part, s[j], 0, |part| - 1, ascending) == |Part(s[..j], p)|
  {
    hide FindIndexOf, Part;
    var p := s[j].partition;
    PartSorted(s, p, ascending);
    WindowOfPart(s, j, j + 1, p);
    assert s[j..j + 1] == [s[j]];
    PartOfOne(s[j], p);
    var from, part := |Part(s[..j], p)|, Part(s, p);
    assert part[from] == part[from..from + 1][0];
    FindIndexOfFinds(part, s[j], 0, |part| - 1, ascending, from);
  }

  lemma NotHasUuid(s: Keys, uuid: int)
    requires forall k :: k in s ==> k.uuid != uuid
    ensures !HasUuid(s, uuid)
  {
    forall i | 0 <= i < |s| ensures s[i].uuid != uuid {
      assert s[i] in s;
    }
  }

  lemma RowsDiffer(s: Keys, ascending: bool)
    requires Sorted(s, ascending)
    ensures forall i, j :: 0 <= i < |s| && 0 <= j < |s| && s[i] == s[j] ==> i == j
  {
  }

  // ---- rows that move ----------------------------------------------------------------------------------------

  /** The place of a key that is in the list, given where the lists splits. */
  lemma UpperBoundIs(s: Keys, k: SortingKey, ascending: bool, u: nat)
    requires Sorted(s, ascending) && u <= |s|
    requires (forall i :: 0 <= i < u ==> !Less(k, s[i], ascending)) && (forall i :: u <= i < |s| ==> Less(k, s[i], ascending))
    ensures UpperBound(s, k, ascending) == u
  {
    UpperBoundSplits(s, k, ascending);
  }

  /** Taking a key out and putting another in, told by the places both have in the list before. */
  lemma Moved(s: Keys, key: SortingKey, newKey: SortingKey, ascending: bool)
    requires Sorted(s, ascending) && key in s
    ensures var o, u := IndexOf(s, key), UpperBound(s, newKey, ascending);
      UpperBound(Remove(s, key), newKey, ascending) == if o < u then u - 1 else u
  {
    hide IndexOf, UpperBound;
    UpperBoundSplits(s, newKey, ascending);
    RemoveSorted(s, key, ascending);
    var o, u, r := IndexOf(s, key), UpperBound(s, newKey, ascending), Remove(s, key);
    assert forall i :: 0 <= i < o ==> r[i] == s[i];
    assert forall i :: o <= i < |r| ==> r[i] == s[i + 1];
    UpperBoundIs(r, newKey, ascending, if o < u then u - 1 else u);
  }

  // ---- the model ---------------------------------------------------------------------------------------------

  /** A window of the rows of one partition; index -1 if it has none. */
  datatype IndexNSize = IndexNSize(index: int, count: nat)

  class QueryModel {
    const ascending: bool
    const partitions: nat
    var objectUuids: Keys
    var partitionObjectUuids: seq<Keys>
    var objectSortValues: map<int, SortingKey>
    var lastQueriedIndex: int

    constructor (partitions: nat, ascending: bool)
      ensures Valid() && objectUuids == [] && this.partitions == partitions && this.ascending == ascending
      ensures lastQueriedIndex == -1
    {
      this.partitions, this.ascending := partitions, ascending;
      objectUuids, objectSortValues, lastQueriedIndex := [], map[], -1;
      partitionObjectUuids := seq(partitions, i => []);
    }

    /** All rows are the merge of the rows of the partitions, and the inverse of the sort values. */
    ghost predicate Valid()
      reads this
    {
      && Sorted(objectUuids, ascending) && |partitionObjectUuids| == partitions
      && (forall p :: 0 <= p < partitions ==> partitionObjectUuids[p] == Part(objectUuids, p))
      && (forall k :: k in objectUuids ==>
            k.partition < partitions && k.uuid in objectSortValues && objectSortValues[k.uuid] == k)
      && (forall u :: u in objectSortValues ==> objectSortValues[u].uuid == u && objectSortValues[u] in objectUuids)
      && -1 <= lastQueriedIndex < |objectUuids|
    }

    /** The row that was read last, unless it changed since. */
    ghost function LastRow(): set<SortingKey>
      reads this
      requires Valid()
    {
      if lastQueriedIndex == -1 then {} else {objectUuids[lastQueriedIndex]}
    }

    method AddItem(uuid: int, rank: int, partition: nat)
      requires Valid() && partition < partitions
      modifies this
      ensures Valid() && LastRow() == old(LastRow())
      ensures if uuid in old(objectSortValues) then objectSortValues == old(objectSortValues)
              else objectSortValues == old(objectSortValues)[uuid := SortingKey(rank, uuid, partition)]
    {
      hide Insert, Part, UpperBound, Sorted;
      if uuid in objectSortValues {
        return;
      }
      var key := SortingKey(rank, uuid, partition);
      var index := UpperBound(objectUuids, key, ascending);
      IsNew(uuid);
      InsertSorted(objectUuids, key, ascending);
      InsertPlaces(objectUuids, key, ascending);
      PartsOfInsert(objectUuids, key, ascending);
      if index <= lastQueriedIndex {
        lastQueriedIndex := lastQueriedIndex + 1;
      }
      objectUuids := Insert(objectUuids, key, ascending);
      partitionObjectUuids := partitionObjectUuids[partition := Insert(partitionObjectUuids[partition], key, ascending)];
      objectSortValues := objectSortValues[uuid := key];
    }

    lemma IsNew(uuid: int)
      requires Valid() && uuid !in objectSortValues
      ensures !HasUuid(objectUuids, uuid)
    {
      hide Sorted, Part;
    }

    method DeleteItem(uuid: int, partition: nat)
      requires Valid() && partition < partitions
      requires uuid in objectSortValues ==> objectSortValues[uuid].partition == partition
      modifies this
      ensures Valid() && objectSortValues == old(objectSortValues) - {uuid}
      ensures LastRow() == set k | k in old(LastRow()) && k.uuid != uuid
    {
      hide Remove, Part, IndexOf, Sorted;
      if uuid in objectSortValues {
        var key := objectSortValues[uuid];
        var index := IndexOf(objectUuids, key);
        RemoveSorted(objectUuids, key, ascending);
        RemovePlaces(objectUuids, key);
        PartsOfRemove(objectUuids, key, ascending);
        partitionObjectUuids := partitionObjectUuids[partition := Remove(partitionObjectUuids[partition], key)];
        objectUuids := Remove(objectUuids, key);
        objectSortValues := objectSortValues - {uuid};
        if index == lastQueriedIndex {
          lastQueriedIndex := -1;
        } else if index < lastQueriedIndex {
          lastQueriedIndex := lastQueriedIndex - 1;
        }
      }
    }

    method UpdateItem(uuid: int, rank: int, partition: nat)
      requires Valid() && partition < partitions
      requires uuid in objectSortValues ==> objectSortValues[uuid].partition == partition
      modifies this
      ensures Valid() && objectSortValues == old(objectSortValues)[uuid := SortingKey(rank, uuid, partition)]
      ensures LastRow() == set k | k in old(LastRow()) && k.uuid != uuid
    {
      hide Remove, Insert, Part, IndexOf, UpperBound, Sorted;
      if uuid !in objectSortValues {
        AddItem(uuid, rank, partition);
        return;
      }
      var key, newKey := objectSortValues[uuid], SortingKey(rank, uuid, partition);
      var oldIndex := IndexOf(objectUuids, key);
      RowsDiffer(objectUuids, ascending);
      if oldIndex == lastQueriedIndex {
        lastQueriedIndex := -1;
      }
      if Equal(key, newKey) {
        return;
      }
      MoveItem(key, newKey);
    }

    /** The row of an object goes to another place. */
    method MoveItem(key: SortingKey, newKey: SortingKey)
      requires Valid() && key in objectUuids && newKey.uuid == key.uuid && newKey.partition == key.partition
      requires lastQueriedIndex != IndexOf(objectUuids, key)
      modifies this
      ensures Valid() && objectSortValues == old(objectSortValues)[key.uuid := newKey] && LastRow() == old(LastRow())
    {
      hide Remove, Insert, Part, IndexOf, UpperBound, Sorted;
      var oldIndex := IndexOf(objectUuids, key);
      var uuid, partition := key.uuid, key.partition;
      var newIndex := UpperBound(objectUuids, newKey, ascending);
      MovedRows(key, newKey);
      if newIndex != oldIndex && newIndex != oldIndex + 1 {
        if oldIndex < lastQueriedIndex && newIndex > lastQueriedIndex {
          lastQueriedIndex := lastQueriedIndex - 1;
        } else if oldIndex > lastQueriedIndex && newIndex <= lastQueriedIndex {
          lastQueriedIndex := lastQueriedIndex + 1;
        }
      }
      objectUuids := Insert(Remove(objectUuids, key), newKey, ascending);
      partitionObjectUuids := partitionObjectUuids[partition := Insert(Remove(partitionObjectUuids[partition], key), newKey, ascending)];
      objectSortValues := objectSortValues[uuid := newKey];
    }

    /** Where each row is after a row moved. */
    lemma MovedRows(key: SortingKey, newKey: SortingKey)
      requires Sorted(objectUuids, ascending) && key in objectUuids && newKey.uuid == key.uuid
      requires forall k :: k in objectUuids && k.uuid == key.uuid ==> k == key
      requires newKey.partition == key.partition
      ensures var o, u := IndexOf(objectUuids, key), UpperBound(objectUuids, newKey, ascending);
        var r := Insert(Remove(objectUuids, key), newKey, ascending);
        && Sorted(r, ascending) && (forall e :: e in r <==> e == newKey || (e != key && e in objectUuids))
        && |r| == |objectUuids| && o < |objectUuids| && objectUuids[o] == key
        && (forall i :: 0 <= i < |r| && i != o ==>
              r[if o < i < u then i - 1 else if u <= i < o then i + 1 else i] == objectUuids[i])
        && (forall p: nat :: Part(r, p) ==
              if key.partition == p then Insert(Remove(Part(objectUuids, p), key), newKey, ascending) else Part(objectUuids, p))
    {
      hide Remove, Insert, Part, IndexOf, UpperBound, Sorted;
      var s := Remove(objectUuids, key);
      RemoveSorted(objectUuids, key, ascending);
      RemovePlaces(objectUuids, key);
      PartsOfRemove(objectUuids, key, ascending);
      NotHasUuid(s, newKey.uuid);
      Moved(objectUuids, key, newKey, ascending);
      InsertSorted(s, newKey, ascending);
      InsertPlaces(s, newKey, ascending);
      PartsOfInsert(s, newKey, ascending);
    }

    /** createObjectRequests: the rows of a window, told as one stretch of rows for each partition. */
    method CreateObjectRequests(startIndex: nat, maxItems: nat) returns (requests: seq<IndexNSize>)
      requires Valid()
      ensures startIndex < |objectUuids| ==>
        && |requests| == partitions
        && forall p :: 0 <= p < partitions ==>
          Fetches(requests[p], partitionObjectUuids[p], Part(objectUuids[startIndex..EndOf(startIndex, maxItems)], p))
      ensures startIndex >= |objectUuids| ==> requests == []
    {
      hide Part, FindIndexOf;
      if startIndex >= |objectUuids| {
        return [];
      }
      var end := if startIndex + maxItems > |objectUuids| then |objectUuids| else startIndex + maxItems;
      requests := seq(partitions, i => IndexNSize(-1, 0));
      NoRows();
      assert objectUuids[startIndex..startIndex] == [];
      for i := startIndex to end
        invariant |requests| == partitions
        invariant forall p :: 0 <= p < partitions ==>
          && Fetches(requests[p], partitionObjectUuids[p], Part(objectUuids[startIndex..i], p))
          && (requests[p].index == -1 || requests[p].index == |Part(objectUuids[..startIndex], p)|)
      {
        var key := objectUuids[i];
        var index := key.partition;
        var part := partitionObjectUuids[index];
        var r := requests[index];
        if r.index == -1 {
          r := r.(index := FindIndexOf(part, key, 0, |part| - 1, ascending));
        }
        OneMoreRow(startIndex, i);
        requests := requests[index := r.(count := r.count + 1)];
      }
    }

    /** A window has as many rows as it may, and no more than there are. */
    ghost function EndOf(startIndex: nat, maxItems: nat): (end: nat)
      reads this
      ensures startIndex <= |objectUuids| ==> startIndex <= end <= |objectUuids| && end - startIndex <= maxItems
      ensures end < |objectUuids| && startIndex <= |objectUuids| ==> end - startIndex == maxItems
    {
      if startIndex + maxItems > |objectUuids| then |objectUuids| else startIndex + maxItems
    }

    lemma NoRows()
      ensures forall p: nat :: Part([], p) == []
    {
    }

    /** What one more row of the window changes. */
    lemma OneMoreRow(startIndex: nat, i: nat)
      requires Valid() && startIndex <= i < |objectUuids|
      ensures var key := objectUuids[i]; var p := key.partition; var part := Part(objectUuids, p);
        var was := Part(objectUuids[startIndex..i], p); var from := |Part(objectUuids[..startIndex], p)|;
        && Part(objectUuids[startIndex..i + 1], p) == was + [key]
        && from + |was| < |part| && part[from..from + |was| + 1] == was + [key] && part[from..from + |was|] == was
        && FindIndexOf(part, key, 0, |part| - 1, ascending) == from + |was|
      ensures forall p: nat :: p != objectUuids[i].partition ==> Part(objectUuids[startIndex..i + 1], p) == Part(objectUuids[startIndex..i], p)
    {
      hide Part, FindIndexOf, Sorted;
      var key := objectUuids[i];
      assert objectUuids[startIndex..i + 1] == objectUuids[startIndex..i] + [key];
      assert objectUuids[..i] == objectUuids[..startIndex] + objectUuids[startIndex..i];
      forall p: nat ensures Part(objectUuids[startIndex..i + 1], p) == Part(objectUuids[startIndex..i], p) + if key.partition == p then [key] else [] {
        PartOfSum(objectUuids[startIndex..i], [key], p);
        PartOfOne(key, p);
      }
      PartOfSum(objectUuids[..startIndex], objectUuids[startIndex..i], key.partition);
      WindowOfPart(objectUuids, startIndex, i + 1, key.partition);
      WindowOfPart(objectUuids, startIndex, i, key.partition);
      PlaceInPart(objectUuids, i, ascending);
    }
  }

  /** The request names exactly these rows of the partition's, as one stretch. */
  ghost predicate Fetches(r: IndexNSize, part: Keys, rows: Keys) {
    if r.index == -1 then rows == [] && r.count == 0
    else r.count > 0 && 0 <= r.index && r.index + r.count <= |part| && part[r.index..r.index + r.count] == rows
  }
}

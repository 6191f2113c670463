// Queries on a secondary index: a scan of the index tree with a cursor that stops early when it may.
module IndexQueries {
  import opened HBtreeRecords
  import opened Options
  import opened TreeInvariant
  import opened CursorSteps
  import opened Cursors
  import opened ForwardKeys
  import opened IndexTerms

  /** What the query looks at in an object. */
  datatype Doc = Doc(uuid: Uuid, deleted: bool, typeName: string)

  type Rows = map<real, IndexKey>

  /** The order of the index tree: the places of built keys follow the compare function (see
      ForwardKeys.IndexCompareIsOrder), and equal places mean equal bytes. */
  ghost predicate PlacesKeys(place: Bytes -> real, d: Doubles) {
    && (forall a, b :: place(a) == place(b) ==> a == b)
    && (forall x, y :: Storable(x, d) && Storable(y, d) ==>
          (PlaceOf(x, place, d) <= PlaceOf(y, place, d) <==> CompareKeys(x, y) <= 0))
    && (forall x :: Storable(x, d) ==> 0.0 <= PlaceOf(x, place, d) < TOP)
  }

  predicate Storable(k: IndexKey, d: Doubles) {
    Encodable(k.value, d) && k.uuid < UUID_LIMIT
  }

  function PlaceOf(k: IndexKey, place: Bytes -> real, d: Doubles): real {
    place(MakeForwardKey(k, d))
  }

  /** The entries of the index tree are the rows: their keys are forward keys, field values have the type of the index, the
      values name the objects, and the objects exist. */
  ghost predicate RowsOk(entries: Entries, rows: Rows, docs: map<Uuid, Doc>, ty: IndexType, place: Bytes -> real, d: Doubles) {
    && Faithful(d) && PlacesKeys(place, d) && rows.Keys == entries.Keys
    && forall e :: e in rows ==>
         && OfType(rows[e].value, ty) && Storable(rows[e], d) && rows[e].uuid in docs
         && e == PlaceOf(rows[e], place, d) && entries[e] == BigEndian(rows[e].uuid, UUID_SIZE)
  }

  /** What a row holds is read back from the bytes of its key and its value. */
  lemma ReadRow(entries: Entries, rows: Rows, docs: map<Uuid, Doc>, ty: IndexType, place: Bytes -> real, d: Doubles, key: Key)
    requires RowsOk(entries, rows, docs, ty, place, d) && key.ord in entries && key.ord == place(key.data)
    ensures |key.data| >= 4 + UUID_SIZE && SplitValue(key.data, d) == rows[key.ord].value
    ensures FromBigEndian(entries[key.ord]) == rows[key.ord].uuid
  {
    hide CompareKeys, BigEndian, FromBigEndian, MakeForwardKey, SplitValue, Power256;
    var k := rows[key.ord];
    assert key.data == MakeForwardKey(k, d);
    SplitInvertsMake(k, d);
    Powers();
    BigEndianBack(k.uuid, UUID_SIZE);
  }

  class IndexQuery {
    const cursor: Cursor
    const docs: map<Uuid, Doc>
    const doubles: Doubles
    const spec: Spec
    const ascending: bool
    const typeNames: set<string>
    const residual: Doc -> bool
    ghost const rows: Rows

    var constraints: seq<Constraint>
    var min: Value
    var max: Value
    var sparse: bool
    var fieldValue: Value
    ghost var terms: seq<Term>

    ghost predicate Valid()
      reads `constraints, `min, `max, `terms, cursor, cursor.btree
    {
      && cursor.Reads() && EmptyIsNoNumber(spec)
      && RowsOk(cursor.tree.entries, rows, docs, spec.ty, cursor.btree.lim.place, doubles)
      && Compile(terms, spec) == Compiled(constraints, min, max)
    }

    constructor (cursor: Cursor, docs: map<Uuid, Doc>, doubles: Doubles, spec: Spec, ascending: bool,
                 typeNames: set<string>, residual: Doc -> bool, ghost rows: Rows)
      requires cursor.Reads() && EmptyIsNoNumber(spec)
      requires RowsOk(cursor.tree.entries, rows, docs, spec.ty, cursor.btree.lim.place, doubles)
      ensures Valid() && terms == [] && this.cursor == cursor && this.rows == rows && this.docs == docs && this.doubles == doubles
      ensures this.spec == spec && this.ascending == ascending && this.typeNames == typeNames && this.residual == residual
      ensures fieldValue == Undefined && !sparse
    {
      this.cursor, this.docs, this.doubles := cursor, docs, doubles;
      this.spec, this.ascending, this.typeNames, this.residual, this.rows := spec, ascending, typeNames, residual, rows;
      constraints, min, max, sparse, fieldValue, terms := [], Undefined, Undefined, false, Undefined, [];
    }

    // ---- what the query means ----------------------------------------------------------------------------------

    predicate Kept(doc: Doc) {
      !doc.deleted && (typeNames == {} || doc.typeName in typeNames) && residual(doc)
    }

    /** The row meets all constraints, and its object the other conditions. */
    ghost predicate Wanted(e: real)
      reads `constraints
    {
      e in rows && MatchesAll(constraints, rows[e].value) && rows[e].uuid in docs && Kept(docs[rows[e].uuid])
    }

    /** The row's field value meets all terms of the query, and its object is there, not deleted, of one of the types, if there
        are any, and meets the rest of the query. */
    ghost predicate Asked(e: real)
      reads `terms
    {
      && e in rows && (forall i :: 0 <= i < |terms| ==> Meets(terms[i], spec, rows[e].value))
      && rows[e].uuid in docs
      && var doc := docs[rows[e].uuid];
        !doc.deleted && (typeNames == {} || doc.typeName in typeNames) && residual(doc)
    }

    /** What is wanted by the constraints is what is asked by the terms. */
    lemma WantedIsAsked()
      requires CanMove()
      ensures forall e :: Wanted(e) <==> Asked(e)
    {
      hide Compile, Meets, Matches, MatchesAll, Cursor.Reads, Cursor.Positioned, Cursor.NextIsNear, Cursor.Settled, OfType, CompareKeys, MakeForwardKey, BigEndian;
      forall e | e in rows
        ensures MatchesAll(constraints, rows[e].value) <==> forall i :: 0 <= i < |terms| ==> Meets(terms[i], spec, rows[e].value)
      {
        QueryMeaning(terms, spec, rows[e].value);
      }
    }

    ghost predicate Ahead(a: real, b: real) {
      if ascending then a < b else b < a
    }

    ghost predicate SomeFrom(p: real) {
      exists e :: e in rows && p <= e
    }

    /** The place of the lower bound. */
    function MinPlace(): real
      reads `min
    {
      PlaceOf(IndexKey(min, 0), cursor.btree.lim.place, doubles)
    }

    /** Where an ascending scan starts: at the lower bound, or at the beginning if nothing is there. */
    ghost function Start(): real
      reads `min
    {
      var p := MinPlace();
      if ascending && min != Undefined && SomeFrom(p) then p else 0.0
    }

    ghost predicate InScope(e: real)
      reads `min
    {
      e in rows && Start() <= e
    }

    /** The lower bound can be put into a key: its number is a double. */
    ghost predicate Searchable()
      reads `min
    {
      min != Undefined ==> Encodable(min, doubles)
    }

    /** The cursor can go on in the direction of the scan. */
    ghost predicate CanMove()
      reads `constraints, `min, `max, `terms, cursor, cursor.btree
    {
      Valid() && cursor.Positioned() && cursor.NextIsNear() && (ascending || cursor.Settled())
    }

    /** No wanted row in scope comes before e. */
    ghost predicate NoneBefore(e: real)
      reads `constraints, `min
    {
      forall w :: Wanted(w) && InScope(w) ==> !Ahead(w, e)
    }

    ghost predicate NoneIn()
      reads `constraints, `min
    {
      forall w :: InScope(w) ==> !Wanted(w)
    }

    ghost predicate NoneBetween(a: real, b: real)
      reads `constraints
    {
      forall w :: Wanted(w) && Ahead(a, w) ==> !Ahead(w, b)
    }

    ghost predicate NoneAhead(a: real)
      reads `constraints
    {
      forall w :: Wanted(w) ==> !Ahead(a, w)
    }

    // ---- compiling ---------------------------------------------------------------------------------------------

    /** compileOrQueryTerm. */
    method CompileOrQueryTerm(t: Term)
      requires Valid()
      modifies `constraints, `min, `max, `terms
      ensures Valid() && terms == old(terms) + [t]
    {
      hide RowsOk, Cursor.Reads, CompileTerm;
      assert (terms + [t])[..|terms + [t]| - 1] == terms;
      AddTerm(t);
      terms := terms + [t];
    }

    method AddTerm(t: Term)
      modifies `constraints, `min, `max
      ensures Compiled(constraints, min, max) == CompileTerm(old(Compiled(constraints, min, max)), t, spec)
    {
      hide Truncate, MakeFieldValue, Prefix, TextOf, ItemsOf;
      var v := Truncate(t.value, spec.ty, spec.maxSize);
      match t.op {
        case OpGt => AddConstraint(Gt(v)); min := Bound(v, spec);
        case OpGe => AddConstraint(Ge(v)); min := Bound(v, spec);
        case OpLt => AddConstraint(Lt(v)); max := Bound(v, spec);
        case OpLe => AddConstraint(Le(v)); max := Bound(v, spec);
        case OpEq => AddConstraint(Eq(v)); min := Bound(v, spec); max := Bound(v, spec);
        case OpMatches => AddPattern(t.re, false);
        case OpNotMatches => AddPattern(t.re, true);
        case OpNe => AddConstraint(Ne(v));
        case OpExists => AddConstraint(Exists);
        case OpNotExists => AddConstraint(NotExists);
        case OpIn =>
          var list := ItemsOf(t.value);
          if |list| == 1 { AddConstraint(Eq(list[0])); } else { AddConstraint(In(list)); }
        case OpNotIn => AddConstraint(NotIn(ItemsOf(t.value)));
        case OpStartsWith => AddConstraint(StartsWith(TextOf(t.value)));
        case OpUnknown =>
      }
    }

    method AddConstraint(c: Constraint)
      modifies `constraints
      ensures constraints == old(constraints) + [c]
    {
      constraints := constraints + [c];
    }

    method AddPattern(re: RegExp, negated: bool)
      modifies `constraints, `min, `max
      ensures constraints == old(constraints) + [Matching(re, negated)]
      ensures min == if re.caseSensitive then Bound(String(Prefix(re)), spec) else old(min)
      ensures max == if re.caseSensitive then Bound(String(Prefix(re)), spec) else old(max)
    {
      AddConstraint(Matching(re, negated));
      if re.caseSensitive {
        var prefix: Text := if re.wildcard then PlainPrefix(re.pattern) else [];
        min, max := Bound(String(prefix), spec), Bound(String(prefix), spec);
      }
    }

    method MatchesField(v: Value) returns (r: bool)
      ensures r == MatchesAll(constraints, v)
    {
      for i := 0 to |constraints|
        invariant forall j :: 0 <= j < i ==> Matches(constraints[j], v)
      {
        if !Matches(constraints[i], v) { return false; }
      }
      return true;
    }

    method SparseMatchPossible()
      modifies `sparse
      ensures sparse == AnySparse(constraints)
    {
      sparse := false;
      for i := 0 to |constraints|
        invariant sparse ==> AnySparse(constraints)
        invariant !sparse ==> forall j :: 0 <= j < i ==> !Sparse(constraints[j])
      {
        sparse := sparse || Sparse(constraints[i]);
      }
    }

    // ---- moving ------------------------------------------------------------------------------------------------

    ghost predicate IsStartRow(e: real)
      reads `min
    {
      InScope(e) && forall w :: InScope(w) ==> !Ahead(w, e)
    }

    ghost predicate NoRows()
      reads `min
    {
      forall w :: !InScope(w)
    }

    method SeekToStart() returns (ok: bool)
      requires Valid() && Searchable()
      modifies cursor
      ensures ok == cursor.valid && CanMove()
      ensures if ok then IsStartRow(cursor.key.ord) else NoRows()
    {
      hide RowsOk, Compile, Cursor.Reads;
      SameRows();
      ok := false;
      if ascending {
        if min != Undefined {
          var start := IndexKey(min, 0);
          BoundIsKey();
          ok := cursor.SeekRange(Key(MinPlace(), MakeForwardKey(start, doubles)), EqualOrGreater);
        }
        if !ok {
          ok := cursor.First();
          cursor.SettledIsNear();
        }
      } else {
        ok := cursor.Last();
        cursor.SettledIsNear();
      }
      SameRows();
    }

    lemma BoundIsKey()
      requires Valid() && Searchable() && min != Undefined
      ensures 0.0 <= MinPlace() < TOP
    {
      assert Storable(IndexKey(min, 0), doubles);
    }

    lemma SameRows()
      requires Valid()
      ensures rows.Keys == cursor.tree.entries.Keys
      ensures forall e :: e in rows ==> 0.0 <= e < TOP
    {
      EntriesInRange(cursor.View(), cursor.tree);
    }

    /** The rows at the cursor and behind it, in the direction of the scan. */
    ghost function Left(): set<real>
      reads cursor
    {
      if cursor.valid then set e | e in rows && !Ahead(e, cursor.key.ord) else {}
    }

    method SeekToNext() returns (ok: bool)
      requires CanMove() && cursor.valid
      modifies cursor
      ensures ok == cursor.valid && CanMove() && Left() < old(Left())
      ensures if ok then IsNextRow(old(cursor.key.ord), cursor.key.ord) else IsLastRow(old(cursor.key.ord))
    {
      hide RowsOk, Compile, Cursor.Reads;
      SameRows();
      ghost var e, left := cursor.key.ord, Left();
      assert e in left;
      if ascending {
        ok := cursor.Next();
      } else {
        cursor.SettledIsNear();
        ok := cursor.Previous();
      }
      cursor.SettledIsNear();
      assert e !in Left();
    }

    ghost predicate IsNextRow(a: real, b: real) {
      b in rows && Ahead(a, b) && forall w :: w in rows && Ahead(a, w) ==> !Ahead(w, b)
    }

    ghost predicate IsLastRow(a: real) {
      forall w :: w in rows ==> !Ahead(a, w)
    }

    /** The field value and the object of the row the cursor is at. */
    method Current() returns (v: Value, doc: Doc)
      requires CanMove() && cursor.valid
      ensures cursor.key.ord in rows && v == rows[cursor.key.ord].value
      ensures Wanted(cursor.key.ord) <==> MatchesAll(constraints, v) && Kept(doc)
      ensures Wanted(cursor.key.ord) ==> Standing(doc)
    {
      hide Cursor.Reads, Compile, SplitValue, FromBigEndian, MakeForwardKey, BigEndian, CompareKeys;
      ReadRow(cursor.tree.entries, rows, docs, spec.ty, cursor.btree.lim.place, doubles, cursor.key);
      v := SplitValue(cursor.key.data, doubles);
      doc := docs[FromBigEndian(cursor.value)];
    }

    // ---- scanning ----------------------------------------------------------------------------------------------

    lemma Starts(e: real)
      ensures IsStartRow(e) ==> InScope(e) && NoneBefore(e)
      ensures NoRows() ==> NoneIn()
    {
      hide MatchesAll, Start;
    }

    lemma GoesOn(from: real, b: real)
      requires Wanted(from)
      ensures IsNextRow(from, b) ==> b in rows && Ahead(from, b) && NoneBetween(from, b)
      ensures IsLastRow(from) ==> NoneAhead(from)
    {
      hide MatchesAll;
    }

    lemma SkippedInScope(a: real, b: real)
      requires CanMove() && IsNextRow(a, b) && !Wanted(a) && InScope(a) && NoneBefore(a)
      ensures InScope(b) && NoneBefore(b)
    {
      hide RowsOk, Compile, Cursor.Reads, Cursor.Positioned, Cursor.NextIsNear, Cursor.Settled, MatchesAll, Wanted;
      SameRows();
    }

    lemma SkippedBetween(from: real, a: real, b: real)
      requires IsNextRow(a, b) && !Wanted(a) && Ahead(from, a) && NoneBetween(from, a)
      ensures b in rows && Ahead(from, b) && NoneBetween(from, b)
    {
      hide MatchesAll;
    }

    lemma NoMore(a: real)
      requires IsLastRow(a) && !Wanted(a)
      ensures NoneBefore(a) ==> NoneIn()
      ensures forall e :: Ahead(e, a) && NoneBetween(e, a) ==> NoneAhead(e)
    {
      hide MatchesAll;
    }

    /** The first wanted row from the start of the scan. */
    method First() returns (r: Option<Doc>)
      requires Valid() && Searchable()
      modifies cursor, `sparse, `fieldValue
      ensures CanMove() && sparse == AnySparse(constraints)
      ensures match r
        case Some(doc) => cursor.valid && Standing(doc) && InScope(cursor.key.ord) && NoneBefore(cursor.key.ord)
        case None => NoneIn()
      ensures r.Some? ==> cursor.key.ord in rows && fieldValue == rows[cursor.key.ord].value
    {
      hide Valid, CanMove, Wanted, InScope, NoneBefore, NoneIn, IsStartRow, NoRows, AnySparse, MatchesAll, IsNextRow, IsLastRow, Left, Standing;
      SparseMatchPossible();
      var ok := SeekToStart();
      Starts(cursor.key.ord);
      while ok
        invariant ok == cursor.valid && CanMove() && sparse == AnySparse(constraints)
        invariant if ok then InScope(cursor.key.ord) && NoneBefore(cursor.key.ord) else NoneIn()
        decreases Left()
      {
        var v, doc := Current();
        fieldValue := v;
        var m := MatchesField(v);
        if m && Kept(doc) {
          return Some(doc);
        }
        ghost var e := cursor.key.ord;
        ok := SeekToNext();
        if ok { SkippedInScope(e, cursor.key.ord); } else { NoMore(e); }
      }
      return None;
    }

    /** The cursor is at a wanted row, whose object is doc. */
    ghost predicate Standing(doc: Doc)
      reads `constraints, cursor
    {
      Wanted(cursor.key.ord) && doc == docs[rows[cursor.key.ord].uuid]
    }

    /** The next wanted row; the scan stops early at a row that does not match if no constraint is sparse. */
    method Next() returns (r: Option<Doc>)
      requires CanMove() && sparse == AnySparse(constraints) && cursor.valid && Wanted(cursor.key.ord)
      modifies cursor, `fieldValue
      ensures CanMove() && Left() < old(Left())
      ensures match r
        case Some(doc) => cursor.valid && Standing(doc) && Ahead(old(cursor.key.ord), cursor.key.ord)
                          && NoneBetween(old(cursor.key.ord), cursor.key.ord)
        case None => NoneAhead(old(cursor.key.ord))
      ensures r.Some? ==> cursor.key.ord in rows && fieldValue == rows[cursor.key.ord].value
    {
      hide Valid, CanMove, IsNextRow, IsLastRow, NoneBetween, NoneAhead, AnySparse, MatchesAll, Left, Standing;
      ghost var from := cursor.key.ord;
      var ok := SeekToNext();
      GoesOn(from, cursor.key.ord);
      while ok
        invariant ok == cursor.valid && CanMove() && Left() < old(Left())
        invariant if ok then cursor.key.ord in rows && Ahead(from, cursor.key.ord) && NoneBetween(from, cursor.key.ord)
                  else NoneAhead(from)
        decreases Left()
      {
        var v, doc := Current();
        fieldValue := v;
        var m := MatchesField(v);
        if !m && !sparse {
          StopIsSafe(from, cursor.key.ord);
          return None;
        }
        if m && Kept(doc) {
          return Some(doc);
        }
        ghost var e := cursor.key.ord;
        ok := SeekToNext();
        if ok { SkippedBetween(from, e, cursor.key.ord); } else { NoMore(e); }
      }
      return None;
    }

    /** Past a row that does not match there is no match: constraints that are not sparse have no gaps. */
    lemma StopIsSafe(a: real, b: real)
      requires CanMove() && !AnySparse(constraints) && a in rows && b in rows && Ahead(a, b) && NoneBetween(a, b)
      requires MatchesAll(constraints, rows[a].value) && !MatchesAll(constraints, rows[b].value)
      ensures NoneAhead(a)
    {
      hide CanMove, MatchesAll, AnySparse;
      forall w | Wanted(w) ensures !Ahead(a, w) {
        if Ahead(a, w) {
          if ascending {
            RowOrder(a, b);
            RowOrder(b, w);
            DenseConstraints(constraints, rows[a].value, rows[b].value, rows[w].value);
          } else {
            RowOrder(w, b);
            RowOrder(b, a);
            DenseConstraints(constraints, rows[w].value, rows[b].value, rows[a].value);
          }
        }
      }
    }

    lemma RowOrder(e: real, f: real)
      requires CanMove() && e in rows && f in rows && e <= f
      ensures Scalar(rows[e].value) && Scalar(rows[f].value) && CompareValues(rows[e].value, rows[f].value) <= 0
    {
      hide Compile, Cursor.Reads, Cursor.Positioned, Cursor.NextIsNear, Cursor.Settled, CompareValues, MakeForwardKey, BigEndian;
    }

    /** The objects are those of the rows found, which are wanted and in the order of the scan. */
    ghost predicate Ordered(results: seq<Doc>, found: seq<real>)
      reads `constraints, `min
    {
      && |results| == |found|
      && (forall k :: 0 <= k < |found| ==> Wanted(found[k]) && InScope(found[k]) && results[k] == docs[rows[found[k]].uuid])
      && (forall j, k :: 0 <= j < k < |found| ==> Ahead(found[j], found[k]))
    }

    ghost predicate CompleteTo(found: seq<real>, e: real)
      reads `constraints, `min
    {
      forall w :: Wanted(w) && InScope(w) && !Ahead(e, w) ==> w in found
    }

    ghost predicate Complete(found: seq<real>)
      reads `constraints, `min
    {
      forall w :: Wanted(w) && InScope(w) ==> w in found
    }

    /** first and then repeated next: the wanted rows in scope, each once and in the order of the scan. Nothing is out of
        scope unless a negated pattern set the lower bound of an ascending scan. */
    method Results() returns (results: seq<Doc>, ghost found: seq<real>)
      requires Valid() && Searchable()
      modifies cursor, `sparse, `fieldValue
      ensures CanMove() && Ordered(results, found)
      ensures terms == old(terms) && forall e :: e in found <==> Asked(e) && InScope(e)
      ensures !ascending || !Misled(terms, spec) ==> forall e :: Asked(e) ==> e in found
    {
      hide Valid, CanMove, Left, AnySparse, InScope, Wanted, NoneBefore, NoneIn, NoneBetween, NoneAhead, Ordered, Misled, Compile, Asked;
      results, found := [], [];
      var r := First();
      EmptyAnswer(cursor.key.ord);
      while r.Some?
        invariant CanMove() && sparse == AnySparse(constraints) && Ordered(results, found)
        invariant match r
          case Some(doc) =>
            && cursor.valid && Standing(doc) && InScope(cursor.key.ord)
            && (if found == [] then NoneBefore(cursor.key.ord)
                else CompleteTo(found, found[|found| - 1]) && Ahead(found[|found| - 1], cursor.key.ord)
                     && NoneBetween(found[|found| - 1], cursor.key.ord))
          case None => Complete(found)
        decreases r.Some?, Left()
      {
        OneMore(results, found, cursor.key.ord, r.value);
        results, found := results + [r.value], found + [cursor.key.ord];
        ghost var e := cursor.key.ord;
        r := Next();
        NoneLeft(found, e);
        StaysInScope(e, cursor.key.ord);
      }
      ScopeIsAll();
      AllFound(results, found);
      WantedIsAsked();
    }

    lemma AllFound(results: seq<Doc>, found: seq<real>)
      requires Ordered(results, found) && Complete(found)
      ensures forall e :: e in found <==> Wanted(e) && InScope(e)
    {
      hide MatchesAll, Start;
    }

    lemma EmptyAnswer(e: real)
      ensures Ordered([], [])
      ensures NoneIn() ==> Complete([])
    {
    }

    lemma OneMore(results: seq<Doc>, found: seq<real>, e: real, doc: Doc)
      requires Ordered(results, found) && Wanted(e) && InScope(e) && doc == docs[rows[e].uuid]
      requires if found == [] then NoneBefore(e)
               else CompleteTo(found, found[|found| - 1]) && Ahead(found[|found| - 1], e) && NoneBetween(found[|found| - 1], e)
      ensures Ordered(results + [doc], found + [e]) && CompleteTo(found + [e], e)
    {
      hide MatchesAll, InScope;
    }

    lemma NoneLeft(found: seq<real>, e: real)
      ensures CompleteTo(found, e) && NoneAhead(e) ==> Complete(found)
    {
      hide MatchesAll, InScope;
    }

    lemma StaysInScope(e: real, f: real)
      requires CanMove() && InScope(e)
      ensures Wanted(f) && Ahead(e, f) ==> InScope(f)
    {
      hide RowsOk, Compile, Cursor.Reads, Cursor.Positioned, Cursor.NextIsNear, Cursor.Settled, MatchesAll;
      SameRows();
    }

    /** A query of one negated pattern with a prefix loses a row it wants, if a row at the bound makes the seek succeed. */
    lemma MisledQueryLoses(t: Term, e: real, f: real)
      requires CanMove() && Searchable() && ascending && terms == [t] && Misleading(t, spec) && e in rows && f in rows
      requires rows[e].value == LostValue(t, spec) && rows[f].value == min
      ensures MatchesAll(constraints, rows[e].value) && !InScope(e)
    {
      hide Cursor.Reads, Cursor.Positioned, Cursor.NextIsNear, Cursor.Settled, MatchesAll, MinIsSafe, LostValue, Misleading, CompareValues, MakeForwardKey, BigEndian, Compile;
      SingleTermIsSafeIff(t, spec);
      CompareValuesIsOrder(rows[e].value, min);
      CompareValuesIsOrder(min, min);
      assert SomeFrom(MinPlace()) by {
        assert f in rows && MinPlace() <= f;
      }
    }

    lemma ScopeIsAll()
      requires CanMove() && Searchable()
      ensures !ascending || !Misled(terms, spec) ==> forall e :: Wanted(e) ==> InScope(e)
    {
      hide Compile, Misled, Cursor.Reads, Cursor.Positioned, Cursor.NextIsNear, Cursor.Settled, MakeForwardKey, BigEndian, CompareValues;
      SameRows();
      if ascending && !Misled(terms, spec) {
        MinIsSafeUnlessMisled(terms, spec);
      }
    }
  }
}

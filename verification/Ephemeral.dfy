// The ephemeral partition: objects in memory, and notifications that are found by key when objects change.
module Ephemeral {
  import opened Options

  /** An object, or the empty object that stands for none. */
  datatype Doc = Blank | Doc(uuid: string, typeName: Option<string>, deleted: bool, body: nat) {
    function Type(): string {
      if Doc? && typeName.Some? then typeName.value else ""
    }

    predicate IsDeleted() {
      Doc? && deleted
    }

    function MarkDeleted(): Doc {
      if Blank? then Doc("", None, true, 0) else this.(deleted := true)
    }
  }

  // ---- queries -----------------------------------------------------------------------------------------------

  datatype Term = UuidIs(value: Option<string>) | TypeIs(value: Option<string>) | Other(test: Doc -> bool)

  /** Any of the terms of an or-term, all or-terms of a query. */
  type OrTerm = seq<Term>
  type Query = seq<OrTerm>

  predicate TermMatches(t: Term, o: Doc) {
    match t
    case UuidIs(v) => v == if o.Doc? then Some(o.uuid) else None
    case TypeIs(v) => v == if o.Doc? then o.typeName else None
    case Other(test) => test(o)
  }

  predicate OrMatches(t: OrTerm, o: Doc) {
    exists i :: 0 <= i < |t| && TermMatches(t[i], o)
  }

  predicate QueryMatches(q: Query, o: Doc) {
    forall i :: 0 <= i < |q| ==> OrMatches(q[i], o)
  }

  // ---- notifications -----------------------------------------------------------------------------------------

  datatype Action = Create | Update | Remove

  datatype Event = Event(doc: Doc, action: Action)

  datatype Change = Change(before: Doc, after: Doc, action: Action)

  /** What notifyIfMatches sends for a change: nothing or one event. */
  function Notice(q: Query, actions: set<Action>, allowed: Doc -> bool, c: Change): seq<Event> {
    var oldMatches, newMatches := QueryMatches(q, c.before), QueryMatches(q, c.after);
    if !oldMatches && newMatches then Send(Event(c.after, Create), actions, allowed)
    else if oldMatches && (!newMatches || c.after.IsDeleted()) then
      Send(Event(if c.after.IsDeleted() then c.before.MarkDeleted() else c.before, Remove), actions, allowed)
    else if oldMatches && newMatches then Send(Event(c.after, Update), actions, allowed)
    else []
  }

  function Send(e: Event, actions: set<Action>, allowed: Doc -> bool): seq<Event> {
    if e.doc != Blank && e.action in actions && allowed(e.doc) then [e] else []
  }

  function Notices(q: Query, actions: set<Action>, allowed: Doc -> bool, changes: seq<Change>): seq<Event> {
    if changes == [] then []
    else Notices(q, actions, allowed, changes[..|changes| - 1]) + Notice(q, actions, allowed, changes[|changes| - 1])
  }

  class Notification {
    const query: Query
    const actions: set<Action>
    const allowed: Doc -> bool
    var sent: seq<Event>

    constructor (query: Query, actions: set<Action>, allowed: Doc -> bool)
      ensures this.query == query && this.actions == actions && this.allowed == allowed && sent == []
    {
      this.query, this.actions, this.allowed, sent := query, actions, allowed, [];
    }

    /** The one place where a query is evaluated: the effective action depends on which versions match. */
    method NotifyIfMatches(oldObject: Doc, newObject: Doc, action: Action)
      modifies this
      ensures sent == old(sent) + Notice(query, actions, allowed, Change(oldObject, newObject, action))
    {
      var effectiveAction := action;
      var r := Blank;
      var oldMatches := QueryMatches(query, oldObject);
      var newMatches := QueryMatches(query, newObject);
      if oldMatches || newMatches {
        r := newObject;
      }
      if !oldMatches && newMatches {
        effectiveAction := Create;
      } else if oldMatches && (!newMatches || newObject.IsDeleted()) {
        r := oldObject;
        if newObject.IsDeleted() {
          r := r.MarkDeleted();
        }
        effectiveAction := Remove;
      } else if oldMatches && newMatches {
        effectiveAction := Update;
      }
      if r != Blank && effectiveAction in actions && allowed(r) {
        sent := sent + [Event(r, effectiveAction)];
      }
    }
  }

  // ---- keys --------------------------------------------------------------------------------------------------

  const GENERIC := "__generic_notification__"

  function KeyText(v: Option<string>): string {
    if v.Some? then v.value else ""
  }

  predicate Keyed(t: OrTerm) {
    |t| == 1 && !t[0].Other?
  }

  /** The key a notification is filed under: the first or-term that asks for one uuid or one type. */
  function KeyOf(q: Query): string {
    if q == [] then GENERIC else if Keyed(q[0]) then KeyText(q[0][0].value) else KeyOf(q[1..])
  }

  /** The keys under which a change is looked up. */
  function ChangeKeys(c: Change): seq<string> {
    var oldType, newType := c.before.Type(), c.after.Type();
    if oldType == "" && newType == "" then []
    else
      [newType] + (if oldType != "" && newType != oldType then [oldType] else [])
      + (if c.after.Doc? then [c.after.uuid] else []) + [GENERIC]
  }

  /** A change of one object, as a batch makes it: the uuid stays, and only what was there is removed. */
  ghost predicate OfOne(c: Change) {
    c.after.Doc? && c.after.uuid != "" && (c.before.Doc? ==> c.before.uuid == c.after.uuid) && (c.after.deleted ==> c.before.Doc?)
  }

  /** The version before has a type, or the new object if there is none, and no type looks like the uuid or the generic key. */
  ghost predicate Regular(c: Change) {
    && (if c.before.Doc? then c.before.Type() != "" else c.after.Type() != "")
    && c.after.Doc? && c.after.uuid != GENERIC && c.before.Type() !in {c.after.uuid, GENERIC} && c.after.Type() !in {c.after.uuid, GENERIC}
  }

  ghost predicate Proper(c: Change) {
    OfOne(c) && Regular(c)
  }

  function Count(keys: seq<string>, key: string): nat {
    if keys == [] then 0 else Count(keys[..|keys| - 1], key) + if keys[|keys| - 1] == key then 1 else 0
  }

  function Repeat(events: seq<Event>, n: nat): seq<Event> {
    if n == 0 then [] else Repeat(events, n - 1) + events
  }

  /** What the lookup by key sends to a notification: what it has to say, as often as its key is among those of the change. */
  function Found(q: Query, actions: set<Action>, allowed: Doc -> bool, c: Change): seq<Event> {
    Repeat(Notice(q, actions, allowed, c), Count(ChangeKeys(c), KeyOf(q)))
  }

  function FoundAll(q: Query, actions: set<Action>, allowed: Doc -> bool, changes: seq<Change>): seq<Event> {
    if changes == [] then []
    else FoundAll(q, actions, allowed, changes[..|changes| - 1]) + Found(q, actions, allowed, changes[|changes| - 1])
  }

  lemma {:induction false} KeyedTermFails(q: Query, o: Doc, i: nat)
    requires i < |q| && Keyed(q[i]) && !TermMatches(q[i][0], o)
    ensures !QueryMatches(q, o)
  {
    assert !OrMatches(q[i], o);
  }

  /** The or-term the key comes from. */
  lemma {:induction false} KeyTerm(q: Query) returns (i: nat)
    ensures i <= |q| && (i < |q| ==> Keyed(q[i]) && KeyOf(q) == KeyText(q[i][0].value)) && (i == |q| ==> KeyOf(q) == GENERIC)
  {
    if q == [] {
      i := 0;
    } else if Keyed(q[0]) {
      i := 0;
    } else {
      var j := KeyTerm(q[1..]);
      i := j + 1;
    }
  }

  /** A notification that is not looked up would have sent nothing. */
  lemma MissedSendsNothing(q: Query, actions: set<Action>, allowed: Doc -> bool, c: Change)
    requires Proper(c) && KeyOf(q) !in ChangeKeys(c)
    ensures Notice(q, actions, allowed, c) == []
  {
    var i := KeyTerm(q);
    assert GENERIC in ChangeKeys(c);
    assert c.after.Type() in ChangeKeys(c) && c.after.uuid in ChangeKeys(c);
    assert c.before.Type() != "" ==> c.before.Type() in ChangeKeys(c);
    KeyedTermFails(q, c.after, i);
    if c.before.Doc? {
      KeyedTermFails(q, c.before, i);
    }
  }

  lemma {:induction false} CountIsMember(keys: seq<string>, key: string)
    ensures Count(keys, key) > 0 <==> key in keys
    ensures (forall i, j :: 0 <= i < j < |keys| ==> keys[i] != keys[j]) ==> Count(keys, key) <= 1
  {
    if keys != [] {
      var front := keys[..|keys| - 1];
      CountIsMember(front, key);
      assert keys == front + [keys[|keys| - 1]];
      if Count(front, key) > 0 && keys[|keys| - 1] == key {
        var i :| 0 <= i < |front| && front[i] == key;
        assert keys[i] == keys[|keys| - 1];
      }
    }
  }

  lemma {:induction false} CountTwice(keys: seq<string>, i: nat, j: nat)
    requires i < j < |keys| && keys[i] == keys[j]
    ensures Count(keys, keys[i]) >= 2
  {
    var front := keys[..|keys| - 1];
    if j < |front| {
      CountTwice(front, i, j);
    } else {
      CountIsMember(front, keys[i]);
      assert front[i] == keys[i];
    }
  }

  lemma {:induction false} RepeatSize(events: seq<Event>, n: nat)
    ensures |Repeat(events, n)| == n * |events| && Repeat(events, 1) == events
  {
    assert Repeat(events, 1) == [] + events;
    if n > 0 {
      RepeatSize(events, n - 1);
      assert (n - 1) * |events| + |events| == n * |events|;
    }
  }

  /** Every notification is found once, if it has anything to say. */
  lemma RegularIsFound(q: Query, actions: set<Action>, allowed: Doc -> bool, c: Change)
    requires Proper(c)
    ensures Found(q, actions, allowed, c) == Notice(q, actions, allowed, c)
  {
    hide Notice, KeyOf;
    var n := Notice(q, actions, allowed, c);
    CountIsMember(ChangeKeys(c), KeyOf(q));
    RepeatSize(n, 1);
    if KeyOf(q) !in ChangeKeys(c) {
      MissedSendsNothing(q, actions, allowed, c);
    }
  }

  /** The query that the lookup by key gets wrong: it is not found, or more than once. */
  ghost function Overlooked(c: Change): Query {
    if !c.after.Doc? then []
    else if c.before.Doc? && c.before.Type() == "" && c.after.Type() != "" then [[TypeIs(c.before.typeName)]]
    else if c.after.uuid != GENERIC && c.after.uuid in {c.after.Type(), c.before.Type()} then [[UuidIs(Some(c.after.uuid))]]
    else []
  }

  lemma OverlookedSends(c: Change)
    requires OfOne(c) && !Regular(c)
    ensures |Notice(Overlooked(c), {Create, Update, Remove}, o => true, c)| == 1
  {
    var q := Overlooked(c);
    if q != [] {
      assert OrMatches(q[0], c.before) <==> TermMatches(q[0][0], c.before);
      assert OrMatches(q[0], c.after) <==> TermMatches(q[0][0], c.after);
    }
  }

  lemma OverlookedCount(c: Change)
    requires OfOne(c) && !Regular(c)
    ensures Count(ChangeKeys(c), KeyOf(Overlooked(c))) != 1
  {
    var q, keys := Overlooked(c), ChangeKeys(c);
    CountIsMember(keys, KeyOf(q));
    if KeyOf(q) in keys {
      var n := |keys|;
      assert keys[n - 1] == GENERIC && keys[n - 2] == c.after.uuid && keys[0] == c.after.Type();
      assert c.before.Type() != "" && c.before.Type() != c.after.Type() ==> keys[1] == c.before.Type();
      if q != [] {
        CountTwice(keys, if c.after.uuid == c.after.Type() then 0 else 1, n - 2);
      } else {
        CountTwice(keys, if c.after.uuid == GENERIC then n - 2 else if c.after.Type() == GENERIC then 0 else 1, n - 1);
      }
    }
  }

  /** The lookup by key sends every notification what a full scan would send it exactly when the change is regular. */
  lemma LookupIsRightIff(c: Change)
    requires OfOne(c)
    ensures Regular(c) <==> forall q, actions, allowed :: Found(q, actions, allowed, c) == Notice(q, actions, allowed, c)
  {
    hide Notice, Overlooked, KeyOf, ChangeKeys, Regular;
    if Regular(c) {
      forall q, actions, allowed ensures Found(q, actions, allowed, c) == Notice(q, actions, allowed, c) {
        RegularIsFound(q, actions, allowed, c);
      }
    } else {
      var q, actions, allowed := Overlooked(c), {Create, Update, Remove}, (o: Doc) => true;
      OverlookedSends(c);
      OverlookedCount(c);
      RepeatSize(Notice(q, actions, allowed, c), Count(ChangeKeys(c), KeyOf(q)));
      assert |Found(q, actions, allowed, c)| != |Notice(q, actions, allowed, c)|;
    }
  }

  lemma {:induction false} AllRegularAreFound(q: Query, actions: set<Action>, allowed: Doc -> bool, changes: seq<Change>)
    requires forall c :: c in changes ==> Proper(c)
    ensures FoundAll(q, actions, allowed, changes) == Notices(q, actions, allowed, changes)
  {
    hide Notice, Found, Proper;
    if changes != [] {
      AllRegularAreFound(q, actions, allowed, changes[..|changes| - 1]);
      RegularIsFound(q, actions, allowed, changes[|changes| - 1]);
    }
  }

  // ---- batches of writes -------------------------------------------------------------------------------------

  type Store = map<string, Doc>

  /** What a batch leaves: whether all of it was done, the objects, and the changes made so far. */
  datatype Outcome = Outcome(ok: bool, store: Store, changes: seq<Change>)

  function Stored(store: Store, uuid: string): Doc {
    if uuid in store then store[uuid] else Blank
  }

  /** One write: a tombstone removes an object that must be there, anything else is stored with a new version. */
  function Write(store: Store, o: Doc, stamp: nat -> nat): Outcome
    requires o.Doc?
  {
    var before := Stored(store, o.uuid);
    if o.deleted then
      if o.uuid in store then Outcome(true, store - {o.uuid}, [Change(before, o, Remove)]) else Outcome(false, store, [])
    else
      var v := o.(body := stamp(o.body));
      Outcome(true, store[o.uuid := v], [Change(before, v, if o.uuid in store then Update else Create)])
  }

  predicate Objects(docs: seq<Doc>) {
    forall i :: 0 <= i < |docs| ==> docs[i].Doc?
  }

  /** The writes of a batch in turn, up to the first that fails. */
  function WriteAll(store: Store, docs: seq<Doc>, stamp: nat -> nat): Outcome
    requires Objects(docs)
  {
    if docs == [] then Outcome(true, store, [])
    else
      var o := WriteAll(store, docs[..|docs| - 1], stamp);
      if !o.ok then o
      else
        var w := Write(o.store, docs[|docs| - 1], stamp);
        Outcome(w.ok, w.store, o.changes + w.changes)
  }

  /** Stored objects are alive and filed under their uuid. */
  ghost predicate StoreOk(store: Store) {
    forall u :: u in store ==> store[u].Doc? && store[u].uuid == u && !store[u].deleted
  }

  // ---- a view kept up to date by events ----------------------------------------------------------------------

  ghost function Answer(q: Query, store: Store): Store {
    map u | u in store && QueryMatches(q, store[u]) :: store[u]
  }

  /** A query for a uuid is answered by the object filed under it, a query for a type by the objects of that type; with an empty
      value nothing is found by uuid and what has no type by type. */
  lemma AnswersByUuidAndType(store: Store, v: Option<string>)
    requires StoreOk(store)
    ensures Answer([[UuidIs(v)]], store).Keys == if v.Some? && v.value in store then {v.value} else {}
    ensures Answer([[TypeIs(v)]], store).Keys == set u | u in store && store[u].typeName == v
  {
    forall t: Term, o ensures QueryMatches([[t]], o) <==> TermMatches(t, o) {
      var q := [[t]];
      assert q[0] == [t] && [t][0] == t;
      assert OrMatches(q[0], o) <==> TermMatches(t, o);
    }
  }

  ghost function FoldEvent(view: Store, e: Event): Store {
    if e.doc.Blank? then view
    else if e.action.Remove? then view - {e.doc.uuid} else view[e.doc.uuid := e.doc]
  }

  ghost function Fold(view: Store, events: seq<Event>): Store {
    if events == [] then view else FoldEvent(Fold(view, events[..|events| - 1]), events[|events| - 1])
  }

  /** A new object is not in the view yet; one that is updated or removed is. */
  ghost predicate Applies(view: Store, e: Event) {
    e.doc.Doc? && if e.action.Create? then e.doc.uuid !in view else e.doc.uuid in view
  }

  /** Each event applies to the view that those before it leave. */
  ghost predicate AllApply(view: Store, events: seq<Event>) {
    forall k :: 0 <= k < |events| ==> Applies(Fold(view, events[..k]), events[k])
  }

  const ALL_ACTIONS := {Create, Update, Remove}

  /** A new object that the query matches, as it matches no object at all. */
  ghost predicate Unheralded(q: Query, c: Change) {
    c.before.Blank? && QueryMatches(q, c.before) && QueryMatches(q, c.after)
  }

  /** What a notification has to say of a write is told by its query's answers before and after: an object that enters the answer
      is created, unless it is new and the query matches the empty object too: then it is updated; one that stays is updated, and
      one that leaves it is removed, with its old content. Of all others nothing is said, unless a tombstone revives. */
  lemma EventByAnswers(q: Query, store: Store, o: Doc, stamp: nat -> nat)
    requires StoreOk(store) && o.Doc? && Write(store, o, stamp).ok
    ensures var w, u := Write(store, o, stamp), o.uuid;
      var before, after := Answer(q, store), Answer(q, w.store);
      |w.changes| == 1 && Notice(q, ALL_ACTIONS, _ => true, w.changes[0]) ==
        if u in before && u in after then [Event(after[u], Update)]
        else if u in after then [Event(after[u], if u !in store && QueryMatches(q, Blank) then Update else Create)]
        else if u in before then [Event(before[u].(deleted := o.deleted), Remove)]
        else if Revives(q, w.changes[0]) then [Event(o, Create)]
        else []
  {
    hide QueryMatches;
  }

  /** A notification sends what there is to say if it asks for such events and its owner may read the document. */
  lemma NoticeIsFiltered(q: Query, actions: set<Action>, allowed: Doc -> bool, c: Change)
    ensures var all := Notice(q, ALL_ACTIONS, _ => true, c);
      && |all| <= 1
      && Notice(q, actions, allowed, c) == if all != [] && all[0].action in actions && allowed(all[0].doc) then all else []
  {
    hide QueryMatches;
  }

  /** A notification that sends every event. */
  ghost predicate SendsAll(actions: set<Action>, allowed: Doc -> bool) {
    actions == {Create, Update, Remove} && forall o :: allowed(o)
  }

  /** A tombstone that the query matches although it did not match the object. */
  ghost predicate Revives(q: Query, c: Change) {
    c.after.IsDeleted() && QueryMatches(q, c.after) && !QueryMatches(q, c.before)
  }

  lemma FoldOne(view: Store, e: Event)
    ensures Fold(view, [e]) == FoldEvent(view, e) && Fold(view, []) == view
  {
    assert [e][..0] == [];
  }

  lemma {:induction false} FoldSum(view: Store, a: seq<Event>, b: seq<Event>)
    ensures Fold(view, a + b) == Fold(Fold(view, a), b)
  {
    if b == [] {
      assert a + b == a;
    } else {
      FoldSum(view, a, b[..|b| - 1]);
      assert (a + b)[..|a + b| - 1] == a + b[..|b| - 1];
    }
  }

  lemma ApplySum(view: Store, a: seq<Event>, b: seq<Event>)
    ensures AllApply(view, a + b) <==> AllApply(view, a) && AllApply(Fold(view, a), b)
  {
    hide Fold, Applies;
    var r := a + b;
    forall k | 0 <= k < |a| ensures r[..k] == a[..k] && r[k] == a[k] {
    }
    forall k | 0 <= k < |b| ensures r[|a| + k] == b[k] && Fold(view, r[..|a| + k]) == Fold(Fold(view, a), b[..k]) {
      FoldSum(view, a, b[..k]);
      assert r[..|a| + k] == a + b[..k];
    }
    SplitAt(view, a, b);
  }

  lemma SplitAt(view: Store, a: seq<Event>, b: seq<Event>)
    requires forall k :: 0 <= k < |a| ==> (a + b)[..k] == a[..k] && (a + b)[k] == a[k]
    requires forall k :: 0 <= k < |b| ==> (a + b)[|a| + k] == b[k] && Fold(view, (a + b)[..|a| + k]) == Fold(Fold(view, a), b[..k])
    ensures AllApply(view, a + b) <==> AllApply(view, a) && AllApply(Fold(view, a), b)
  {
    hide Fold, Applies;
    var r := a + b;
    if AllApply(view, r) {
      forall k | 0 <= k < |a| ensures Applies(Fold(view, a[..k]), a[k]) {
        assert Applies(Fold(view, r[..k]), r[k]);
      }
      forall k | 0 <= k < |b| ensures Applies(Fold(Fold(view, a), b[..k]), b[k]) {
        assert Applies(Fold(view, r[..|a| + k]), r[|a| + k]);
      }
    }
    if AllApply(view, a) && AllApply(Fold(view, a), b) {
      forall k | 0 <= k < |r| ensures Applies(Fold(view, r[..k]), r[k]) {
        if k >= |a| {
          assert r[|a| + (k - |a|)] == b[k - |a|];
        }
      }
    }
  }

  /** The event of one write keeps the view equal to the query's answer exactly when no tombstone revives, and applies to it
      exactly when the object is not one that comes unheralded. */
  lemma WriteKeepsViewIff(q: Query, actions: set<Action>, allowed: Doc -> bool, store: Store, o: Doc, stamp: nat -> nat)
    requires StoreOk(store) && o.Doc? && SendsAll(actions, allowed) && Write(store, o, stamp).ok
    ensures var w := Write(store, o, stamp);
      && StoreOk(w.store) && |w.changes| == 1
      && (Fold(Answer(q, store), Notice(q, actions, allowed, w.changes[0])) == Answer(q, w.store) <==> !Revives(q, w.changes[0]))
      && (!Revives(q, w.changes[0]) ==>
            (AllApply(Answer(q, store), Notice(q, actions, allowed, w.changes[0])) <==> !Unheralded(q, w.changes[0])))
  {
    hide QueryMatches, Fold, AllApply, Notice;
    var w := Write(store, o, stamp);
    var c, view, u := w.changes[0], Answer(q, store), o.uuid;
    EventByAnswers(q, store, o, stamp);
    NoticeIsFiltered(q, actions, allowed, c);
    var events := Notice(q, actions, allowed, c);
    if events == [] {
      NothingFolded(view);
      assert Answer(q, w.store) == view;
    } else {
      OneFolded(view, events[0]);
      assert events == [events[0]];
      if Revives(q, c) {
        assert u in FoldEvent(view, events[0]) && u !in w.store;
      } else {
        assert FoldEvent(view, events[0]) == Answer(q, w.store);
      }
    }
  }

  lemma NothingFolded(view: Store)
    ensures Fold(view, []) == view && AllApply(view, [])
  {
  }

  lemma OneFolded(view: Store, e: Event)
    ensures Fold(view, [e]) == FoldEvent(view, e) && (AllApply(view, [e]) <==> Applies(view, e))
  {
    hide Applies;
    FoldOne(view, e);
    assert [e][..0] == [];
    if AllApply(view, [e]) {
      assert Applies(Fold(view, [e][..0]), [e][0]);
    }
  }

  predicate IsNotOne(d: Doc) {
    d.Blank? || d.body != 1
  }

  /** A query that asks for another value than 1 matches the empty object, so that it is told of a new object as of an update. */
  lemma NewIsUpdate(stamp: nat -> nat)
    requires stamp(0) == 2
    ensures var q, o := [[Other(IsNotOne)]], Doc("u", Some("a"), false, 0);
      var w := Write(map[], o, stamp);
      && w.ok && Unheralded(q, w.changes[0]) && Answer(q, map[]) == map[] && "u" in Answer(q, w.store)
      && Notice(q, ALL_ACTIONS, _ => true, w.changes[0]) == [Event(w.store["u"], Update)]
  {
    var q, o := [[Other(IsNotOne)]], Doc("u", Some("a"), false, 0);
    var v := o.(body := 2);
    assert TermMatches(q[0][0], Blank) && TermMatches(q[0][0], v);
    assert OrMatches(q[0], Blank) && OrMatches(q[0], v) && QueryMatches(q, Blank) && QueryMatches(q, v);
  }

  /** A tombstone of another type than its object is reported to those who ask for that type as a new object, and stays in
      their view. */
  lemma TombstoneRevives(stamp: nat -> nat)
    ensures var q, store, o := [[TypeIs(Some("b"))]], map["u" := Doc("u", Some("a"), false, 0)], Doc("u", Some("b"), true, 0);
      var w := Write(store, o, stamp);
      && StoreOk(store) && w.ok && w.store == map[] && Revives(q, w.changes[0])
      && Fold(Answer(q, store), Notice(q, {Create, Update, Remove}, _ => true, w.changes[0])) == map["u" := o]
      && Answer(q, w.store) == map[]
  {
    var q, store, o := [[TypeIs(Some("b"))]], map["u" := Doc("u", Some("a"), false, 0)], Doc("u", Some("b"), true, 0);
    assert "a" != "b" && TermMatches(q[0][0], o) && OrMatches(q[0], o) && QueryMatches(q, o);
    assert !OrMatches(q[0], store["u"]) && !QueryMatches(q, store["u"]);
    assert Notice(q, {Create, Update, Remove}, _ => true, Change(store["u"], o, Remove)) == [Event(o, Create)];
    FoldOne(Answer(q, store), Event(o, Create));
  }

  /** Over any batch that succeeds, folding the events of a notification reproduces its query's answer, and each event applies
      when it comes. */
  lemma {:induction false} BatchKeepsView(q: Query, actions: set<Action>, allowed: Doc -> bool, store: Store, docs: seq<Doc>, stamp: nat -> nat)
    requires StoreOk(store) && Objects(docs) && SendsAll(actions, allowed) && WriteAll(store, docs, stamp).ok
    requires forall c :: c in WriteAll(store, docs, stamp).changes ==> !Revives(q, c)
    ensures var w := WriteAll(store, docs, stamp);
      && StoreOk(w.store) && Fold(Answer(q, store), Notices(q, actions, allowed, w.changes)) == Answer(q, w.store)
      && (AllApply(Answer(q, store), Notices(q, actions, allowed, w.changes)) <==> forall c :: c in w.changes ==> !Unheralded(q, c))
  {
    hide QueryMatches, Answer, Revives, Notice, Notices, Write, WriteAll, FoldEvent, Fold, StoreOk, AllApply, Unheralded;
    if docs == [] {
      NoWrites(store, stamp);
      NoNotices(q, actions, allowed, Answer(q, store));
    } else {
      var front, o := docs[..|docs| - 1], docs[|docs| - 1];
      var f, w := WriteAll(store, front, stamp), WriteAll(store, docs, stamp);
      assert docs[..|docs|] == docs;
      FrontIsDone(store, docs, stamp);
      OneWrite(store, docs, |docs| - 1, stamp);
      var c := Write(f.store, o, stamp).changes;
      forall d | d in f.changes ensures !Revives(q, d) {
        assert d in f.changes + c;
      }
      BatchKeepsView(q, actions, allowed, store, front, stamp);
      WriteKeepsViewIff(q, actions, allowed, f.store, o, stamp);
      assert c == [c[0]] && c[0] in f.changes + c;
      OneMoreNotice(q, actions, allowed, f.changes, c[0]);
      FoldSum(Answer(q, store), Notices(q, actions, allowed, f.changes), Notice(q, actions, allowed, c[0]));
      ApplySum(Answer(q, store), Notices(q, actions, allowed, f.changes), Notice(q, actions, allowed, c[0]));
    }
  }

  lemma NoNotices(q: Query, actions: set<Action>, allowed: Doc -> bool, view: Store)
    ensures Notices(q, actions, allowed, []) == [] && Fold(view, []) == view && AllApply(view, [])
  {
  }

  lemma OneMoreNotice(q: Query, actions: set<Action>, allowed: Doc -> bool, changes: seq<Change>, c: Change)
    ensures Notices(q, actions, allowed, changes + [c]) == Notices(q, actions, allowed, changes) + Notice(q, actions, allowed, c)
  {
    assert (changes + [c])[..|changes|] == changes;
  }

  lemma FrontIsDone(store: Store, docs: seq<Doc>, stamp: nat -> nat)
    requires Objects(docs) && docs != [] && WriteAll(store, docs, stamp).ok
    ensures WriteAll(store, docs[..|docs| - 1], stamp).ok
    ensures Write(WriteAll(store, docs[..|docs| - 1], stamp).store, docs[|docs| - 1], stamp).ok
  {
  }

  /** A batch that fails has stored what came before the failing tombstone, and nobody is told. */
  lemma {:induction false} FailedBatch(store: Store, docs: seq<Doc>, stamp: nat -> nat) returns (n: nat)
    requires Objects(docs) && !WriteAll(store, docs, stamp).ok
    ensures n < |docs| && docs[n].deleted && WriteAll(store, docs[..n], stamp).ok
    ensures WriteAll(store, docs, stamp).store == WriteAll(store, docs[..n], stamp).store && docs[n].uuid !in WriteAll(store, docs, stamp).store
  {
    n := |docs| - 1;
    if !WriteAll(store, docs[..n], stamp).ok {
      n := FailedBatch(store, docs[..n], stamp);
      assert docs[..|docs| - 1][..n] == docs[..n];
    }
  }

  /** What a write leaves under its uuid. */
  function Left(o: Doc, stamp: nat -> nat): Doc
    requires o.Doc?
  {
    if o.deleted then Blank else o.(body := stamp(o.body))
  }

  /** Of the first n writes the one at m is the last with its uuid. */
  ghost predicate LastOf(docs: seq<Doc>, m: int, n: nat)
    requires n <= |docs| && Objects(docs)
  {
    0 <= m < n && forall k :: m < k < n ==> docs[k].uuid != docs[m].uuid
  }

  ghost predicate Unnamed(docs: seq<Doc>, n: nat, u: string)
    requires n <= |docs| && Objects(docs)
  {
    forall k :: 0 <= k < n ==> docs[k].uuid != u
  }

  /** The document at n is a tombstone, and the last write before it with its uuid was one too; if there was none, the store
      has no such object. */
  ghost predicate Dangling(store: Store, docs: seq<Doc>, n: nat)
    requires Objects(docs) && n < |docs|
  {
    && docs[n].deleted
    && (Unnamed(docs, n, docs[n].uuid) ==> docs[n].uuid !in store)
    && forall m :: 0 <= m < n && docs[m].uuid == docs[n].uuid && LastOf(docs, m, n) ==> docs[m].deleted
  }

  lemma WriteLeaves(store: Store, o: Doc, stamp: nat -> nat)
    requires StoreOk(store) && o.Doc? && Write(store, o, stamp).ok
    ensures var s := Write(store, o, stamp).store;
      StoreOk(s) && Stored(s, o.uuid) == Left(o, stamp) && forall u :: u != o.uuid ==> Stored(s, u) == Stored(store, u)
  {
  }

  /** After a batch each uuid has what the last write with it left. */
  lemma {:induction false} LastWriteStays(store: Store, docs: seq<Doc>, n: nat, stamp: nat -> nat)
    requires StoreOk(store) && Objects(docs) && n <= |docs| && WriteAll(store, docs[..n], stamp).ok
    ensures var s := WriteAll(store, docs[..n], stamp).store;
      && StoreOk(s) && (forall m :: LastOf(docs, m, n) ==> Stored(s, docs[m].uuid) == Left(docs[m], stamp))
      && forall u :: Unnamed(docs, n, u) ==> Stored(s, u) == Stored(store, u)
  {
    hide Write, WriteAll, StoreOk, Stored, Left;
    if n == 0 {
      NoWrites(store, stamp);
      assert docs[..0] == [];
    } else {
      var f, s := WriteAll(store, docs[..n - 1], stamp).store, WriteAll(store, docs[..n], stamp).store;
      FrontsAreDone(store, docs[..n], n - 1, stamp);
      assert docs[..n][..n - 1] == docs[..n - 1];
      OneWrite(store, docs, n - 1, stamp);
      LastWriteStays(store, docs, n - 1, stamp);
      WriteLeaves(f, docs[n - 1], stamp);
      forall m | LastOf(docs, m, n) ensures Stored(s, docs[m].uuid) == Left(docs[m], stamp) {
        if m < n - 1 {
          assert LastOf(docs, m, n - 1);
        }
      }
      forall u | Unnamed(docs, n, u) ensures Stored(s, u) == Stored(store, u) {
        assert Unnamed(docs, n - 1, u);
      }
    }
  }

  lemma {:induction false} LastWith(docs: seq<Doc>, n: nat, u: string)
    requires Objects(docs) && n <= |docs| && !Unnamed(docs, n, u)
    ensures exists m :: LastOf(docs, m, n) && docs[m].uuid == u
  {
    if docs[n - 1].uuid == u {
      assert LastOf(docs, n - 1, n);
    } else {
      LastWith(docs, n - 1, u);
      var m :| LastOf(docs, m, n - 1) && docs[m].uuid == u;
      assert LastOf(docs, m, n);
    }
  }

  lemma DanglingIsMissing(store: Store, docs: seq<Doc>, n: nat, stamp: nat -> nat)
    requires StoreOk(store) && Objects(docs) && n < |docs| && WriteAll(store, docs[..n], stamp).ok
    ensures Dangling(store, docs, n) <==> docs[n].deleted && docs[n].uuid !in WriteAll(store, docs[..n], stamp).store
  {
    hide WriteAll;
    LastWriteStays(store, docs, n, stamp);
    if !Unnamed(docs, n, docs[n].uuid) {
      LastWith(docs, n, docs[n].uuid);
    }
  }

  /** A batch fails exactly when it has a tombstone for an object that is not there by then. */
  lemma FailsIff(store: Store, docs: seq<Doc>, stamp: nat -> nat)
    requires StoreOk(store) && Objects(docs)
    ensures !WriteAll(store, docs, stamp).ok <==> exists n :: 0 <= n < |docs| && Dangling(store, docs, n)
  {
    hide Dangling, WriteAll;
    if !WriteAll(store, docs, stamp).ok {
      var n := FailedBatch(store, docs, stamp);
      DanglingIsMissing(store, docs, n, stamp);
    } else if n :| 0 <= n < |docs| && Dangling(store, docs, n) {
      FrontsAreDone(store, docs, n, stamp);
      DanglingIsMissing(store, docs, n, stamp);
      OneWrite(store, docs, n, stamp);
      FrontsAreDone(store, docs, n + 1, stamp);
    }
  }

  lemma {:induction false} FrontsAreDone(store: Store, docs: seq<Doc>, n: nat, stamp: nat -> nat)
    requires Objects(docs) && n <= |docs| && WriteAll(store, docs, stamp).ok
    ensures WriteAll(store, docs[..n], stamp).ok
  {
    if n < |docs| {
      FrontsAreDone(store, docs[..|docs| - 1], n, stamp);
      assert docs[..|docs| - 1][..n] == docs[..n];
    } else {
      assert docs[..n] == docs;
    }
  }

  /** A failed batch leaves the store as it was exactly when before the failing tombstone the last write of each uuid put
      back what the store held under it. */
  lemma FailedBatchIsUndoneIff(store: Store, docs: seq<Doc>, stamp: nat -> nat) returns (n: nat)
    requires StoreOk(store) && Objects(docs) && !WriteAll(store, docs, stamp).ok
    ensures n < |docs| && Dangling(store, docs, n) && forall k :: 0 <= k < n ==> !Dangling(store, docs, k)
    ensures WriteAll(store, docs, stamp).store == store <==>
      forall m :: LastOf(docs, m, n) ==> Stored(store, docs[m].uuid) == Left(docs[m], stamp)
  {
    hide Dangling, WriteAll;
    n := FailedBatch(store, docs, stamp);
    DanglingIsMissing(store, docs, n, stamp);
    FirstFailure(store, docs, n, stamp);
    LastWriteStays(store, docs, n, stamp);
    var s := WriteAll(store, docs, stamp).store;
    if forall m :: LastOf(docs, m, n) ==> Stored(store, docs[m].uuid) == Left(docs[m], stamp) {
      forall u: string ensures Stored(s, u) == Stored(store, u) {
        if !Unnamed(docs, n, u) {
          LastWith(docs, n, u);
        }
      }
      SameStore(s, store);
    }
  }

  lemma FirstFailure(store: Store, docs: seq<Doc>, n: nat, stamp: nat -> nat)
    requires StoreOk(store) && Objects(docs) && n <= |docs| && WriteAll(store, docs[..n], stamp).ok
    ensures forall k :: 0 <= k < n ==> !Dangling(store, docs, k)
  {
    hide Dangling, WriteAll;
    FailsIff(store, docs[..n], stamp);
    forall k: nat | k < n ensures !Dangling(store, docs, k) {
      DanglingInFront(store, docs, n, k);
    }
  }

  lemma DanglingInFront(store: Store, docs: seq<Doc>, n: nat, k: nat)
    requires Objects(docs) && k < n <= |docs|
    ensures Dangling(store, docs[..n], k) <==> Dangling(store, docs, k)
  {
    assert Unnamed(docs[..n], k, docs[k].uuid) <==> Unnamed(docs, k, docs[k].uuid);
    assert forall m :: 0 <= m < k ==> (LastOf(docs[..n], m, k) <==> LastOf(docs, m, k));
  }

  lemma SameStore(a: Store, b: Store)
    requires StoreOk(a) && StoreOk(b) && forall u :: Stored(a, u) == Stored(b, u)
    ensures a == b
  {
    forall u: string ensures u in a <==> u in b {
      assert Stored(a, u) == Stored(b, u);
    }
    forall u | u in a ensures a[u] == b[u] {
      assert Stored(a, u) == Stored(b, u);
    }
  }

  /** An object and a tombstone of an unknown uuid: the batch fails, and the object is stored. */
  lemma HalfABatch(o: Doc, stamp: nat -> nat)
    requires o.Doc? && !o.deleted && o.uuid != "unknown"
    ensures var w := WriteAll(map[], [o, Doc("unknown", None, true, 0)], stamp);
      !w.ok && w.store == map[o.uuid := Left(o, stamp)]
  {
    var docs := [o, Doc("unknown", None, true, 0)];
    assert docs[..1] == [o] && [o][..0] == [];
    assert WriteAll(map[], [o], stamp).store == map[o.uuid := Left(o, stamp)];
  }

  /** An object whose type does not look like a uuid or the generic key; it may only miss if it is a tombstone. */
  ghost predicate Typed(o: Doc) {
    o.Doc? && o.uuid !in {"", GENERIC} && (!o.deleted ==> o.Type() != "") && o.Type() !in {o.uuid, GENERIC}
  }

  ghost predicate AllTyped(store: Store) {
    StoreOk(store) && forall u :: u in store ==> Typed(store[u])
  }

  /** The changes of a batch of typed objects are ones the lookup by key is right for. */
  lemma {:induction false} ChangesAreProper(store: Store, docs: seq<Doc>, stamp: nat -> nat)
    requires AllTyped(store) && Objects(docs) && (forall i :: 0 <= i < |docs| ==> Typed(docs[i]))
    ensures var w := WriteAll(store, docs, stamp); AllTyped(w.store) && forall c :: c in w.changes ==> Proper(c)
  {
    hide Write, Proper, AllTyped, Typed;
    if docs != [] {
      ChangesAreProper(store, docs[..|docs| - 1], stamp);
      ChangeIsProper(WriteAll(store, docs[..|docs| - 1], stamp).store, docs[|docs| - 1], stamp);
    }
  }

  lemma ChangeIsProper(store: Store, o: Doc, stamp: nat -> nat)
    requires AllTyped(store) && Typed(o)
    ensures var w := Write(store, o, stamp); AllTyped(w.store) && forall c :: c in w.changes ==> Proper(c)
  {
  }

  /** A change is a removal exactly if it leaves a tombstone, and a creation exactly if there was nothing before. */
  lemma {:induction false} ActionTells(store: Store, docs: seq<Doc>, stamp: nat -> nat)
    requires StoreOk(store) && Objects(docs)
    ensures var w := WriteAll(store, docs, stamp);
      StoreOk(w.store) && forall c :: c in w.changes ==>
        (c.action.Remove? <==> c.after.IsDeleted()) && (c.action.Create? <==> c.before == Blank)
  {
    if docs != [] {
      ActionTells(store, docs[..|docs| - 1], stamp);
    }
  }

  // ---- the partition -----------------------------------------------------------------------------------------

  /** An item of the multi-hash. */
  datatype Entry = Entry(key: string, n: Notification)

  /** All items but those with this key and notification. */
  function RemoveItem(s: seq<Entry>, key: string, n: Notification): seq<Entry> {
    if s == [] then []
    else RemoveItem(s[..|s| - 1], key, n) + if s[|s| - 1] == Entry(key, n) then [] else [s[|s| - 1]]
  }

  /** All items but those of this notification. */
  function Without(s: seq<Entry>, n: Notification): seq<Entry> {
    if s == [] then [] else Without(s[..|s| - 1], n) + if s[|s| - 1].n == n then [] else [s[|s| - 1]]
  }

  /** Each notification is filed once, under the key of its query. */
  ghost predicate Filed(s: seq<Entry>) {
    && (forall i :: 0 <= i < |s| ==> s[i].key == KeyOf(s[i].n.query))
    && (forall i, j :: 0 <= i < j < |s| ==> s[i].n != s[j].n)
  }

  ghost predicate IsFiled(s: seq<Entry>, n: Notification) {
    exists i :: 0 <= i < |s| && s[i].n == n
  }

  ghost function Listeners(s: seq<Entry>): set<Notification> {
    set i | 0 <= i < |s| :: s[i].n
  }

  lemma {:induction false} RemoveItemKeeps(s: seq<Entry>, key: string, n: Notification)
    ensures Without(RemoveItem(s, key, n), n) == Without(s, n)
  {
    if s != [] {
      var front, last := s[..|s| - 1], s[|s| - 1];
      RemoveItemKeeps(front, key, n);
      var r := RemoveItem(front, key, n);
      assert (r + [last])[..|r|] == r && r + [] == r;
    }
  }

  lemma {:induction false} RemoveItemHolds(s: seq<Entry>, key: string, n: Notification)
    ensures forall i :: 0 <= i < |RemoveItem(s, key, n)| ==>
      RemoveItem(s, key, n)[i] in s && RemoveItem(s, key, n)[i] != Entry(key, n)
  {
    if s != [] {
      var front, last := s[..|s| - 1], s[|s| - 1];
      RemoveItemHolds(front, key, n);
      var f, r := RemoveItem(front, key, n), RemoveItem(s, key, n);
      forall i | 0 <= i < |r| ensures r[i] in s && r[i] != Entry(key, n) {
        if i < |f| {
          assert r[i] == f[i] && f[i] in front;
        } else {
          assert r[i] == last;
        }
      }
    }
  }

  lemma {:induction false} NoneOf(s: seq<Entry>, n: Notification)
    requires forall i :: 0 <= i < |s| ==> s[i].n != n
    ensures Without(s, n) == s
  {
    if s != [] {
      NoneOf(s[..|s| - 1], n);
      assert s == s[..|s| - 1] + [s[|s| - 1]];
    }
  }

  /** Taking a notification out undoes putting it in. */
  lemma WithoutUndoes(s: seq<Entry>, e: Entry)
    requires !IsFiled(s, e.n)
    ensures Without(s + [e], e.n) == s
  {
    NoneOf(s, e.n);
    assert (s + [e])[..|s|] == s;
  }

  lemma FiledKey(s: seq<Entry>)
    requires Filed(s)
    ensures forall e :: e in s ==> e.key == KeyOf(e.n.query)
  {
    hide KeyOf;
  }

  lemma NoWrites(store: Store, stamp: nat -> nat)
    ensures WriteAll(store, [], stamp) == Outcome(true, store, [])
  {
  }

  lemma OneWrite(store: Store, docs: seq<Doc>, i: nat, stamp: nat -> nat)
    requires Objects(docs) && i < |docs| && WriteAll(store, docs[..i], stamp).ok
    ensures var f := WriteAll(store, docs[..i], stamp); var w := Write(f.store, docs[i], stamp);
      WriteAll(store, docs[..i + 1], stamp) == Outcome(w.ok, w.store, f.changes + w.changes)
  {
    assert docs[..i + 1][..i] == docs[..i];
  }

  class EphemeralPartition {
    const stamp: nat -> nat
    var objects: Store
    var keyed: seq<Entry>

    constructor (stamp: nat -> nat)
      ensures this.stamp == stamp && objects == map[] && keyed == []
    {
      this.stamp, objects, keyed := stamp, map[], [];
    }

    /** updateObjects: the changes are only passed on when the whole batch was done. */
    method UpdateObjects(docs: seq<Doc>, generated: seq<string>) returns (ok: bool, changes: seq<Change>)
      requires Objects(docs) && |generated| == |docs| && FreshUuids(docs, generated, objects, stamp) && "" !in objects && "" !in generated
      modifies `objects
      ensures var o := WriteAll(old(objects), WithUuids(docs, generated), stamp);
        ok == o.ok && objects == o.store && changes == if ok then o.changes else []
    {
      hide WriteAll, WithUuids;
      NoWrites(objects, stamp);
      ghost var named := WithUuids(docs, generated);
      ghost var was := objects;
      var updated := [];
      for i := 0 to |docs|
        invariant WriteAll(was, named[..i], stamp) == Outcome(true, objects, updated) && "" !in objects
      {
        OneWrite(was, named, i, stamp);
        var doc := docs[i];
        var oldObject := Blank;
        if doc.uuid in objects {
          oldObject := objects[doc.uuid];
        }
        var action := Update;
        if doc.uuid == "" {
          doc := doc.(uuid := generated[i]);
        }
        if doc.deleted {
          if doc.uuid in objects {
            action := Remove;
            objects := objects - {doc.uuid};
          } else {
            Fails(was, named, i + 1);
            return false, [];
          }
        } else {
          if doc.uuid !in objects {
            action := Create;
          }
          doc := doc.(body := stamp(doc.body));
          objects := objects[doc.uuid := doc];
        }
        updated := updated + [Change(oldObject, doc, action)];
      }
      assert named[..|docs|] == named;
      return true, updated;
    }

    lemma {:induction false} Fails(store: Store, docs: seq<Doc>, n: nat)
      requires Objects(docs) && n <= |docs| && !WriteAll(store, docs[..n], stamp).ok
      ensures !WriteAll(store, docs, stamp).ok && WriteAll(store, docs, stamp).store == WriteAll(store, docs[..n], stamp).store
    {
      if n == |docs| {
        assert docs[..n] == docs;
      } else {
        assert docs[..|docs| - 1][..n] == docs[..n];
        Fails(store, docs[..|docs| - 1], n);
      }
    }

    /** addNotification files the notification under the key of its query. */
    method AddNotification(n: Notification)
      requires Filed(keyed) && !IsFiled(keyed, n)
      modifies `keyed
      ensures Filed(keyed) && keyed == old(keyed) + [Entry(KeyOf(n.query), n)]
    {
      var q := n.query;
      var generic := true;
      var i := 0;
      while i < |q|
        invariant i <= |q| && generic && keyed == old(keyed) && KeyOf(q) == KeyOf(q[i..])
      {
        if Keyed(q[i]) {
          keyed := keyed + [Entry(KeyText(q[i][0].value), n)];
          generic := false;
          break;
        }
        i := i + 1;
      }
      if generic {
        keyed := keyed + [Entry(GENERIC, n)];
      }
    }

    /** removeNotification: afterwards the notification is nowhere, and nothing else has changed. */
    method RemoveNotification(n: Notification)
      requires Filed(keyed)
      modifies `keyed
      ensures keyed == Without(old(keyed), n)
    {
      hide KeyOf, Filed, Without, RemoveItem;
      var q := n.query;
      var key := KeyTerm(q);
      for i := 0 to |q|
        invariant Without(keyed, n) == Without(old(keyed), n)
        invariant forall j :: 0 <= j < |keyed| ==> keyed[j] in old(keyed)
        invariant forall j :: 0 <= j < i && Keyed(q[j]) ==> Entry(KeyText(q[j][0].value), n) !in keyed
      {
        if Keyed(q[i]) {
          RemoveItemKeeps(keyed, KeyText(q[i][0].value), n);
          RemoveItemHolds(keyed, KeyText(q[i][0].value), n);
          keyed := RemoveItem(keyed, KeyText(q[i][0].value), n);
        }
      }
      RemoveItemKeeps(keyed, GENERIC, n);
      RemoveItemHolds(keyed, GENERIC, n);
      keyed := RemoveItem(keyed, GENERIC, n);
      assert forall j :: 0 <= j < |keyed| ==> keyed[j] in old(keyed);
      FiledKey(old(keyed));
      NoneOf(keyed, n);
    }

    /** objectsUpdated: every notification is sent what the lookup by key finds for it, which is exactly what a full scan would
        send it if the changes are regular ones of one object each. */
    method ObjectsUpdated(changes: seq<Change>)
      requires Filed(keyed)
      modifies Listeners(keyed)
      ensures forall i :: 0 <= i < |keyed| ==>
        keyed[i].n.sent == old(keyed[i].n.sent) + FoundAll(keyed[i].n.query, keyed[i].n.actions, keyed[i].n.allowed, changes)
      ensures (forall c :: c in changes ==> Proper(c)) ==> forall i :: 0 <= i < |keyed| ==>
        keyed[i].n.sent == old(keyed[i].n.sent) + Notices(keyed[i].n.query, keyed[i].n.actions, keyed[i].n.allowed, changes)
    {
      hide Found, Proper;
      for k := 0 to |changes|
        invariant forall i :: 0 <= i < |keyed| ==>
          keyed[i].n.sent == old(keyed[i].n.sent) + FoundAll(keyed[i].n.query, keyed[i].n.actions, keyed[i].n.allowed, changes[..k])
      {
        assert changes[..k + 1][..k] == changes[..k];
        Dispatch(changes[k]);
      }
      assert changes[..|changes|] == changes;
      if forall c :: c in changes ==> Proper(c) {
        forall i | 0 <= i < |keyed|
          ensures keyed[i].n.sent == old(keyed[i].n.sent) + Notices(keyed[i].n.query, keyed[i].n.actions, keyed[i].n.allowed, changes)
        {
          AllRegularAreFound(keyed[i].n.query, keyed[i].n.actions, keyed[i].n.allowed, changes);
        }
      }
    }

    method Dispatch(c: Change)
      requires Filed(keyed)
      modifies Listeners(keyed)
      ensures forall i :: 0 <= i < |keyed| ==>
        keyed[i].n.sent == old(keyed[i].n.sent) + Found(keyed[i].n.query, keyed[i].n.actions, keyed[i].n.allowed, c)
    {
      hide KeyOf, Notice, ChangeKeys;
      var notificationKeys := ChangeKeys(c);
      for j := 0 to |notificationKeys|
        invariant forall i :: 0 <= i < |keyed| ==>
          keyed[i].n.sent == old(keyed[i].n.sent) + Sent(keyed[i], notificationKeys[..j], c)
      {
        assert notificationKeys[..j + 1][..j] == notificationKeys[..j];
        LookUp(notificationKeys[j], c);
      }
      assert notificationKeys[..|notificationKeys|] == notificationKeys;
    }

    /** All notifications filed under the key are told of the change. */
    method LookUp(key: string, c: Change)
      requires Filed(keyed)
      modifies Listeners(keyed)
      ensures forall i :: 0 <= i < |keyed| ==>
        keyed[i].n.sent == old(keyed[i].n.sent)
                           + if keyed[i].key == key then Notice(keyed[i].n.query, keyed[i].n.actions, keyed[i].n.allowed, c) else []
    {
      hide KeyOf, Notice;
      for m := 0 to |keyed|
        invariant forall i :: 0 <= i < m ==>
          keyed[i].n.sent == old(keyed[i].n.sent)
                             + if keyed[i].key == key then Notice(keyed[i].n.query, keyed[i].n.actions, keyed[i].n.allowed, c) else []
        invariant forall i :: m <= i < |keyed| ==> keyed[i].n.sent == old(keyed[i].n.sent)
      {
        if keyed[m].key == key {
          assert keyed[m].n in Listeners(keyed);
          keyed[m].n.NotifyIfMatches(c.before, c.after, c.action);
        }
      }
    }
  }

  /** What was sent to a filed notification when these keys have been looked up. */
  function Sent(e: Entry, keys: seq<string>, c: Change): seq<Event> {
    Repeat(Notice(e.n.query, e.n.actions, e.n.allowed, c), Count(keys, e.key))
  }

  /** Generated uuids are new when they are generated. */
  ghost predicate FreshUuids(docs: seq<Doc>, generated: seq<string>, store: Store, stamp: nat -> nat)
    requires Objects(docs) && |generated| == |docs|
  {
    forall i :: 0 <= i < |docs| && docs[i].uuid == "" ==> generated[i] !in WriteAll(store, WithUuids(docs, generated)[..i], stamp).store
  }

  function WithUuids(docs: seq<Doc>, generated: seq<string>): (r: seq<Doc>)
    requires Objects(docs) && |generated| == |docs|
    ensures |r| == |docs| && Objects(r)
    ensures forall i :: 0 <= i < |docs| ==> r[i] == if docs[i].uuid == "" then docs[i].(uuid := generated[i]) else docs[i]
  {
    seq(|docs|, i requires 0 <= i < |docs| => if docs[i].uuid == "" then docs[i].(uuid := generated[i]) else docs[i])
  }
}

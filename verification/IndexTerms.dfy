// Query terms on an index: the constraints they put on field values, and the bounds they set for the scan.
module IndexTerms {
  import opened ForwardKeys

  // ---- regular expressions -----------------------------------------------------------------------------------

  /** A regular expression. Plain characters of a wildcard pattern stand for themselves; the rest is the engine's. */
  datatype RegExp = RegExp(pattern: Text, wildcard: bool, caseSensitive: bool, engine: (Text, Text) -> bool)

  predicate Plain(c: char16) {
    c !in {42 as char16, 63 as char16, 91 as char16, 92 as char16, 93 as char16}
  }

  predicate WildcardMatch(pattern: Text, s: Text, engine: (Text, Text) -> bool) {
    if pattern == [] then s == []
    else if Plain(pattern[0]) then s != [] && s[0] == pattern[0] && WildcardMatch(pattern[1..], s[1..], engine)
    else engine(pattern, s)
  }

  predicate ExactMatch(re: RegExp, s: Text) {
    if re.wildcard && re.caseSensitive then WildcardMatch(re.pattern, s, re.engine) else re.engine(re.pattern, s)
  }

  function PlainPrefix(pattern: Text): Text {
    if pattern != [] && Plain(pattern[0]) then [pattern[0]] + PlainPrefix(pattern[1..]) else []
  }

  ghost predicate Special(c: char16) {
    exists i :: 0 <= i < 5 && "*?[]\\"[i] as int == c as int
  }

  /** The plain prefix reaches up to the first of * ? [ ] and backslash. */
  lemma {:induction false} PrefixEndsAtSpecial(pattern: Text)
    ensures var p := PlainPrefix(pattern);
      p <= pattern && (forall i :: 0 <= i < |p| ==> !Special(p[i])) && (|p| < |pattern| ==> Special(pattern[|p|]))
  {
    var specials := "*?[]\\";
    assert specials[0] == '*' && specials[1] == '?' && specials[2] == '[' && specials[3] == ']' && specials[4] == '\\';
    if pattern != [] && Plain(pattern[0]) {
      PrefixEndsAtSpecial(pattern[1..]);
      var p := PlainPrefix(pattern[1..]);
      assert PlainPrefix(pattern)[1..] == p && pattern == [pattern[0]] + pattern[1..];
      forall i | 0 <= i < |p| + 1 ensures !Special(([pattern[0]] + p)[i]) {
      }
    }
  }

  /** A case-sensitive wildcard pattern matches the texts that begin with its plain prefix and go on as the engine says of the
      rest of it; if there is no rest, only the pattern itself. Other patterns are left to the engine. */
  lemma ExactMatchIs(re: RegExp, s: Text)
    ensures var p := PlainPrefix(re.pattern);
      |p| <= |re.pattern| && (ExactMatch(re, s) <==>
        if !re.wildcard || !re.caseSensitive then re.engine(re.pattern, s)
        else if p == re.pattern then s == re.pattern
        else p <= s && re.engine(re.pattern[|p|..], s[|p|..]))
  {
    WildcardMatchIs(re.pattern, s, re.engine);
  }

  lemma {:induction false} WildcardMatchIs(pattern: Text, s: Text, engine: (Text, Text) -> bool)
    ensures var p := PlainPrefix(pattern);
      && |p| <= |pattern|
      && (WildcardMatch(pattern, s, engine) <==>
            if p == pattern then s == pattern else p <= s && engine(pattern[|p|..], s[|p|..]))
  {
    if pattern != [] && Plain(pattern[0]) {
      var p, rest := PlainPrefix(pattern), pattern[1..];
      assert p[1..] == PlainPrefix(rest) && pattern == [pattern[0]] + rest;
      if s != [] {
        WildcardMatchIs(rest, s[1..], engine);
        assert s == [s[0]] + s[1..];
        assert pattern[|p|..] == rest[|p| - 1..] && (|p| <= |s| ==> s[1..][|p| - 1..] == s[|p|..]);
      } else {
        WildcardMatchIs(rest, s, engine);
      }
    }
  }

  /** What a wildcard pattern matches starts with its plain prefix. */
  lemma {:induction false} MatchStartsWithPrefix(pattern: Text, s: Text, engine: (Text, Text) -> bool)
    requires WildcardMatch(pattern, s, engine)
    ensures PlainPrefix(pattern) <= s
  {
    if pattern != [] && Plain(pattern[0]) {
      MatchStartsWithPrefix(pattern[1..], s[1..], engine);
      assert s == [s[0]] + s[1..];
    }
  }

  lemma {:induction false} PrefixIsLess(a: Text, b: Text)
    requires a <= b
    ensures CompareText(a, b) <= 0
  {
    if a != [] {
      assert a[0] == b[0] && a[1..] <= b[1..];
      PrefixIsLess(a[1..], b[1..]);
    }
  }

  /** The text a bound is set to: only a case-sensitive wildcard pattern has one that is not empty. */
  function Prefix(re: RegExp): Text {
    if re.wildcard then PlainPrefix(re.pattern) else []
  }

  // ---- constraints -------------------------------------------------------------------------------------------

  datatype Constraint =
    | Gt(v: Value) | Ge(v: Value) | Lt(v: Value) | Le(v: Value) | Eq(v: Value) | Ne(v: Value)
    | Exists | NotExists
    | In(list: seq<Value>) | NotIn(list: seq<Value>)
    | StartsWith(s: Text)
    | Matching(re: RegExp, negated: bool)

  predicate LessThan(a: Value, b: Value) {
    match (a, b)
    case (Number(x), Number(y)) => x < y
    case (String(x), String(y)) => CompareText(x, y) < 0
    case (Bool(x), Bool(y)) => !x && y
    case (_, _) => false
  }

  predicate GreaterThan(a: Value, b: Value) {
    match (a, b)
    case (Number(x), Number(y)) => x > y
    case (String(x), String(y)) => CompareText(x, y) > 0
    case (Bool(x), Bool(y)) => x && !y
    case (_, _) => false
  }

  /** Only values of one type are below or above each other, and then as in the order of field values. */
  lemma LessThanIsOrder(a: Value, b: Value)
    requires Scalar(a) && Scalar(b)
    ensures LessThan(a, b) <==> TypeOf(a) == TypeOf(b) && CompareValues(a, b) < 0
    ensures GreaterThan(a, b) <==> LessThan(b, a)
  {
    if a.String? && b.String? {
      CompareTextIsOrder(b.s, a.s);
    }
  }

  function TextOf(v: Value): Text {
    if v.String? then v.s else []
  }

  function ItemsOf(v: Value): seq<Value> {
    if v.Array? then v.items else []
  }

  predicate Matches(c: Constraint, v: Value) {
    match c
    case Gt(w) => GreaterThan(v, w)
    case Ge(w) => GreaterThan(v, w) || v == w
    case Lt(w) => LessThan(v, w)
    case Le(w) => LessThan(v, w) || v == w
    case Eq(w) => v == w
    case Ne(w) => v != w
    case Exists => v != Undefined
    case NotExists => v == Undefined
    case In(list) => v in list
    case NotIn(list) => v !in list
    case StartsWith(s) => v.String? && s <= v.s
    case Matching(re, negated) => ExactMatch(re, TextOf(v)) != negated
  }

  predicate Sparse(c: Constraint) {
    c.Ne? || c.In? || c.NotIn? || c.StartsWith? || c.Matching?
  }

  predicate MatchesAll(cs: seq<Constraint>, v: Value) {
    forall i :: 0 <= i < |cs| ==> Matches(cs[i], v)
  }

  predicate AnySparse(cs: seq<Constraint>) {
    exists i :: 0 <= i < |cs| && Sparse(cs[i])
  }

  lemma MatchesOneMore(cs: seq<Constraint>, c: Constraint, v: Value)
    ensures MatchesAll(cs + [c], v) <==> MatchesAll(cs, v) && Matches(c, v)
  {
    var r := cs + [c];
    if MatchesAll(r, v) {
      forall i | 0 <= i < |cs| ensures Matches(cs[i], v) {
        assert r[i] == cs[i];
      }
      assert r[|cs|] == c;
    }
  }

  /** What a constraint that is not sparse matches has no gaps in the order of field values. */
  lemma DenseConstraint(c: Constraint, x: Value, y: Value, z: Value)
    requires !Sparse(c) && Scalar(x) && Scalar(y) && Scalar(z) && CompareValues(x, y) <= 0 && CompareValues(y, z) <= 0
    requires Matches(c, x) && Matches(c, z)
    ensures Matches(c, y)
  {
    CompareValuesIsTransitive(x, y, z);
    if c.Gt? || c.Ge? || c.Lt? || c.Le? || c.Eq? {
      if x.String? && y.String? && z.String? {
        TextIsDense(c, x.s, y.s, z.s);
      }
    }
  }

  lemma TextIsDense(c: Constraint, x: Text, y: Text, z: Text)
    requires c.Gt? || c.Ge? || c.Lt? || c.Le? || c.Eq?
    requires CompareText(x, y) <= 0 && CompareText(y, z) <= 0 && Matches(c, String(x)) && Matches(c, String(z))
    ensures Matches(c, String(y))
  {
    hide CompareText;
    if c.v.String? {
      var w := c.v.s;
      CompareTextIsOrder(x, y);
      CompareTextIsOrder(y, z);
      CompareTextIsOrder(x, w);
      CompareTextIsOrder(y, w);
      CompareTextIsOrder(z, w);
      if c.Gt? || c.Ge? {
        if CompareText(y, w) <= 0 { CompareTextIsTransitive(x, y, w); }
      } else if c.Lt? || c.Le? {
        CompareTextIsOrder(w, y);
        if CompareText(w, y) <= 0 { CompareTextIsTransitive(w, y, z); CompareTextIsOrder(w, z); }
      }
    }
  }

  lemma DenseConstraints(cs: seq<Constraint>, x: Value, y: Value, z: Value)
    requires !AnySparse(cs) && Scalar(x) && Scalar(y) && Scalar(z) && CompareValues(x, y) <= 0 && CompareValues(y, z) <= 0
    requires MatchesAll(cs, x) && MatchesAll(cs, z)
    ensures MatchesAll(cs, y)
  {
    forall i | 0 <= i < |cs| ensures Matches(cs[i], y) {
      DenseConstraint(cs[i], x, y, z);
    }
  }

  // ---- terms -------------------------------------------------------------------------------------------------

  datatype Op = OpGt | OpGe | OpLt | OpLe | OpEq | OpMatches | OpNotMatches | OpNe | OpExists | OpNotExists | OpIn
    | OpNotIn | OpStartsWith | OpUnknown

  /** A term of the query on the index: its operator, the value it compares with, and its regular expression. */
  datatype Term = Term(op: Op, value: Value, re: RegExp)

  /** The index the query uses: the type of its values, their longest text, and how numbers are written. */
  datatype Spec = Spec(ty: IndexType, maxSize: nat, num: Numerals)

  predicate EmptyIsNoNumber(spec: Spec) {
    spec.num.read([]).None?
  }

  function Bound(v: Value, spec: Spec): Value {
    Truncate(MakeFieldValue(v, spec.ty, spec.num), spec.ty, spec.maxSize)
  }

  datatype Compiled = Compiled(constraints: seq<Constraint>, min: Value, max: Value)

  const NOTHING := Compiled([], Undefined, Undefined)

  predicate SetsMin(t: Term) {
    t.op in {OpGt, OpGe, OpEq} || (t.op in {OpMatches, OpNotMatches} && t.re.caseSensitive)
  }

  predicate SetsMax(t: Term) {
    t.op in {OpLt, OpLe, OpEq} || (t.op in {OpMatches, OpNotMatches} && t.re.caseSensitive)
  }

  function FieldValue(t: Term, spec: Spec): Value {
    Truncate(t.value, spec.ty, spec.maxSize)
  }

  function BoundOf(t: Term, spec: Spec): Value {
    Bound(if t.op in {OpMatches, OpNotMatches} then String(Prefix(t.re)) else FieldValue(t, spec), spec)
  }

  function ConstraintsOf(t: Term, spec: Spec): seq<Constraint> {
    var v := FieldValue(t, spec);
    match t.op
    case OpGt => [Gt(v)]
    case OpGe => [Ge(v)]
    case OpLt => [Lt(v)]
    case OpLe => [Le(v)]
    case OpEq => [Eq(v)]
    case OpMatches => [Matching(t.re, false)]
    case OpNotMatches => [Matching(t.re, true)]
    case OpNe => [Ne(v)]
    case OpExists => [Exists]
    case OpNotExists => [NotExists]
    case OpIn => if |ItemsOf(t.value)| == 1 then [Eq(ItemsOf(t.value)[0])] else [In(ItemsOf(t.value))]
    case OpNotIn => [NotIn(ItemsOf(t.value))]
    case OpStartsWith => [StartsWith(TextOf(t.value))]
    case OpUnknown => []
  }

  /** compileOrQueryTerm: a later bound replaces an earlier one. */
  function CompileTerm(q: Compiled, t: Term, spec: Spec): Compiled {
    Compiled(q.constraints + ConstraintsOf(t, spec),
             if SetsMin(t) then BoundOf(t, spec) else q.min,
             if SetsMax(t) then BoundOf(t, spec) else q.max)
  }

  function Compile(terms: seq<Term>, spec: Spec): Compiled {
    if terms == [] then NOTHING else CompileTerm(Compile(terms[..|terms| - 1], spec), terms[|terms| - 1], spec)
  }

  // ---- what a term asks of a field value ---------------------------------------------------------------------

  /** How a field value stands to that of a term; only values of one type are above or below each other. */
  ghost predicate Stands(v: Value, w: Value, holds: int -> bool) {
    TypeOf(v) == TypeOf(w) && holds(CompareValues(v, w))
  }

  /** The relation an operator stands for. Lists and prefixes are taken as they are given, other values as the index keeps them. */
  ghost predicate Meets(t: Term, spec: Spec, v: Value) {
    var w := FieldValue(t, spec);
    match t.op
    case OpGt => Stands(v, w, c => c > 0)
    case OpGe => Stands(v, w, c => c >= 0)
    case OpLt => Stands(v, w, c => c < 0)
    case OpLe => Stands(v, w, c => c <= 0)
    case OpEq => Stands(v, w, c => c == 0)
    case OpNe => !Stands(v, w, c => c == 0)
    case OpMatches => ExactMatch(t.re, TextOf(v))
    case OpNotMatches => !ExactMatch(t.re, TextOf(v))
    case OpExists => v != Undefined
    case OpNotExists => v == Undefined
    case OpIn => t.value.Array? && exists i :: 0 <= i < |t.value.items| && t.value.items[i] == v
    case OpNotIn => !(t.value.Array? && exists i :: 0 <= i < |t.value.items| && t.value.items[i] == v)
    case OpStartsWith => v.String? && (t.value.String? ==> t.value.s <= v.s)
    case OpUnknown => true
  }

  /** The constraints of a term let exactly those values through that meet it. */
  lemma TermMeaning(t: Term, spec: Spec, v: Value)
    requires OfType(v, spec.ty)
    ensures MatchesAll(ConstraintsOf(t, spec), v) <==> Meets(t, spec, v)
  {
    var w := FieldValue(t, spec);
    if v.String? && w.String? {
      CompareTextIsOrder(v.s, w.s);
    }
    if t.op.OpUnknown? {
    } else {
      assert MatchesAll(ConstraintsOf(t, spec), v) <==> Matches(ConstraintsOf(t, spec)[0], v);
    }
  }

  /** The upper bound that a comparison sets is not below what meets it; a pattern sets the same bound on both sides, and other
      terms leave the bound as it is. */
  lemma UpperBoundHolds(q: Compiled, t: Term, spec: Spec, v: Value)
    requires OfType(v, spec.ty) && Meets(t, spec, v)
    ensures var r := CompileTerm(q, t, spec);
      && (t.op in {OpLt, OpLe, OpEq} ==> r.max == Undefined || CompareValues(v, r.max) <= 0)
      && (t.op in {OpMatches, OpNotMatches} && t.re.caseSensitive ==> r.max == r.min)
      && (t.op !in {OpLt, OpLe, OpEq, OpMatches, OpNotMatches} ==> r.max == q.max)
  {
    BoundIsValue(FieldValue(t, spec), t.value, spec);
  }

  /** Those of a query let exactly those through that meet all its terms. */
  lemma {:induction false} QueryMeaning(terms: seq<Term>, spec: Spec, v: Value)
    requires OfType(v, spec.ty)
    ensures MatchesAll(Compile(terms, spec).constraints, v) <==> forall i :: 0 <= i < |terms| ==> Meets(terms[i], spec, v)
  {
    hide Matches, ConstraintsOf, Meets;
    if terms != [] {
      var front, t := terms[..|terms| - 1], terms[|terms| - 1];
      QueryMeaning(front, spec, v);
      TermMeaning(t, spec, v);
      FewConstraints(t, spec);
      MatchesMore(Compile(front, spec).constraints, ConstraintsOf(t, spec), v);
    }
  }

  // ---- when the lower bound may be used ----------------------------------------------------------------------

  /** No field value of the index that meets the constraints is below the bound. */
  ghost predicate MinIsSafe(q: Compiled, spec: Spec) {
    q.min != Undefined ==>
      forall v :: OfType(v, spec.ty) && MatchesAll(q.constraints, v) ==> Scalar(q.min) && CompareValues(q.min, v) <= 0
  }

  /** A negated pattern sets its prefix as the lower bound although it matches what is below it. */
  predicate Misleading(t: Term, spec: Spec) {
    t.op.OpNotMatches? && SetsMin(t) && BoundOf(t, spec) !in {Undefined, String([])}
  }

  /** The last term that sets the lower bound is a misleading one. */
  predicate Misled(terms: seq<Term>, spec: Spec) {
    terms != [] &&
    var last := terms[|terms| - 1];
    if SetsMin(last) then Misleading(last, spec) else Misled(terms[..|terms| - 1], spec)
  }

  lemma BoundIsScalar(v: Value, spec: Spec)
    ensures Bound(v, spec) == Undefined || (OfType(Bound(v, spec), spec.ty) && Scalar(Bound(v, spec)))
  {
    FieldValueHasType(v, spec.ty, spec.num, spec.maxSize);
  }

  /** A value that meets the constraint of a term is not below the bound the term sets. */
  lemma BoundHolds(t: Term, spec: Spec, v: Value)
    requires SetsMin(t) && !Misleading(t, spec) && OfType(v, spec.ty) && MatchesAll(ConstraintsOf(t, spec), v)
    requires BoundOf(t, spec) != Undefined && EmptyIsNoNumber(spec)
    ensures Scalar(BoundOf(t, spec)) && CompareValues(BoundOf(t, spec), v) <= 0
  {
    var c := ConstraintsOf(t, spec)[0];
    assert Matches(c, v);
    BoundIsScalar(if t.op in {OpMatches, OpNotMatches} then String(Prefix(t.re)) else FieldValue(t, spec), spec);
    if t.op in {OpGt, OpGe, OpEq} {
      BoundIsValue(FieldValue(t, spec), t.value, spec);
      if v.String? { CompareTextIsOrder(v.s, BoundOf(t, spec).s); }
    } else if t.op.OpMatches? {
      if v.String? {
        if t.re.wildcard {
          MatchStartsWithPrefix(t.re.pattern, v.s, t.re.engine);
        }
        PrefixIsLess(BoundOf(t, spec).s, v.s);
      } else {
        EmptyMatchHasNoPrefix(t.re);
      }
    } else if v.String? {
      PrefixIsLess([], v.s);
    }
  }

  lemma EmptyMatchHasNoPrefix(re: RegExp)
    requires ExactMatch(re, []) && re.caseSensitive
    ensures Prefix(re) == []
  {
    if re.wildcard {
      MatchStartsWithPrefix(re.pattern, [], re.engine);
    }
  }

  lemma BoundIsValue(v: Value, w: Value, spec: Spec)
    requires v == Truncate(w, spec.ty, spec.maxSize)
    ensures OfType(v, spec.ty) ==> Bound(v, spec) == v
  {
    FieldValueHasType(v, spec.ty, spec.num, spec.maxSize);
  }

  /** The bound of a compiled query loses nothing, unless a negated pattern set it. */
  lemma {:induction false} MinIsSafeUnlessMisled(terms: seq<Term>, spec: Spec)
    requires !Misled(terms, spec) && EmptyIsNoNumber(spec)
    ensures MinIsSafe(Compile(terms, spec), spec)
  {
    if terms != [] {
      var front, t := terms[..|terms| - 1], terms[|terms| - 1];
      var q, r := Compile(front, spec), Compile(terms, spec);
      if !SetsMin(t) {
        MinIsSafeUnlessMisled(front, spec);
      }
      if r.min != Undefined {
        forall v | OfType(v, spec.ty) && MatchesAll(r.constraints, v) ensures Scalar(r.min) && CompareValues(r.min, v) <= 0 {
          MatchesMore(q.constraints, ConstraintsOf(t, spec), v);
          if SetsMin(t) {
            BoundHolds(t, spec, v);
          }
        }
      }
    }
  }

  lemma MatchesMore(cs: seq<Constraint>, ds: seq<Constraint>, v: Value)
    requires |ds| <= 1
    ensures MatchesAll(cs + ds, v) <==> MatchesAll(cs, v) && MatchesAll(ds, v)
  {
    if ds == [] {
      assert cs + ds == cs;
    } else {
      assert cs + ds == cs + [ds[0]];
      MatchesOneMore(cs, ds[0], v);
    }
  }

  /** For a query of one term the bound is safe exactly when the term is not a negated pattern with a prefix. */
  lemma SingleTermIsSafeIff(t: Term, spec: Spec)
    requires EmptyIsNoNumber(spec)
    ensures MinIsSafe(Compile([t], spec), spec) <==> !Misleading(t, spec)
    ensures Misleading(t, spec) ==>
      && Compile([t], spec).min != Undefined && OfType(LostValue(t, spec), spec.ty)
      && MatchesAll(Compile([t], spec).constraints, LostValue(t, spec))
      && CompareValues(LostValue(t, spec), Compile([t], spec).min) < 0
  {
    var q := Compile([t], spec);
    assert Compile([t][..0], spec) == NOTHING && [t][..0] == [];
    assert q == CompileTerm(NOTHING, t, spec);
    if Misleading(t, spec) {
      var v := LostValue(t, spec);
      BoundIsScalar(String(Prefix(t.re)), spec);
      assert q.constraints == [Matching(t.re, true)];
      if ExactMatch(t.re, []) {
        EmptyMatchHasNoPrefix(t.re);
      }
      CompareValuesIsOrder(v, q.min);
    } else {
      assert [t][..0] == [];
      MinIsSafeUnlessMisled([t], spec);
    }
  }

  /** The terms without the misleading one that sets the bound. */
  function Others(terms: seq<Term>, spec: Spec): seq<Term> {
    if terms == [] then []
    else
      var front, t := terms[..|terms| - 1], terms[|terms| - 1];
      if SetsMin(t) then front else Others(front, spec) + [t]
  }

  /** What is below the prefix of a negated pattern matches it. */
  lemma BelowIsMatched(t: Term, spec: Spec, v: Value)
    requires Misleading(t, spec) && EmptyIsNoNumber(spec) && OfType(v, spec.ty) && CompareValues(v, BoundOf(t, spec)) < 0
    ensures MatchesAll(ConstraintsOf(t, spec), v) && Scalar(BoundOf(t, spec)) && OfType(BoundOf(t, spec), spec.ty)
  {
    BoundIsScalar(String(Prefix(t.re)), spec);
    if ExactMatch(t.re, TextOf(v)) {
      if v.String? {
        if t.re.wildcard {
          MatchStartsWithPrefix(t.re.pattern, v.s, t.re.engine);
        }
        PrefixIsLess(BoundOf(t, spec).s, v.s);
        CompareTextIsOrder(v.s, BoundOf(t, spec).s);
      } else {
        EmptyMatchHasNoPrefix(t.re);
      }
    }
  }

  /** Below a misled bound only the other terms count. */
  lemma {:induction false} OthersDecide(terms: seq<Term>, spec: Spec, v: Value)
    requires Misled(terms, spec) && EmptyIsNoNumber(spec) && OfType(v, spec.ty)
    ensures var q := Compile(terms, spec);
      && q.min != Undefined && Scalar(q.min)
      && (CompareValues(v, q.min) < 0 ==> (MatchesAll(q.constraints, v) <==> MatchesAll(Compile(Others(terms, spec), spec).constraints, v)))
  {
    hide Matches, Misleading, CompareValues, ConstraintsOf, BoundOf;
    var front, t := terms[..|terms| - 1], terms[|terms| - 1];
    FewConstraints(t, spec);
    MatchesMore(Compile(front, spec).constraints, ConstraintsOf(t, spec), v);
    if SetsMin(t) {
      MisledBound(t, spec);
      if CompareValues(v, BoundOf(t, spec)) < 0 {
        BelowIsMatched(t, spec, v);
      }
    } else {
      OthersDecide(front, spec, v);
      var others := Others(front, spec);
      assert (others + [t])[..|others|] == others;
      MatchesMore(Compile(others, spec).constraints, ConstraintsOf(t, spec), v);
    }
  }

  lemma FewConstraints(t: Term, spec: Spec)
    ensures |ConstraintsOf(t, spec)| <= 1
  {
  }

  lemma MisledBound(t: Term, spec: Spec)
    requires Misleading(t, spec)
    ensures BoundOf(t, spec) != Undefined && Scalar(BoundOf(t, spec))
  {
    BoundIsScalar(String(Prefix(t.re)), spec);
  }

  /** A misled bound is safe exactly when the other terms alone let nothing below it through. */
  lemma MisledIsSafeIff(terms: seq<Term>, spec: Spec)
    requires Misled(terms, spec) && EmptyIsNoNumber(spec)
    ensures var q, others := Compile(terms, spec), Compile(Others(terms, spec), spec).constraints;
      MinIsSafe(q, spec) <==> forall v :: OfType(v, spec.ty) && CompareValues(v, q.min) < 0 ==> !MatchesAll(others, v)
  {
    hide Compile, Others, Misled, MatchesAll, EmptyIsNoNumber;
    var q, others := Compile(terms, spec), Compile(Others(terms, spec), spec).constraints;
    forall v | OfType(v, spec.ty)
      ensures q.min != Undefined && Scalar(q.min)
      ensures CompareValues(v, q.min) < 0 <==> CompareValues(q.min, v) > 0
      ensures CompareValues(v, q.min) < 0 ==> (MatchesAll(q.constraints, v) <==> MatchesAll(others, v))
    {
      OthersDecide(terms, spec, v);
      CompareValuesIsOrder(v, q.min);
    }
  }

  /** So it is safe when another term, that does not mislead, sets a bound at least as high. */
  lemma HigherBoundSaves(terms: seq<Term>, spec: Spec, i: nat)
    requires Misled(terms, spec) && EmptyIsNoNumber(spec) && i < |terms|
    requires SetsMin(terms[i]) && !Misleading(terms[i], spec) && BoundOf(terms[i], spec) != Undefined
    requires CompareValues(Compile(terms, spec).min, BoundOf(terms[i], spec)) <= 0
    ensures MinIsSafe(Compile(terms, spec), spec)
  {
    hide Compile, Misled, MatchesAll, EmptyIsNoNumber, SetsMin, Misleading, ConstraintsOf, CompareValues, BoundOf;
    var q, b := Compile(terms, spec), BoundOf(terms[i], spec);
    forall v | OfType(v, spec.ty) && MatchesAll(q.constraints, v) ensures Scalar(q.min) && CompareValues(q.min, v) <= 0 {
      TermHolds(terms, spec, i, v);
      BoundHolds(terms[i], spec, v);
      OthersDecide(terms, spec, v);
      CompareValuesIsTransitive(q.min, b, v);
    }
  }

  lemma {:induction false} TermHolds(terms: seq<Term>, spec: Spec, i: nat, v: Value)
    requires i < |terms| && MatchesAll(Compile(terms, spec).constraints, v)
    ensures MatchesAll(ConstraintsOf(terms[i], spec), v)
  {
    hide Matches, ConstraintsOf;
    var front, t := terms[..|terms| - 1], terms[|terms| - 1];
    FewConstraints(t, spec);
    MatchesMore(Compile(front, spec).constraints, ConstraintsOf(t, spec), v);
    if i < |front| {
      TermHolds(front, spec, i, v);
    }
  }

  lemma CompareValuesIsOrder(a: Value, b: Value)
    requires Scalar(a) && Scalar(b)
    ensures CompareValues(a, b) < 0 <==> CompareValues(b, a) > 0
    ensures CompareValues(a, b) == 0 <==> a == b
  {
    CompareKeysIsOrder(IndexKey(a, 0), IndexKey(b, 0));
  }

  /** A value below the bound of a misleading term that the term matches. */
  function LostValue(t: Term, spec: Spec): Value {
    var b := BoundOf(t, spec);
    if b.Number? then Number(b.n - 1.0) else String([])
  }
}

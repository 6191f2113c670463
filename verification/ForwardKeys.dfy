// Keys of a secondary index: a field value followed by the uuid of its object, as bytes and in their order.
module ForwardKeys {
  import opened Lexicographic
  import opened HBtreeRecords
  import opened Options
  import PageCodec

  newtype char16 = c: int | 0 <= c < 0x1_0000
  type Text = seq<char16>

  datatype Value = Undefined | Null | Bool(b: bool) | Number(n: real) | String(s: Text) | Array(items: seq<Value>) | Object

  /** Object uuids stand for their place in the order of uuids; the null uuid is the first. */
  type Uuid = nat

  const UUID_LIMIT := 0x1_0000_0000_0000_0000_0000_0000_0000_0000
  const UUID_SIZE := 16

  function TypeOf(v: Value): int {
    match v
    case Null => 0
    case Bool(_) => 1
    case Number(_) => 2
    case String(_) => 3
    case Array(_) => 4
    case Object => 5
    case Undefined => 0x80
  }

  // ---- field values ----------------------------------------------------------------------------------------

  /** How numbers are written as text and read from it. */
  datatype Numerals = Numerals(write: real -> Text, read: Text -> Option<real>)

  const NULL_TEXT: Text := [110, 117, 108, 108]
  const TRUE_TEXT: Text := [116, 114, 117, 101]
  const FALSE_TEXT: Text := [102, 97, 108, 115, 101]

  datatype IndexType = StringIndex | NumberIndex | OtherIndex

  /** makeFieldValue: any value in the type of the index; arrays of one element stand for the element. */
  function MakeFieldValue(v: Value, ty: IndexType, num: Numerals): Value {
    if v.Array? && ty != OtherIndex then
      if |v.items| == 1 then MakeFieldValue(v.items[0], ty, num) else Undefined
    else if ty.StringIndex? then
      match v
      case Null => String(NULL_TEXT)
      case Bool(b) => String(if b then TRUE_TEXT else FALSE_TEXT)
      case Number(n) => String(num.write(n))
      case String(_) => v
      case _ => Undefined
    else if ty.NumberIndex? then
      match v
      case Null => Number(0.0)
      case Bool(b) => Number(if b then 1.0 else 0.0)
      case Number(_) => v
      case String(s) => (match num.read(s) case Some(n) => Number(n) case None => Undefined)
      case _ => Undefined
    else Undefined
  }

  function Truncate(v: Value, ty: IndexType, maxSize: nat): Value {
    if ty.StringIndex? && v.String? && |v.s| > maxSize then String(v.s[..maxSize]) else v
  }

  /** Field values in an index have the type of the index. */
  ghost predicate OfType(v: Value, ty: IndexType) {
    match ty
    case StringIndex => v.String?
    case NumberIndex => v.Number?
    case OtherIndex => false
  }

  lemma {:induction false} FieldValueHasType(v: Value, ty: IndexType, num: Numerals, maxSize: nat)
    ensures var w := Truncate(MakeFieldValue(v, ty, num), ty, maxSize); w == Undefined || OfType(w, ty)
    ensures OfType(v, ty) ==> MakeFieldValue(v, ty, num) == v
    decreases v
  {
    if v.Array? && |v.items| == 1 {
      FieldValueHasType(v.items[0], ty, num, maxSize);
    }
  }

  /** The value that is indexed for a property: the value itself, or the element of an array of one, and so on. */
  function Element(v: Value): Value {
    if v.Array? && |v.items| == 1 then Element(v.items[0]) else v
  }

  /** A property has a field value exactly if its element is null, a boolean, a number or a text, and in an index of numbers a
      text only if it reads as one. */
  lemma {:induction false} IndexedIff(v: Value, ty: IndexType, num: Numerals)
    requires !ty.OtherIndex?
    ensures MakeFieldValue(v, ty, num) != Undefined <==>
      var e := Element(v); e.Null? || e.Bool? || e.Number? || (e.String? && (ty.NumberIndex? ==> num.read(e.s).Some?))
    decreases v
  {
    if v.Array? && |v.items| == 1 {
      IndexedIff(v.items[0], ty, num);
    }
  }

  /** In an index of texts it is the text itself, null, true or false as a word, or the number as it is written. */
  lemma {:induction false} IndexedAsText(v: Value, num: Numerals)
    ensures var e, w := Element(v), MakeFieldValue(v, StringIndex, num);
      && (e.String? ==> w == e)
      && (e.Number? ==> w.String? && (num.read(num.write(e.n)) == Some(e.n) ==> num.read(w.s) == Some(e.n)))
      && (e.Bool? ==> w == String(if e.b then [116, 114, 117, 101] else [102, 97, 108, 115, 101]))
      && (e.Null? ==> w == String([110, 117, 108, 108]))
    decreases v
  {
    if v.Array? && |v.items| == 1 {
      IndexedAsText(v.items[0], num);
    }
  }

  /** In an index of numbers it is the number, or the one that the text reads as; true is above false, and null is as false. */
  lemma {:induction false} IndexedAsNumber(v: Value, num: Numerals)
    ensures var e, w := Element(v), MakeFieldValue(v, NumberIndex, num);
      && (e.Number? ==> w == e)
      && (e.String? && w != Undefined ==> w.Number? && num.read(e.s) == Some(w.n))
      && (e.Bool? ==> w.Number? && (if e.b then w.n == 1.0 else w.n == 0.0))
      && (e.Null? ==> w == Number(0.0))
    decreases v
  {
    if v.Array? && |v.items| == 1 {
      IndexedAsNumber(v.items[0], num);
    }
  }

  /** A text keeps its beginning, as much as fits; other values stay. */
  lemma TruncateIsPrefix(v: Value, ty: IndexType, maxSize: nat)
    ensures var w := Truncate(v, ty, maxSize);
      if ty.StringIndex? && v.String? then w.String? && w.s <= v.s && |w.s| == (if |v.s| < maxSize then |v.s| else maxSize) else w == v
  {
  }

  // ---- the order -------------------------------------------------------------------------------------------

  datatype IndexKey = IndexKey(value: Value, uuid: Uuid)

  /** qstringcmp. */
  function CompareText(a: Text, b: Text): int {
    if a == [] || b == [] then |a| - |b|
    else if a[0] != b[0] then a[0] as int - b[0] as int
    else CompareText(a[1..], b[1..])
  }

  function CompareReal(a: real, b: real): int {
    if a < b then -1 else if a > b then 1 else 0
  }

  function CompareValues(a: Value, b: Value): int {
    if TypeOf(a) != TypeOf(b) then TypeOf(a) - TypeOf(b)
    else
      match (a, b)
      case (Bool(x), Bool(y)) => CompareReal(if x then 1.0 else 0.0, if y then 1.0 else 0.0)
      case (Number(x), Number(y)) => CompareReal(x, y)
      case (String(x), String(y)) => CompareText(x, y)
      case (_, _) => 0
  }

  function CompareKeys(a: IndexKey, b: IndexKey): int {
    var c := CompareValues(a.value, b.value);
    if c != 0 then c else if a.uuid == b.uuid then 0 else if a.uuid < b.uuid then -1 else 1
  }

  predicate Scalar(v: Value) {
    v.Null? || v.Bool? || v.Number? || v.String?
  }

  lemma {:induction false} CompareTextIsLexicographic(a: Text, b: Text)
    ensures CompareText(a, b) < 0 <==> Precedes(a, b, (x: char16, y: char16) => x < y)
  {
    var below := (x: char16, y: char16) => x < y;
    if a != [] && b != [] {
      PrecedesStep(a, b, below);
      CompareTextIsLexicographic(a[1..], b[1..]);
    } else {
      PrecedesEmpty(a, b, below);
    }
  }

  /** Null comes first, then false, true, the numbers in their order, and the texts in theirs, by their units. */
  lemma CompareValuesMeans(a: Value, b: Value)
    requires Scalar(a) && Scalar(b)
    ensures CompareValues(a, b) < 0 <==>
      || (a.Null? && !b.Null?) || (a.Bool? && (b.Number? || b.String? || (b.Bool? && !a.b && b.b)))
      || (a.Number? && (b.String? || (b.Number? && a.n < b.n)))
      || (a.String? && b.String? && Precedes(a.s, b.s, (x: char16, y: char16) => x < y))
  {
    if a.String? && b.String? {
      CompareTextIsLexicographic(a.s, b.s);
    }
  }

  lemma {:induction false} CompareTextIsOrder(a: Text, b: Text)
    ensures CompareText(a, b) == 0 <==> a == b
    ensures CompareText(a, b) < 0 <==> CompareText(b, a) > 0
  {
    if a != [] && b != [] {
      CompareTextIsOrder(a[1..], b[1..]);
      assert a == [a[0]] + a[1..] && b == [b[0]] + b[1..];
    }
  }

  lemma {:induction false} CompareTextIsTransitive(a: Text, b: Text, c: Text)
    requires CompareText(a, b) <= 0 && CompareText(b, c) <= 0
    ensures CompareText(a, c) <= 0
  {
    if a != [] && b != [] && c != [] && a[0] == b[0] == c[0] {
      CompareTextIsTransitive(a[1..], b[1..], c[1..]);
    }
  }

  /** The order of index keys is total. */
  lemma CompareKeysIsOrder(a: IndexKey, b: IndexKey)
    requires Scalar(a.value) && Scalar(b.value)
    ensures CompareKeys(a, b) == 0 <==> a == b
    ensures CompareKeys(a, b) < 0 <==> CompareKeys(b, a) > 0
  {
    if a.value.String? && b.value.String? {
      CompareTextIsOrder(a.value.s, b.value.s);
      CompareTextIsOrder(b.value.s, a.value.s);
    }
  }

  lemma CompareValuesIsTransitive(a: Value, b: Value, c: Value)
    requires Scalar(a) && Scalar(b) && Scalar(c) && CompareValues(a, b) <= 0 && CompareValues(b, c) <= 0
    ensures CompareValues(a, c) <= 0
    ensures CompareValues(a, c) == 0 ==> CompareValues(a, b) == 0 && CompareValues(b, c) == 0
  {
    if a.String? && b.String? && c.String? {
      CompareTextIsTransitive(a.s, b.s, c.s);
      CompareTextIsOrder(a.s, b.s);
      CompareTextIsOrder(b.s, c.s);
      CompareTextIsOrder(a.s, c.s);
    }
  }

  lemma CompareKeysIsTransitive(a: IndexKey, b: IndexKey, c: IndexKey)
    requires Scalar(a.value) && Scalar(b.value) && Scalar(c.value) && CompareKeys(a, b) <= 0 && CompareKeys(b, c) <= 0
    ensures CompareKeys(a, c) <= 0
  {
    CompareValuesIsTransitive(a.value, b.value, c.value);
  }

  // ---- bytes -----------------------------------------------------------------------------------------------

  function BigEndian(n: nat, size: nat): (r: Bytes)
    ensures |r| == size
  {
    if size == 0 then [] else BigEndian(n / 256, size - 1) + [(n % 256) as byte]
  }

  function FromBigEndian(b: Bytes): nat {
    if b == [] then 0 else 256 * FromBigEndian(b[..|b| - 1]) + b[|b| - 1] as nat
  }

  function Power256(n: nat): (r: nat)
    ensures r > 0
  {
    if n == 0 then 1 else 256 * Power256(n - 1)
  }

  lemma {:induction false} BigEndianBack(n: nat, size: nat)
    requires n < Power256(size)
    ensures FromBigEndian(BigEndian(n, size)) == n
  {
    if size > 0 {
      BigEndianBack(n / 256, size - 1);
      var b := BigEndian(n, size);
      assert b[..|b| - 1] == BigEndian(n / 256, size - 1);
    }
  }

  /** The most significant byte is the first. */
  lemma {:induction false} BigEndianAt(n: nat, size: nat, i: nat)
    requires i < size
    ensures BigEndian(n, size)[i] as int == n / Power256(size - 1 - i) % 256
  {
    hide Power256;
    if i < size - 1 {
      BigEndianAt(n / 256, size - 1, i);
      PowerStep(n, size - 2 - i);
    } else {
      PowerZero();
    }
  }

  lemma PowerZero()
    ensures Power256(0) == 1
  {
  }

  lemma PowerStep(n: nat, k: nat)
    ensures n / 256 / Power256(k) == n / Power256(k + 1)
  {
    var p := Power256(k);
    var q, r, s := n / 256 / p, n % 256, n / 256 % p;
    assert n / 256 == p * q + s;
    assert n == 256 * (p * q) + (256 * s + r);
    assert 256 * (p * q) == (256 * p) * q;
    QuotientIs(n, 256 * p, q, 256 * s + r);
  }

  lemma QuotientIs(n: nat, d: nat, q: nat, r: nat)
    requires r < d && n == d * q + r
    ensures n / d == q
  {
    var e := n / d - q;
    assert n == d * (n / d) + n % d;
    assert d * (n / d) == d * q + d * e;
    assert e > 0 ==> d * e >= d;
    assert e < 0 ==> d * e <= 0 - d;
  }

  function TextBytes(s: Text): (r: Bytes)
    ensures |r| == 2 * |s|
  {
    if s == [] then [] else PageCodec.LE16(s[0] as int) + TextBytes(s[1..])
  }

  function FromTextBytes(b: Bytes): Text
    requires |b| % 2 == 0
  {
    if b == [] then [] else [(b[0] as int + 256 * b[1] as int) as char16] + FromTextBytes(b[2..])
  }

  lemma {:induction false} TextBytesBack(s: Text)
    ensures FromTextBytes(TextBytes(s)) == s
  {
    if s != [] {
      TextBytesBack(s[1..]);
      assert TextBytes(s)[2..] == TextBytes(s[1..]);
    }
  }

  /** Of each unit of a text the least significant byte is the first. */
  lemma {:induction false} TextBytesAt(s: Text, i: nat)
    requires i < |s|
    ensures TextBytes(s)[2 * i] as int == s[i] as int % 256 && TextBytes(s)[2 * i + 1] as int == s[i] as int / 256
  {
    if i > 0 {
      TextBytesAt(s[1..], i - 1);
      assert TextBytes(s)[2..] == TextBytes(s[1..]);
    }
  }

  /** The numbers a double can be (no NaN, one zero), the eight bytes of one, most significant first, and back. */
  datatype Doubles = Doubles(has: real -> bool, bytes: real -> Bytes, number: Bytes -> real)

  ghost predicate Faithful(d: Doubles) {
    forall r :: d.has(r) ==> |d.bytes(r)| == 8 && d.number(d.bytes(r)) == r
  }

  /** The scalar values a key can hold. */
  predicate Encodable(v: Value, d: Doubles) {
    Scalar(v) && (v.Number? ==> d.has(v.n))
  }

  /** serializeFieldValue. */
  function ValueBytes(v: Value, d: Doubles): Bytes {
    match v
    case Bool(b) => BigEndian(if b then 1 else 0, 4)
    case Number(n) => d.bytes(n)
    case String(s) => TextBytes(s)
    case _ => []
  }

  function MakeForwardKey(k: IndexKey, d: Doubles): Bytes {
    BigEndian(TypeOf(k.value), 4) + ValueBytes(k.value, d) + BigEndian(k.uuid, UUID_SIZE)
  }

  /** forwardKeySplit: what cannot be read leaves the value undefined. */
  function SplitValue(b: Bytes, d: Doubles): Value
    requires |b| >= 4 + UUID_SIZE
  {
    var ty, data := FromBigEndian(b[..4]), b[4..|b| - UUID_SIZE];
    if ty == 0 then Null
    else if ty == 1 then Bool(FromBigEndian(data) == 1)
    else if ty == 2 then Number(d.number(data))
    else if ty == 3 && |data| % 2 == 0 then String(FromTextBytes(data))
    else Undefined
  }

  function SplitUuid(b: Bytes): Uuid
    requires |b| >= 4 + UUID_SIZE
  {
    FromBigEndian(b[|b| - UUID_SIZE..])
  }

  lemma Powers()
    ensures Power256(4) == 0x1_0000_0000 && Power256(UUID_SIZE) == UUID_LIMIT
  {
    assert Power256(2) == 0x1_0000 && Power256(4) == 0x1_0000_0000;
    assert Power256(6) == 0x1_0000_0000_0000 && Power256(8) == 0x1_0000_0000_0000_0000;
    assert Power256(10) == 0x1_0000_0000_0000_0000_0000 && Power256(12) == 0x1_0000_0000_0000_0000_0000_0000;
    assert Power256(14) == 0x1_0000_0000_0000_0000_0000_0000_0000;
  }

  /** forwardKeySplit inverts makeForwardKey on scalar values. */
  lemma SplitInvertsMake(k: IndexKey, d: Doubles)
    requires Encodable(k.value, d) && k.uuid < UUID_LIMIT && Faithful(d)
    ensures var b := MakeForwardKey(k, d); |b| >= 4 + UUID_SIZE && SplitValue(b, d) == k.value && SplitUuid(b) == k.uuid
  {
    hide BigEndian, FromBigEndian, Power256, TextBytes, FromTextBytes;
    Powers();
    var b := MakeForwardKey(k, d);
    var ty, data, id := BigEndian(TypeOf(k.value), 4), ValueBytes(k.value, d), BigEndian(k.uuid, UUID_SIZE);
    assert b[..4] == ty && b[4..|b| - UUID_SIZE] == data && b[|b| - UUID_SIZE..] == id;
    BigEndianBack(TypeOf(k.value), 4);
    BigEndianBack(k.uuid, UUID_SIZE);
    match k.value
    case Bool(x) => BigEndianBack(if x then 1 else 0, 4);
    case String(s) => TextBytesBack(s);
    case Null =>
    case Number(n) =>
  }

  function DataOf(b: Bytes): Bytes
    requires |b| >= 4 + UUID_SIZE
  {
    b[4..|b| - UUID_SIZE]
  }

  function Units(b: Bytes): Text {
    FromTextBytes(b[..|b| - |b| % 2])
  }

  /** indexCompareFunction: the empty key first, then by type, by the value bytes as the type has them, and by uuid. */
  function IndexCompare(a: Bytes, b: Bytes, d: Doubles): int
    requires (a == [] || |a| >= 4 + UUID_SIZE) && (b == [] || |b| >= 4 + UUID_SIZE)
  {
    if a == [] && b == [] then 0
    else if b == [] then 1
    else if a == [] then -1
    else
      var avt, bvt := FromBigEndian(a[..4]), FromBigEndian(b[..4]);
      if avt != bvt then avt - bvt
      else
        var rv := if avt == 1 then FromBigEndian(DataOf(a)) - FromBigEndian(DataOf(b))
                  else if avt == 2 then CompareReal(d.number(DataOf(a)), d.number(DataOf(b)))
                  else if avt == 3 then CompareText(Units(DataOf(a)), Units(DataOf(b)))
                  else 0;
        if rv != 0 then rv
        else if SplitUuid(a) == SplitUuid(b) then 0
        else if SplitUuid(a) < SplitUuid(b) then -1 else 1
  }

  /** What the compare function reads from a built key. */
  lemma BuiltKey(k: IndexKey, d: Doubles)
    requires Encodable(k.value, d) && k.uuid < UUID_LIMIT && Faithful(d)
    ensures var b := MakeForwardKey(k, d);
      && |b| >= 4 + UUID_SIZE && FromBigEndian(b[..4]) == TypeOf(k.value) && SplitUuid(b) == k.uuid
      && (k.value.Bool? ==> FromBigEndian(DataOf(b)) == if k.value.b then 1 else 0)
      && (k.value.Number? ==> d.number(DataOf(b)) == k.value.n)
      && (k.value.String? ==> Units(DataOf(b)) == k.value.s)
  {
    hide BigEndian, FromBigEndian, Power256, TextBytes, FromTextBytes;
    Powers();
    var b := MakeForwardKey(k, d);
    var ty, data, id := BigEndian(TypeOf(k.value), 4), ValueBytes(k.value, d), BigEndian(k.uuid, UUID_SIZE);
    assert b[..4] == ty && DataOf(b) == data && b[|b| - UUID_SIZE..] == id;
    BigEndianBack(TypeOf(k.value), 4);
    BigEndianBack(k.uuid, UUID_SIZE);
    match k.value
    case Bool(x) => BigEndianBack(if x then 1 else 0, 4);
    case String(s) =>
      TextBytesBack(s);
      assert data[..|data| - |data| % 2] == data;
    case Null =>
    case Number(n) =>
  }

  predicate SameSign(a: int, b: int) {
    (a < 0 <==> b < 0) && (a == 0 <==> b == 0)
  }

  /** On built keys the compare function is the lexicographic order of type, value and uuid: total, with the empty key
      least. */
  lemma IndexCompareIsOrder(x: IndexKey, y: IndexKey, d: Doubles)
    requires Encodable(x.value, d) && x.uuid < UUID_LIMIT && Encodable(y.value, d) && y.uuid < UUID_LIMIT && Faithful(d)
    ensures var a, b := MakeForwardKey(x, d), MakeForwardKey(y, d);
      && |a| >= 4 + UUID_SIZE && |b| >= 4 + UUID_SIZE && SameSign(IndexCompare(a, b, d), CompareKeys(x, y))
      && IndexCompare([], a, d) < 0 < IndexCompare(a, [], d) && IndexCompare([], [], d) == 0
      && (IndexCompare(a, b, d) == 0 <==> a == b) && (IndexCompare(a, b, d) == 0 <==> x == y)
      && (IndexCompare(a, b, d) < 0 <==> IndexCompare(b, a, d) > 0)
  {
    hide SplitUuid, MakeForwardKey, FromBigEndian, DataOf, Units, CompareText;
    BuiltKey(x, d);
    BuiltKey(y, d);
    CompareKeysIsOrder(x, y);
  }
}

// The compare function of an index has places: byte strings can be put into [0, 1) so that the keys an index builds stand in
// its order.
module IndexPlaces {
  import opened HBtreeRecords
  import opened ForwardKeys
  import opened IndexQueries

  // ---- comparing byte strings in parts -----------------------------------------------------------------------

  /** After first parts of one length the second parts count only if the first are equal. */
  lemma {:induction false} CompareParts(a: Bytes, b: Bytes, u: Bytes, w: Bytes)
    requires |a| == |b|
    ensures CompareBytes(a + u, b + w) == if a == b then CompareBytes(u, w) else CompareBytes(a, b)
    ensures a != b ==> CompareBytes(a, b) != 0
  {
    if a == [] {
      assert a + u == u && b + w == w;
    } else {
      assert (a + u)[1..] == a[1..] + u && (b + w)[1..] == b[1..] + w;
      assert a == [a[0]] + a[1..] && b == [b[0]] + b[1..];
      CompareParts(a[1..], b[1..], u, w);
    }
  }

  lemma CompareOne(x: byte, y: byte)
    ensures CompareBytes([x], [y]) == x as int - y as int
  {
  }

  /** Big-endian numbers of one size compare as the numbers do. */
  lemma {:induction false} CompareBig(m: nat, n: nat, size: nat)
    requires m < Power256(size) && n < Power256(size)
    ensures CompareBytes(BigEndian(m, size), BigEndian(n, size)) < 0 <==> m < n
    ensures CompareBytes(BigEndian(m, size), BigEndian(n, size)) == 0 <==> m == n
  {
    hide CompareBytes;
    if size > 0 {
      var i, j := m / 256, n / 256;
      var p, q := BigEndian(i, size - 1), BigEndian(j, size - 1);
      var x, y := [(m % 256) as byte], [(n % 256) as byte];
      CompareBig(i, j, size - 1);
      CompareIsRankOrder(p, q);
      CompareParts(p, q, x, y);
      CompareOne(x[0], y[0]);
    } else {
      CompareIsRankOrder([], []);
    }
  }

  // ---- texts -------------------------------------------------------------------------------------------------

  /** Every unit of a text after a 1, the high byte first, and a 0 at the end. */
  function SortText(s: Text): Bytes {
    if s == [] then [0] else UnitBytes(s[0]) + SortText(s[1..])
  }

  function UnitBytes(c: char16): (r: Bytes)
    ensures |r| == 3 && r[0] == 1
  {
    [1] + BigEndian(c as int, 2)
  }

  lemma {:induction false} CompareSortText(a: Text, b: Text, u: Bytes, w: Bytes)
    ensures a != b ==> (CompareBytes(SortText(a) + u, SortText(b) + w) < 0 <==> CompareText(a, b) < 0)
    ensures a != b ==> CompareBytes(SortText(a) + u, SortText(b) + w) != 0
    ensures a == b ==> CompareBytes(SortText(a) + u, SortText(b) + w) == CompareBytes(u, w)
    decreases |a|
  {
    hide BigEndian, Power256, CompareBytes, UnitBytes;
    if a == b {
      CompareParts(SortText(a), SortText(b), u, w);
    } else if a == [] || b == [] {
      FirstByte(SortText(a) + u, SortText(b) + w);
    } else {
      var x, y := UnitBytes(a[0]), UnitBytes(b[0]);
      CompareUnits(a[0], b[0]);
      assert SortText(a) + u == x + (SortText(a[1..]) + u) && SortText(b) + w == y + (SortText(b[1..]) + w);
      CompareParts(x, y, SortText(a[1..]) + u, SortText(b[1..]) + w);
      if a[0] == b[0] {
        assert a == [a[0]] + a[1..] && b == [b[0]] + b[1..];
        CompareSortText(a[1..], b[1..], u, w);
      }
    }
  }

  lemma FirstByte(a: Bytes, b: Bytes)
    requires a != [] && b != [] && a[0] != b[0]
    ensures CompareBytes(a, b) == a[0] as int - b[0] as int
  {
  }

  lemma CompareUnits(a: char16, b: char16)
    ensures UnitBytes(a) == UnitBytes(b) <==> a == b
    ensures CompareBytes(UnitBytes(a), UnitBytes(b)) < 0 <==> a < b
    ensures CompareBytes(UnitBytes(a), UnitBytes(b)) == 0 <==> a == b
  {
    hide BigEndian, CompareBytes;
    assert Power256(2) == 0x1_0000;
    CompareBig(a as int, b as int, 2);
    CompareParts([1], [1], BigEndian(a as int, 2), BigEndian(b as int, 2));
    CompareIsRankOrder([1] + BigEndian(a as int, 2), [1] + BigEndian(b as int, 2));
  }

  // ---- numbers -----------------------------------------------------------------------------------------------

  const CODES := 0x1_0000_0000_0000_0000

  ghost function Range(n: nat): set<int> {
    if n == 0 then {} else Range(n - 1) + {n - 1}
  }

  lemma {:induction false} RangeHas(n: nat)
    ensures |Range(n)| == n && forall k :: k in Range(n) <==> 0 <= k < n
  {
    if n > 0 {
      RangeHas(n - 1);
    }
  }

  /** The codes of the numbers below r. */
  ghost function CodesBelow(r: real, d: Doubles): set<int> {
    set n | n in Range(CODES) && n >= 0 && d.has(d.number(BigEndian(n, 8))) && d.number(BigEndian(n, 8)) < r
  }

  lemma {:induction false} BigEndianOf(b: Bytes)
    ensures FromBigEndian(b) < Power256(|b|) && BigEndian(FromBigEndian(b), |b|) == b
  {
    if b != [] {
      BigEndianOf(b[..|b| - 1]);
      assert b == b[..|b| - 1] + [b[|b| - 1]];
    }
  }

  /** How many numbers there are below a number that a double can be, is in the order of the numbers. */
  lemma RankOfNumber(r: real, s: real, d: Doubles)
    requires Faithful(d) && d.has(r) && d.has(s)
    ensures |CodesBelow(r, d)| < |CodesBelow(s, d)| <==> r < s
    ensures |CodesBelow(r, d)| < Power256(9)
  {
    hide BigEndian, FromBigEndian, Range, Power256;
    FewCodes(r, d);
    if r < s {
      MoreCodes(r, s, d);
    } else if s < r {
      MoreCodes(s, r, d);
    }
  }

  lemma FewCodes(r: real, d: Doubles)
    ensures |CodesBelow(r, d)| < Power256(9)
  {
    hide BigEndian, Range;
    RangeHas(CODES);
    Subset(CodesBelow(r, d), Range(CODES));
    EightBytes();
  }

  lemma EightBytes()
    ensures Power256(8) == CODES < Power256(9)
  {
    assert Power256(2) == 0x1_0000 && Power256(4) == 0x1_0000_0000 && Power256(6) == 0x1_0000_0000_0000;
  }

  lemma Subset(a: set<int>, b: set<int>)
    requires a <= b
    ensures |a| <= |b| && (a != b ==> |a| < |b|)
  {
    assert b == a + (b - a) && a * (b - a) == {};
    if b - a == {} {
      assert a == b;
    }
  }

  lemma MoreCodes(r: real, s: real, d: Doubles)
    requires Faithful(d) && d.has(r) && r < s
    ensures |CodesBelow(r, d)| < |CodesBelow(s, d)|
  {
    hide BigEndian, FromBigEndian, Range, Power256;
    var n := FromBigEndian(d.bytes(r));
    BigEndianOf(d.bytes(r));
    EightBytes();
    RangeHas(CODES);
    assert n in CodesBelow(s, d) && n !in CodesBelow(r, d);
    assert CodesBelow(r, d) <= CodesBelow(s, d);
    Subset(CodesBelow(r, d), CodesBelow(s, d));
  }

  // ---- keys --------------------------------------------------------------------------------------------------

  ghost function SortValue(v: Value, d: Doubles): Bytes {
    match v
    case Bool(b) => [if b then 1 else 0]
    case Number(n) => BigEndian(|CodesBelow(n, d)|, 9)
    case String(s) => SortText(s)
    case _ => []
  }

  /** A byte string for a key such that the default order of these is the order of the keys. */
  ghost function SortKey(k: IndexKey, d: Doubles): Bytes {
    [TypeOf(k.value) as byte] + SortValue(k.value, d) + BigEndian(k.uuid, UUID_SIZE)
  }

  lemma CompareSortValue(v: Value, w: Value, u: Bytes, x: Bytes, d: Doubles)
    requires Encodable(v, d) && Encodable(w, d) && Faithful(d) && TypeOf(v) == TypeOf(w)
    ensures var c := CompareBytes(SortValue(v, d) + u, SortValue(w, d) + x);
      if v == w then c == CompareBytes(u, x) else c != 0 && (c < 0 <==> CompareValues(v, w) < 0)
  {
    hide BigEndian, Power256, CompareBytes, CodesBelow, SortText;
    match v
    case Bool(b) =>
      CompareParts(SortValue(v, d), SortValue(w, d), u, x);
      FirstByteDiffers(b, w.b);
    case Number(n) =>
      RankOfNumber(n, w.n, d);
      RankOfNumber(w.n, n, d);
      CompareBig(|CodesBelow(n, d)|, |CodesBelow(w.n, d)|, 9);
      CompareIsRankOrder(SortValue(v, d), SortValue(w, d));
      CompareParts(SortValue(v, d), SortValue(w, d), u, x);
    case String(s) =>
      CompareSortText(s, w.s, u, x);
    case Null =>
      assert [] + u == u && [] + x == x;
  }

  lemma FirstByteDiffers(a: bool, b: bool)
    ensures a != b ==> CompareBytes([if a then 1 else 0], [if b then 1 else 0]) == (if a then 1 else 0) - if b then 1 else 0
  {
  }

  /** The order of the sort keys is the order of the keys. */
  lemma CompareSortKeys(x: IndexKey, y: IndexKey, d: Doubles)
    requires Storable(x, d) && Storable(y, d) && Faithful(d)
    ensures CompareBytes(SortKey(x, d), SortKey(y, d)) < 0 <==> CompareKeys(x, y) < 0
    ensures CompareBytes(SortKey(x, d), SortKey(y, d)) == 0 <==> x == y
  {
    hide BigEndian, Power256, CompareBytes, SortValue, CompareValues, Encodable;
    var a, b := [TypeOf(x.value) as byte], [TypeOf(y.value) as byte];
    var u, w := BigEndian(x.uuid, UUID_SIZE), BigEndian(y.uuid, UUID_SIZE);
    assert SortKey(x, d) == a + (SortValue(x.value, d) + u) && SortKey(y, d) == b + (SortValue(y.value, d) + w);
    CompareParts(a, b, SortValue(x.value, d) + u, SortValue(y.value, d) + w);
    Powers();
    CompareBig(x.uuid, y.uuid, UUID_SIZE);
    CompareValuesIsExact(x.value, y.value, d);
    if TypeOf(x.value) == TypeOf(y.value) {
      CompareSortValue(x.value, y.value, u, w, d);
    } else {
      FirstByte(a, b);
    }
  }

  lemma CompareValuesIsExact(v: Value, w: Value, d: Doubles)
    requires Encodable(v, d) && Encodable(w, d)
    ensures CompareValues(v, w) == 0 <==> v == w
    ensures TypeOf(v) != TypeOf(w) ==> CompareValues(v, w) == TypeOf(v) - TypeOf(w)
  {
    if v.String? && w.String? {
      CompareTextIsOrder(v.s, w.s);
    }
  }

  // ---- places ------------------------------------------------------------------------------------------------

  /** The key a byte string may have been built from. */
  function Parsed(b: Bytes, d: Doubles): IndexKey
    requires |b| >= 4 + UUID_SIZE
  {
    IndexKey(SplitValue(b, d), SplitUuid(b))
  }

  ghost predicate Built(b: Bytes, d: Doubles) {
    |b| >= 4 + UUID_SIZE && Storable(Parsed(b, d), d) && MakeForwardKey(Parsed(b, d), d) == b
  }

  /** Built keys in their order, all others apart from them. */
  ghost function Sorting(b: Bytes, d: Doubles): Bytes {
    if b == [] then [] else if Built(b, d) then [0] + SortKey(Parsed(b, d), d) else [1] + b
  }

  ghost function PlaceIn(d: Doubles): Bytes -> real {
    b => Rank(Sorting(b, d))
  }

  lemma MakeIsBuilt(k: IndexKey, d: Doubles)
    requires Storable(k, d) && Faithful(d)
    ensures var b := MakeForwardKey(k, d); b != [] && Built(b, d) && Parsed(b, d) == k
  {
    hide MakeForwardKey, SplitValue, SplitUuid;
    SplitInvertsMake(k, d);
  }

  lemma SortingIsInjective(a: Bytes, b: Bytes, d: Doubles)
    requires Faithful(d) && Sorting(a, d) == Sorting(b, d)
    ensures a == b
  {
    hide MakeForwardKey, SplitValue, SplitUuid, SortKey, Storable, Rank;
    if a != [] && b != [] {
      assert Sorting(a, d)[0] == Sorting(b, d)[0] && Sorting(a, d)[1..] == Sorting(b, d)[1..];
      if Built(a, d) && Built(b, d) {
        CompareSortKeys(Parsed(a, d), Parsed(b, d), d);
        CompareIsRankOrder(SortKey(Parsed(a, d), d), SortKey(Parsed(b, d), d));
      }
    }
  }

  /** For any codec of doubles there are places for the byte strings in which an index can be kept. */
  lemma PlacesExist(d: Doubles)
    requires Faithful(d)
    ensures PlacesKeys(PlaceIn(d), d) && PlaceIn(d)([]) == 0.0
  {
    hide MakeForwardKey, SortKey, Storable, Rank, CompareKeys, Built, Faithful;
    var place := PlaceIn(d);
    forall a, b | place(a) == place(b) ensures a == b {
      CompareIsRankOrder(Sorting(a, d), Sorting(b, d));
      SortingIsInjective(a, b, d);
    }
    forall x, y | Storable(x, d) && Storable(y, d) ensures PlaceOf(x, place, d) <= PlaceOf(y, place, d) <==> CompareKeys(x, y) <= 0 {
      PlacesCompare(x, y, d);
    }
    assert Rank([]) == 0.0;
  }

  lemma PlacesCompare(x: IndexKey, y: IndexKey, d: Doubles)
    requires Storable(x, d) && Storable(y, d) && Faithful(d)
    ensures PlaceOf(x, PlaceIn(d), d) <= PlaceOf(y, PlaceIn(d), d) <==> CompareKeys(x, y) <= 0
  {
    hide MakeForwardKey, SortKey, Rank, Built, Encodable, CompareValues, CompareBytes;
    MakeIsBuilt(x, d);
    MakeIsBuilt(y, d);
    var a, b := SortKey(x, d), SortKey(y, d);
    CompareIsRankOrder([0] + b, [0] + a);
    CompareParts([0], [0], b, a);
    CompareSortKeys(y, x, d);
    CompareKeysTurns(x, y, d);
  }

  lemma CompareKeysTurns(x: IndexKey, y: IndexKey, d: Doubles)
    requires Storable(x, d) && Storable(y, d)
    ensures CompareKeys(y, x) < 0 <==> CompareKeys(x, y) > 0
  {
    CompareKeysIsOrder(y, x);
  }
}

// Versions as strings: the update count in decimal, a dash and the hash.
module VersionStrings {
  import opened Versions

  const MAX_INT := 0x7FFF_FFFF

  function Digits(n: nat): (s: string)
    ensures s != "" && AllDigits(s)
  {
    var last := [('0' as int + n % 10) as char];
    if n < 10 then last else Digits(n / 10) + last
  }

  predicate AllDigits(s: string) {
    forall i :: 0 <= i < |s| ==> '0' <= s[i] <= '9'
  }

  function DigitsValue(s: string): nat
    requires AllDigits(s)
  {
    if s == "" then 0 else 10 * DigitsValue(s[..|s| - 1]) + (s[|s| - 1] as int - '0' as int)
  }

  /** toInt: 0 for what is no decimal number or does not fit an int. */
  function ToInt(s: string): int {
    if s != "" && AllDigits(s) && DigitsValue(s) <= MAX_INT then DigitsValue(s) else 0
  }

  lemma {:induction false} DigitsBack(n: nat)
    ensures DigitsValue(Digits(n)) == n
  {
    var s := Digits(n);
    if n >= 10 {
      DigitsBack(n / 10);
      assert s[..|s| - 1] == Digits(n / 10);
    } else {
      assert s[..0] == "";
    }
  }

  /** versionAsString. */
  function AsString(v: Version): string {
    Digits(v.count) + "-" + v.hash
  }

  function FirstDash(s: string, i: nat): (r: nat)
    requires i <= |s|
    ensures i <= r <= |s| && (r < |s| ==> s[r] == '-') && forall k :: i <= k < r ==> s[k] != '-'
    decreases |s| - i
  {
    if i == |s| || s[i] == '-' then i else FirstDash(s, i + 1)
  }

  /** tokenizeVersion: exactly one dash separates count and hash; any other string is a hash with count 1. */
  function Tokenize(s: string): Version {
    if s == "" then NO_VERSION
    else
      var d := FirstDash(s, 0);
      if d < |s| && FirstDash(s, d + 1) == |s| then
        var count := ToInt(s[..d]);
        Version(if count < 1 then 1 else count, s[d + 1..])
      else Version(1, s)
  }

  /** A version comes back from its string exactly when its hash has no dash. */
  lemma TokenizeInvertsAsString(v: Version)
    requires 1 <= v.count <= MAX_INT
    ensures Tokenize(AsString(v)) == v <==> '-' !in v.hash
  {
    var s, n := AsString(v), |Digits(v.count)|;
    assert s[n] == '-' && s[n + 1..] == v.hash && s[..n] == Digits(v.count);
    assert forall k :: 0 <= k < n ==> s[k] == Digits(v.count)[k] && s[k] != '-';
    assert FirstDash(s, 0) == n;
    DigitsBack(v.count);
    if '-' in v.hash {
      var k :| 0 <= k < |v.hash| && v.hash[k] == '-';
      assert s[n + 1 + k] == '-';
      assert FirstDash(s, n + 1) < |s|;
      assert |s| > |v.hash|;
    } else {
      forall k | n + 1 <= k < |s| ensures s[k] != '-' {
        assert s[k] == v.hash[k - n - 1];
      }
    }
  }

  lemma WrittenInDecimal()
    ensures AsString(Version(120, "ab")) == "120-ab" && AsString(Version(7, "")) == "7-"
  {
    assert Digits(1) == "1" && Digits(12) == "12" && Digits(120) == "120" && Digits(7) == "7";
  }

  /** The version of a string makes the string again exactly when it is that of a version with a hash without dashes. */
  lemma AsStringInvertsTokenize(s: string)
    ensures var v := Tokenize(s);
      && (s != "" ==> 1 <= v.count <= MAX_INT)
      && (AsString(v) == s <==> exists u: Version :: 1 <= u.count <= MAX_INT && '-' !in u.hash && s == AsString(u))
  {
    var v := Tokenize(s);
    if AsString(v) == s {
      assert s[|Digits(v.count)|] == '-' && |s| > |v.hash|;
      HashOfString(s);
      var i: nat :| OnlyDash(s, i);
      assert forall k :: 0 <= k < |v.hash| ==> v.hash[k] == s[i + 1 + k];
      assert 1 <= v.count <= MAX_INT && '-' !in v.hash && s == AsString(v);
    }
    if u: Version :| 1 <= u.count <= MAX_INT && '-' !in u.hash && s == AsString(u) {
      TokenizeInvertsAsString(u);
    }
  }

  ghost predicate OnlyDash(s: string, i: nat) {
    i < |s| && s[i] == '-' && forall k :: 0 <= k < |s| && k != i ==> s[k] != '-'
  }

  /** A string with exactly one dash has what follows it as the hash, and the number before it as the count if that is one from 1
      to the largest integer; any other string is its own hash. Where no count is given it is 1. */
  lemma HashOfString(s: string)
    ensures Tokenize("") == NO_VERSION
    ensures forall i: nat :: OnlyDash(s, i) ==>
      var v := Tokenize(s);
      && v.hash == s[i + 1..]
      && v.count == if s[..i] != "" && AllDigits(s[..i]) && 1 <= DigitsValue(s[..i]) <= MAX_INT then DigitsValue(s[..i]) else 1
    ensures s != "" && (forall i: nat :: !OnlyDash(s, i)) ==> Tokenize(s) == Version(1, s)
  {
    if s != "" {
      var d := FirstDash(s, 0);
      if d < |s| && FirstDash(s, d + 1) == |s| {
        assert OnlyDash(s, d);
      }
    }
  }

  /** The string of a version whose hash has a dash is read as a hash with count 1. */
  lemma DashedVersion()
    ensures Tokenize(AsString(Version(2, "a-b"))) == Version(1, "2-a-b")
  {
    var s := AsString(Version(2, "a-b"));
    assert Digits(2) == "2" && s == "2-a-b";
    assert s[1] == '-' && s[3] == '-';
    assert FirstDash(s, 0) == 1 && FirstDash(s, 2) == 3;
  }

  /** Strings made from different versions with dash-free hashes differ, so comparing strings compares versions. */
  lemma AsStringIsInjective(u: Version, v: Version)
    requires 1 <= u.count <= MAX_INT && 1 <= v.count <= MAX_INT && '-' !in u.hash && '-' !in v.hash
    ensures AsString(u) == AsString(v) <==> u == v
  {
    TokenizeInvertsAsString(u);
    TokenizeInvertsAsString(v);
  }
}

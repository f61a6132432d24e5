/** gg_str_to_int64 (src/buffer.c): decimal text to int64 with overflow checks before every step. */
module IntParse {
  import opened Common
  import opened JsonScan

  const INT64_MAX := 0x7FFF_FFFF_FFFF_FFFF
  const INT64_MIN := -0x8000_0000_0000_0000

  predicate FitsInt64(v: int) {
    INT64_MIN <= v <= INT64_MAX
  }

  /** Division as C does it: towards zero. */
  function TruncDiv(a: int, b: int): int
    requires b != 0
  {
    if a >= 0 then (if b > 0 then a / b else -(a / -b))
    else (if b > 0 then -(-a / b) else -a / -b)
  }

  predicate MultOverflow(a: int, b: int) {
    if b == 0 then false
    else if b > 0 then a > TruncDiv(INT64_MAX, b) || a < TruncDiv(INT64_MIN, b)
    else a < TruncDiv(INT64_MAX, b) || a > TruncDiv(INT64_MIN, b)
  }

  predicate AddOverflow(a: int, b: int) {
    if b > 0 then a > INT64_MAX - b else a < INT64_MIN - b
  }

  /** A quotient bounds exactly the factors whose product stays below. */
  lemma QuotientBound(a: int, b: int, m: int)
    requires b > 0 && m >= 0
    ensures a > m / b <==> a * b > m
    ensures a < -(m / b) <==> a * b < -m
  {
    var q, r := m / b, m % b;
    assert m == q * b + r;
    Larger(a - q, b);
    assert (a - q) * b == a * b - q * b;
    Larger(-a - q, b);
    assert (-a - q) * b == -(a * b) - q * b;
  }

  lemma Larger(d: int, b: int)
    requires b > 0
    ensures d >= 1 ==> d * b >= b
    ensures d <= 0 ==> d * b <= 0
  {
  }

  /** The checks say overflow exactly when the mathematical result does not fit. */
  lemma ChecksAreExact(a: int, b: int)
    requires FitsInt64(a) && FitsInt64(b)
    ensures MultOverflow(a, b) <==> !FitsInt64(a * b)
    ensures AddOverflow(a, b) <==> !FitsInt64(a + b)
  {
    if b > 0 {
      QuotientBound(a, b, INT64_MAX);
      QuotientBound(a, b, -INT64_MIN);
    } else if b < 0 {
      QuotientBound(-a, -b, INT64_MAX);
      QuotientBound(-a, -b, -INT64_MIN);
      assert -a * -b == a * b;
    }
  }

  predicate AllDigits(s: bytes) {
    forall i :: 0 <= i < |s| ==> IsDigit(s[i])
  }

  function DigitVal(b: byte): nat
    requires IsDigit(b)
  {
    b - 0x30
  }

  /** The number written by a sequence of decimal digits. */
  function Decimal(s: bytes): nat
    requires AllDigits(s)
  {
    if s == [] then 0 else Decimal(s[..|s| - 1]) * 10 + DigitVal(s[|s| - 1])
  }

  predicate IsNegative(s: bytes) {
    s != [] && s[0] == 0x2D
  }

  function Magnitude(s: bytes): bytes {
    if IsNegative(s) then s[1..] else s
  }

  /** An optional minus and one or more digits. */
  predicate IsIntText(s: bytes) {
    Magnitude(s) != [] && AllDigits(Magnitude(s))
  }

  function Signed(negative: bool, n: nat): int {
    if negative then 0 - n else n
  }

  function IntValue(s: bytes): int
    requires IsIntText(s)
  {
    Signed(IsNegative(s), Decimal(Magnitude(s)))
  }

  /** Reading more digits never brings a number back into range. */
  lemma {:induction false} PrefixBound(s: bytes, i: nat)
    requires AllDigits(s) && i <= |s|
    ensures AllDigits(s[..i]) && Decimal(s[..i]) <= Decimal(s)
  {
    if i == |s| {
      assert s[..i] == s;
    } else {
      PrefixBound(s[..|s| - 1], i);
      assert s[..|s| - 1][..i] == s[..i];
    }
  }

  function ParseInt(s: bytes): (r: Option<int>)
    ensures r.Some? ==> FitsInt64(r.value)
  {
    if IsIntText(s) && FitsInt64(IntValue(s)) then Some(IntValue(s)) else None
  }

  /** Appending a digit keeps the value in range exactly when neither check reports overflow. */
  lemma AppendDigit(negative: bool, n: nat, d: nat)
    requires FitsInt64(Signed(negative, n)) && d <= 9
    ensures var v, e := Signed(negative, n), Signed(negative, d);
            FitsInt64(Signed(negative, n * 10 + d)) <==> !MultOverflow(v, 10) && !AddOverflow(v * 10, e)
    ensures Signed(negative, n * 10 + d) == Signed(negative, n) * 10 + Signed(negative, d)
  {
    ChecksAreExact(Signed(negative, n), 10);
    if FitsInt64(Signed(negative, n) * 10) {
      ChecksAreExact(Signed(negative, n) * 10, Signed(negative, d));
    }
  }

  lemma {:induction false} DecimalSnoc(m: bytes, k: nat)
    requires k < |m| && AllDigits(m[..k]) && IsDigit(m[k])
    ensures AllDigits(m[..k + 1]) && Decimal(m[..k + 1]) == Decimal(m[..k]) * 10 + DigitVal(m[k])
  {
    assert m[..k + 1][..k] == m[..k] && m[..k + 1][k] == m[k];
  }

  method StrToInt64(s: bytes) returns (ret: Error, value: int)
    ensures ret == Ok <==> IsIntText(s) && FitsInt64(IntValue(s))
    ensures ret == Ok ==> value == IntValue(s)
    ensures IsIntText(s) && ret != Ok ==> ret == Range
    ensures ret != Ok ==> ret == Invalid || ret == Range
  {
    hide Decimal, FitsInt64, MultOverflow, AddOverflow;
    value := 0;
    var negative := |s| >= 1 && s[0] == 0x2D;
    var i := if negative then 1 else 0;
    if i == |s| {
      return Invalid, 0;
    }
    ghost var m, from := Magnitude(s), i;
    assert m == s[from..];
    ZeroFits(negative);
    while i < |s|
      invariant from <= i <= |s| && AllDigits(m[..i - from])
      invariant value == Signed(negative, Decimal(m[..i - from])) && FitsInt64(value)
    {
      var c := s[i];
      assert m[i - from] == c;
      if c < 0x30 || c > 0x39 {
        return Invalid, 0;
      }
      ghost var k := i - from;
      DecimalSnoc(m, k);
      var d := Signed(negative, c - 0x30);
      AppendDigit(negative, Decimal(m[..k]), c - 0x30);
      if MultOverflow(value, 10) {
        Overflowed(m, k + 1, negative);
        return Range, 0;
      }
      if AddOverflow(value * 10, d) {
        Overflowed(m, k + 1, negative);
        return Range, 0;
      }
      value := value * 10 + d;
      i := i + 1;
    }
    assert m[..|m|] == m;
    ret := Ok;
  }

  lemma ZeroFits(negative: bool)
    ensures Decimal([]) == 0 && Signed(negative, 0) == 0 && FitsInt64(0)
  {
  }

  /** Once a prefix is out of range the whole text is. */
  lemma Overflowed(m: bytes, k: nat, negative: bool)
    requires k <= |m| && AllDigits(m[..k]) && !FitsInt64(Signed(negative, Decimal(m[..k])))
    ensures AllDigits(m) ==> !FitsInt64(Signed(negative, Decimal(m)))
  {
    if AllDigits(m) {
      PrefixBound(m, k);
    }
  }
}

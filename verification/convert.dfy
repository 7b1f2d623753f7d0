/**
 * Lenient integer parsing and decimal formatting (util_convert.go), on a
 * 64-bit platform: Go's `int` and `int64` coincide, so `ForceAtoi64` is
 * `ForceAtoi` and `I64toa` is `Itoa`.
 */
module Convert {
  import opened Wrappers

  const MinInt64: int := -0x8000_0000_0000_0000
  const MaxInt64: int := 0x7fff_ffff_ffff_ffff
  const MaxUint64: int := 0xffff_ffff_ffff_ffff

  predicate IsInt64(i: int)
  {
    MinInt64 <= i <= MaxInt64
  }

  predicate IsDigit(c: char)
  {
    '0' <= c <= '9'
  }

  predicate AllDigits(s: string)
  {
    forall i :: 0 <= i < |s| ==> IsDigit(s[i])
  }

  function DigitValue(c: char): nat
    requires IsDigit(c)
  {
    (c as int) - ('0' as int)
  }

  function DigitChar(d: nat): (c: char)
    requires d < 10
    ensures IsDigit(c) && DigitValue(c) == d
  {
    (('0' as int) + d) as char
  }

  /** The number a string of decimal digits denotes, most significant digit first. */
  function DigitsValue(s: string): nat
    requires AllDigits(s)
    decreases |s|
  {
    if |s| == 0 then 0 else DigitsValue(s[..|s| - 1]) * 10 + DigitValue(s[|s| - 1])
  }

  /** `strconv.ParseUint(s, 10, 64)`: one or more ASCII digits, no sign, no underscore, at most 2^64-1. */
  function ParseUint(s: string): Option<nat>
  {
    if |s| > 0 && AllDigits(s) && DigitsValue(s) <= MaxUint64 then Some(DigitsValue(s)) else None
  }

  /** `strconv.ParseInt(s, 10, 64)`: an optional `+` or `-`, then what `ParseUint` accepts, within int64. */
  function ParseInt(s: string): Option<int>
  {
    var negative := |s| > 0 && s[0] == '-';
    var digits := if |s| > 0 && (s[0] == '+' || s[0] == '-') then s[1..] else s;
    match ParseUint(digits)
    case None => None
    case Some(u) =>
      var v: int := if negative then 0 - (u as int) else u;
      if IsInt64(v) then Some(v) else None
  }

  /** `ForceAtoi` / `ForceAtoi64`: the parsed value, or 0 whenever `ParseInt` reports an error. */
  function ForceAtoi(s: string): (r: int)
    ensures IsInt64(r)
    ensures |s| == 0 ==> r == 0
    ensures (exists i :: 1 <= i < |s| && !IsDigit(s[i])) ==> r == 0
    ensures |s| > 0 && !IsDigit(s[0]) && s[0] != '+' && s[0] != '-' ==> r == 0
  {
    ParseInt(s).GetOr(0)
  }

  /** `ForceAtoui`: the parsed value, or 0 for empty input, a sign, a non-digit or overflow. */
  function ForceAtoui(s: string): (r: nat)
    ensures r <= MaxUint64
    ensures (exists i :: 0 <= i < |s| && !IsDigit(s[i])) ==> r == 0
    ensures AllDigits(s) && DigitsValue(s) <= MaxUint64 ==> r == DigitsValue(s)
    ensures AllDigits(s) && DigitsValue(s) > MaxUint64 ==> r == 0
  {
    ParseUint(s).GetOr(0)
  }

  /** Decimal digits of `n`, without leading zeros. */
  function NatDigits(n: nat): (r: string)
    ensures |r| > 0 && AllDigits(r)
    ensures DigitsValue(r) == n
    ensures r[0] == '0' ==> n == 0
    decreases n
  {
    if n < 10 then [DigitChar(n)]
    else
      var r := NatDigits(n / 10) + [DigitChar(n % 10)];
      assert r[..|r| - 1] == NatDigits(n / 10);
      r
  }

  /** `Itoa` / `I64toa`: `strconv.Itoa`, a `-` for negatives followed by the digits of the magnitude. */
  function Itoa(i: int): (r: string)
    ensures |r| > 0
    ensures r[0] == '-' <==> i < 0
    ensures i < 0 ==> |r| > 1 && AllDigits(r[1..]) && DigitsValue(r[1..]) == -i
    ensures i >= 0 ==> AllDigits(r) && DigitsValue(r) == i
    ensures i >= 0 && r[0] == '0' ==> r == "0"
    ensures i < 0 ==> r[1] != '0'
  {
    if i < 0 then
      var r := "-" + NatDigits(-i);
      assert r[1..] == NatDigits(-i);
      r
    else NatDigits(i)
  }

  /** Formatting then leniently parsing an int64 gives it back. */
  lemma {:induction false} ForceAtoiItoa(i: int)
    requires IsInt64(i)
    ensures ForceAtoi(Itoa(i)) == i
  {
    var s := Itoa(i);
    if i < 0 {
      assert s[0] == '-';
      assert ParseUint(s[1..]) == Some(-i);
    } else {
      assert IsDigit(s[0]);
      assert ParseUint(s) == Some(i);
    }
  }

  /** The smallest int64 survives the round trip although its magnitude does not fit int64. */
  lemma {:induction false} ForceAtoiItoaMin()
    ensures ForceAtoi(Itoa(MinInt64)) == MinInt64
  {
    ForceAtoiItoa(MinInt64);
  }

  /** One past the largest int64 is an overflow, which `ForceAtoi` turns into 0. */
  lemma {:induction false} ForceAtoiOverflow()
    ensures ForceAtoi(Itoa(MaxInt64 + 1)) == 0
  {
    var s := Itoa(MaxInt64 + 1);
    assert IsDigit(s[0]);
    assert ParseUint(s) == Some(MaxInt64 + 1);
  }
}

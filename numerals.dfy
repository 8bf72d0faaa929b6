/**
 * Decimal integers as the persistence code writes them (`operator<<` on an
 * `int`) and reads them back (`std::stoi`).  The source's `int` is 32 bits:
 * `stoi` throws `std::out_of_range` outside that range and
 * `std::invalid_argument` when there is no digit to read; both appear here
 * as `None`.
 */
module Numerals {
  import opened Wrappers

  const INT_MIN: int := -0x8000_0000
  const INT_MAX: int := 0x7FFF_FFFF

  predicate IsInt32(n: int)
  {
    INT_MIN <= n <= INT_MAX
  }

  predicate IsDigit(c: char)
  {
    '0' <= c <= '9'
  }

  predicate AllDigits(s: string)
  {
    forall i :: 0 <= i < |s| ==> IsDigit(s[i])
  }

  /** The characters `isspace` accepts in the "C" locale. */
  predicate IsSpace(c: char)
  {
    c == ' ' || '\t' <= c <= '\r'
  }

  function DigitChar(k: nat): (c: char)
    requires k < 10
    ensures IsDigit(c)
  {
    ('0' as int + k) as char
  }

  function DigitValue(c: char): (k: nat)
    requires IsDigit(c)
    ensures k < 10 && DigitChar(k) == c
  {
    c as int - '0' as int
  }

  /** The decimal digits of `n`, most significant first, without leading zeros. */
  function NatToDigits(n: nat): (s: string)
    ensures |s| >= 1 && AllDigits(s)
    ensures |s| > 1 ==> s[0] != '0'
  {
    if n < 10 then [DigitChar(n)]
    else NatToDigits(n / 10) + [DigitChar(n % 10)]
  }

  /** The value of a run of decimal digits. */
  function DigitsValue(s: string): nat
    requires AllDigits(s)
  {
    if s == [] then 0
    else DigitsValue(s[..|s| - 1]) * 10 + DigitValue(s[|s| - 1])
  }

  /** How `operator<<` prints an `int`: a minus sign, then the digits. */
  function IntToString(n: int): (s: string)
    ensures |s| >= 1
    ensures IsDigit(s[0]) || s[0] == '-'
    ensures forall i :: 0 < i < |s| ==> IsDigit(s[i])
  {
    if n < 0 then "-" + NatToDigits(-n) else NatToDigits(n)
  }

  /** `s` with its leading white space removed. */
  function SkipSpaces(s: string): (r: string)
    ensures |r| <= |s| && r == s[|s| - |r|..]
    ensures r != [] ==> !IsSpace(r[0])
  {
    if s != [] && IsSpace(s[0]) then SkipSpaces(s[1..]) else s
  }

  /** Length of the run of digits at the start of `s`. */
  function DigitRun(s: string): (k: nat)
    ensures k <= |s| && AllDigits(s[..k])
    ensures k < |s| ==> !IsDigit(s[k])
  {
    if s != [] && IsDigit(s[0]) then
      var k := 1 + DigitRun(s[1..]);
      assert s[..k] == [s[0]] + s[1..][..k - 1];
      k
    else 0
  }

  /**
   * `std::stoi(s)` in base 10: leading white space, an optional sign, then
   * the longest run of digits; what follows the run is ignored.
   */
  function Stoi(s: string): (r: Option<int>)
    ensures r.Some? ==> IsInt32(r.value)
  {
    var u := Unsigned(SkipSpaces(s));
    var k := DigitRun(u);
    if k == 0 then None
    else
      var v := StoiValue(s);
      if IsInt32(v) then Some(v) else None
  }

  /** What follows an optional leading sign. */
  function Unsigned(t: string): (u: string)
    ensures |u| <= |t|
  {
    if |t| > 0 && (t[0] == '-' || t[0] == '+') then t[1..] else t
  }

  /** The signed value of the digit run `Stoi` reads, before its range check. */
  function StoiValue(s: string): int
  {
    var t := SkipSpaces(s);
    var u := Unsigned(t);
    var v: int := DigitsValue(u[..DigitRun(u)]);
    if |t| > 0 && t[0] == '-' then -v else v
  }

  lemma {:induction false} DigitsValueOfNat(n: nat)
    ensures DigitsValue(NatToDigits(n)) == n
  {
    var s := NatToDigits(n);
    if n >= 10 {
      DigitsValueOfNat(n / 10);
      assert s[..|s| - 1] == NatToDigits(n / 10);
    }
  }

  /** The digits of a natural number are read back whole. */
  lemma DigitRunOfAllDigits(s: string)
    requires AllDigits(s)
    ensures DigitRun(s) == |s|
  {
  }

  /** `stoi` reads back every `int` that `operator<<` printed. */
  lemma StoiOfIntToString(n: int)
    requires IsInt32(n)
    ensures Stoi(IntToString(n)) == Some(n)
  {
    var s := IntToString(n);
    assert SkipSpaces(s) == s;
    var m := if n < 0 then -n else n;
    var ds := NatToDigits(m);
    assert Unsigned(s) == ds;
    DigitRunOfAllDigits(ds);
    assert ds[..|ds|] == ds;
    DigitsValueOfNat(m);
  }

  /** Different integers print differently. */
  lemma IntToStringInjective(a: int, b: int)
    requires IsInt32(a) && IsInt32(b)
    requires IntToString(a) == IntToString(b)
    ensures a == b
  {
    StoiOfIntToString(a);
    StoiOfIntToString(b);
  }
}

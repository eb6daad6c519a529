/** Decimal digit text and the natural numbers it denotes: the building block
    of the date formats (%Y, %m, %d), of the numeric values and of the series
    id written into the endpoint. Only ASCII digits are modelled. */
module Digits {

  predicate IsDigit(c: char) {
    '0' <= c <= '9'
  }

  predicate AllDigits(s: string) {
    forall i :: 0 <= i < |s| ==> IsDigit(s[i])
  }

  function DigitValue(c: char): (n: nat)
    requires IsDigit(c)
    ensures n < 10
  {
    c as int - '0' as int
  }

  function DigitChar(n: nat): (c: char)
    requires n < 10
    ensures IsDigit(c) && DigitValue(c) == n
  {
    ('0' as int + n) as char
  }

  /** The value of a digit string, most significant digit first; "" is 0. */
  function DigitsToNat(s: string): nat
    requires AllDigits(s)
    decreases |s|
  {
    if s == [] then 0 else DigitsToNat(s[..|s| - 1]) * 10 + DigitValue(s[|s| - 1])
  }

  /** Python's str() of a non-negative int: no leading zero except for 0 itself. */
  function NatToString(n: nat): (s: string)
    ensures |s| > 0 && AllDigits(s)
    ensures DigitsToNat(s) == n
    ensures s[0] == '0' ==> s == "0"
    decreases n
  {
    if n < 10 then [DigitChar(n)]
    else
      var prefix := NatToString(n / 10);
      assert (prefix + [DigitChar(n % 10)])[..|prefix|] == prefix;
      prefix + [DigitChar(n % 10)]
  }

  /** Python's str() of an int, with a '-' sign for negative values. */
  function IntToString(i: int): (s: string)
    ensures |s| > 0
    ensures i >= 0 ==> AllDigits(s) && DigitsToNat(s) == i
    ensures i < 0 ==> s[0] == '-' && AllDigits(s[1..]) && DigitsToNat(s[1..]) == -i
  {
    if i < 0 then "-" + NatToString(-i) else NatToString(i)
  }

  /** A two-digit zero-padded field, as strftime writes %d and %m. */
  function Pad2(n: nat): (s: string)
    requires n < 100
    ensures |s| == 2 && AllDigits(s) && DigitsToNat(s) == n
  {
    var s := [DigitChar(n / 10), DigitChar(n % 10)];
    assert s[..1] == [DigitChar(n / 10)] && s[..1][..0] == [];
    assert DigitsToNat(s[..1]) == n / 10;
    s
  }

  /** A four-digit zero-padded field, as strftime writes %Y. */
  function Pad4(n: nat): (s: string)
    requires n < 10000
    ensures |s| == 4 && AllDigits(s) && DigitsToNat(s) == n
  {
    var hi := Pad2(n / 100);
    var lo := Pad2(n % 100);
    DigitsAppend2(hi, lo);
    hi + lo
  }

  /** Appending two digits multiplies the prefix's value by a hundred. */
  lemma {:induction false} DigitsAppend2(hi: string, lo: string)
    requires AllDigits(hi) && AllDigits(lo) && |lo| == 2
    ensures AllDigits(hi + lo)
    ensures DigitsToNat(hi + lo) == DigitsToNat(hi) * 100 + DigitsToNat(lo)
  {
    var s := hi + lo;
    var s1 := hi + lo[..1];
    assert s[..|s| - 1] == s1;
    assert s1[..|s1| - 1] == hi;
    assert lo[..1][..0] == [] && lo[..|lo| - 1] == lo[..1];
    assert DigitsToNat(lo[..1]) == DigitValue(lo[0]);
    assert DigitsToNat(lo) == DigitValue(lo[0]) * 10 + DigitValue(lo[1]);
    assert DigitsToNat(s1) == DigitsToNat(hi) * 10 + DigitValue(lo[0]);
  }
}

/**
 The decimal decoder for Content-Length, on 32-bit integers.
 */
module Decimal {

  newtype int32 = x: int | -0x8000_0000 <= x < 0x8000_0000

  predicate IsDigit(c: char) {
    '0' <= c <= '9'
  }

  predicate AllDigits(s: string) {
    forall k :: 0 <= k < |s| ==> IsDigit(s[k])
  }

  function Pow10(k: nat): (p: nat)
    ensures p > 0
  {
    if k == 0 then 1 else 10 * Pow10(k - 1)
  }

  /** The number a digit string stands for, read from left to right. */
  function DecimalValue(s: string): (v: nat)
    requires AllDigits(s)
  {
    if s == [] then 0 else 10 * DecimalValue(s[..|s| - 1]) + (s[|s| - 1] as int - 48)
  }

  /** The digits of n, without leading zeros. */
  function Print(n: nat): (s: string)
    ensures AllDigits(s) && s != []
  {
    var digit := (48 + n % 10) as char;
    if n < 10 then [digit] else Print(n / 10) + [digit]
  }

  /** Reading what was printed gives the number back. */
  lemma {:induction false} ReadPrinted(n: nat)
    ensures DecimalValue(Print(n)) == n
  {
    var s := Print(n);
    assert s[|s| - 1] as int - 48 == n % 10;
    if n >= 10 {
      ReadPrinted(n / 10);
      assert s[..|s| - 1] == Print(n / 10);
    } else {
      assert s[..|s| - 1] == [];
    }
  }

  /** Printing what was read gives the string back exactly when it has no superfluous
      leading zero. */
  lemma {:induction false} PrintRead(s: string)
    requires AllDigits(s) && s != []
    ensures Print(DecimalValue(s)) == s <==> |s| == 1 || s[0] != '0'
    ensures s[0] != '0' ==> DecimalValue(s) > 0
  {
    var n := |s| - 1;
    var d := s[n] as int - 48;
    var front := s[..n];
    assert s == front + [s[n]];
    var v := DecimalValue(front);
    assert DecimalValue(s) == 10 * v + d && (10 * v + d) % 10 == d && (10 * v + d) / 10 == v;
    if n > 0 {
      PrintRead(front);
      assert front[0] == s[0];
      if v == 0 {
        assert |Print(DecimalValue(s))| == 1;
      } else {
        assert Print(DecimalValue(s)) == Print(v) + [s[n]];
        if Print(DecimalValue(s)) == s {
          assert (Print(v) + [s[n]])[..n] == Print(v);
        }
        if n == 1 { assert Print(v) == front; }
      }
    } else {
      assert front == [];
    }
  }

  /** Cutting a digit string in two: the left part counts for as many powers of ten as
      the right part has digits, and the right part for less than one more. */
  lemma {:induction false} ValueOfSplit(s: string, i: nat)
    requires AllDigits(s) && i <= |s|
    ensures DecimalValue(s[..i]) * Pow10(|s| - i) <= DecimalValue(s) < (DecimalValue(s[..i]) + 1) * Pow10(|s| - i)
  {
    var n := |s| - 1;
    if i == |s| {
      assert s[..i] == s;
    } else {
      ValueOfSplit(s[..n], i);
      assert s[..n][..i] == s[..i];
      var v, p := DecimalValue(s[..i]), Pow10(n - i);
      TimesTen(v, p);
      TimesTen(v + 1, p);
    }
  }

  lemma TimesTen(v: int, p: int)
    ensures v * (10 * p) == 10 * (v * p)
  {
  }

  /** What str2int adds up: every character counts as its code less that of '0', digit or
      not. */
  function Weighted(s: string): int {
    if s == [] then 0 else 10 * Weighted(s[..|s| - 1]) + (s[|s| - 1] as int - 48)
  }

  predicate IsInt32(x: int) {
    -0x8000_0000 <= x < 0x8000_0000
  }

  /** The terms and the sums of str2int all fit in an int, and so do its powers. */
  predicate Fits(s: string) {
    |s| <= 10 && forall i :: 0 <= i < |s| ==> FitsAt(s, i)
  }

  predicate FitsAt(s: string, i: nat)
    requires i < |s|
  {
    && IsInt32(Pow10(|s| - i - 1) * (s[i] as int - 48))
    && IsInt32(Weighted(s[..i + 1]) * Pow10(|s| - i - 1))
  }

  /** On digits it is the decimal value, and it fits exactly when that value does. */
  lemma DigitsFitIff(s: string)
    requires AllDigits(s) && |s| <= 10
    ensures Weighted(s) == DecimalValue(s)
    ensures Fits(s) <==> DecimalValue(s) < 0x8000_0000
  {
    hide Weighted, DecimalValue, Pow10;
    DigitsWeigh(s);
    if DecimalValue(s) < 0x8000_0000 {
      forall i | 0 <= i < |s| ensures FitsAt(s, i) { DigitFits(s, i); }
    }
    AllWeight(s);
    if s == [] {
      NoWeight(s);
    } else if Fits(s) {
      assert FitsAt(s, |s| - 1);
    }
  }

  lemma DigitFits(s: string, i: nat)
    requires AllDigits(s) && i < |s| && DecimalValue(s) < 0x8000_0000
    ensures FitsAt(s, i)
  {
    hide Weighted, DecimalValue, Pow10;
    DigitsWeigh(s[..i + 1]);
    DigitStep(s, i);
  }

  lemma {:induction false} DigitsWeigh(s: string)
    requires AllDigits(s)
    ensures Weighted(s) == DecimalValue(s)
  {
    if s != [] { DigitsWeigh(s[..|s| - 1]); }
  }

  /** str2int: descending powers of ten add up to the value, and no step of the sum,
      product or power leaves the 32-bit range. The source has no check for what does not
      fit: then its arithmetic overflows. */
  method Str2Int(value: string, fieldLength: nat) returns (res: int32)
    requires fieldLength <= |value| && Fits(value[..fieldLength])
    ensures res as int == Weighted(value[..fieldLength])
  {
    hide Weighted, Pow10;
    ghost var s := value[..fieldLength];
    res := 0;
    var exp: int := fieldLength - 1;
    var i := 0;
    NoWeight(s);
    while i < fieldLength
      invariant 0 <= i <= fieldLength && exp == fieldLength - 1 - i
      invariant res as int == Weighted(s[..i]) * Pow10(fieldLength - i)
    {
      assert FitsAt(s, i);
      WeightedStep(s, i);
      var power := PowerOfTen(exp);
      exp := exp - 1;
      res := res + power * (value[i] as int - 48) as int32;
      i := i + 1;
    }
    AllWeight(s);
  }

  lemma NoWeight(s: string)
    ensures Weighted(s[..0]) * Pow10(|s|) == 0
    ensures s == [] ==> Weighted(s) == 0
  {
  }

  lemma AllWeight(s: string)
    ensures Weighted(s[..|s|]) * Pow10(0) == Weighted(s)
  {
    assert s[..|s|] == s;
  }

  lemma WeightedStep(s: string, i: nat)
    requires i < |s|
    ensures Weighted(s[..i + 1]) * Pow10(|s| - i - 1)
         == Weighted(s[..i]) * Pow10(|s| - i) + Pow10(|s| - i - 1) * (s[i] as int - 48)
  {
    assert s[..i + 1][..i] == s[..i];
    var v, d, p := Weighted(s[..i]), s[i] as int - 48, Pow10(|s| - i - 1);
    assert Weighted(s[..i + 1]) == 10 * v + d && Pow10(|s| - i) == 10 * p;
    hide Weighted, Pow10;
    Expand(v, d, p);
  }

  /** The integer power that pow(10, k) stands for. */
  method PowerOfTen(k: nat) returns (p: int32)
    requires k <= 9
    ensures p as int == Pow10(k)
  {
    p := 1;
    PowersFit(k);
    for i := 0 to k
      invariant p as int == Pow10(i)
    {
      PowersFit(i + 1);
      p := p * 10;
    }
  }

  lemma PowersFit(k: nat)
    requires k <= 9
    ensures Pow10(k) < 0x8000_0000
  {
    assert Pow10(9) == 1_000_000_000;
    Pow10Monotone(k, 9);
  }

  lemma {:induction false} Pow10Monotone(j: nat, k: nat)
    requires j <= k
    ensures Pow10(j) <= Pow10(k)
  {
    if j < k { Pow10Monotone(j, k - 1); }
  }

  lemma DigitStep(s: string, i: nat)
    requires AllDigits(s) && i < |s|
    ensures var d := s[i] as int - 48;
      && 0 <= d <= 9
      && DecimalValue(s[..i + 1]) * Pow10(|s| - i - 1) == DecimalValue(s[..i]) * Pow10(|s| - i) + Pow10(|s| - i - 1) * d
      && 0 <= Pow10(|s| - i - 1) * d <= DecimalValue(s)
      && 0 <= DecimalValue(s[..i + 1]) * Pow10(|s| - i - 1) <= DecimalValue(s)
  {
    assert s[..i + 1][..i] == s[..i];
    var v, d, p := DecimalValue(s[..i]), s[i] as int - 48, Pow10(|s| - i - 1);
    assert DecimalValue(s[..i + 1]) == 10 * v + d;
    assert Pow10(|s| - i) == 10 * p;
    ValueOfSplit(s, i + 1);
    hide DecimalValue, Pow10;
    Expand(v, d, p);
  }

  lemma Expand(v: int, d: int, p: int)
    ensures (10 * v + d) * p == v * (10 * p) + p * d
    ensures v >= 0 && d >= 0 && p >= 0 ==> v * (10 * p) >= 0 && p * d >= 0
  {
  }

  /** A number that fits in an int prints in ten digits or fewer. */
  lemma PrintedIsShort(n: nat)
    requires n < 0x8000_0000
    ensures |Print(n)| <= 10 && ':' !in Print(n)
  {
    PrintedLength(n, 10);
  }

  lemma {:induction false} PrintedLength(n: nat, k: nat)
    requires k > 0 && n < Pow10(k)
    ensures |Print(n)| <= k
  {
    if n >= 10 { PrintedLength(n / 10, k - 1); }
  }
}

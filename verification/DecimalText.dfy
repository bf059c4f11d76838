/** Decimal text of integers, as std::to_chars and std::to_string write it, and its reader. */
module DecimalText {
  import opened Wrappers

  predicate IsDigit(c: char) {
    '0' <= c <= '9'
  }

  predicate AllDigits(s: string) {
    forall i :: 0 <= i < |s| ==> IsDigit(s[i])
  }

  /** The decimal digits of n, most significant first and without leading zeros. */
  function Digits(n: nat): (s: string)
    ensures AllDigits(s) && |s| >= 1
  {
    if n < 10 then ['0' + n as char] else Digits(n / 10) + ['0' + (n % 10) as char]
  }

  /** The number that a string of digits denotes. */
  function Value(s: string): nat
    requires AllDigits(s)
  {
    if s == [] then 0 else 10 * Value(s[..|s| - 1]) + (s[|s| - 1] - '0') as nat
  }

  function ToDecimal(v: int): (s: string)
    ensures |s| >= 1
  {
    if v < 0 then "-" + Digits(-v) else Digits(v)
  }

  function ParseDecimal(s: string): Option<int> {
    if |s| >= 1 && AllDigits(s) then Some(Value(s))
    else if |s| >= 2 && s[0] == '-' && AllDigits(s[1..]) then Some(0 - (Value(s[1..]) as int))
    else None
  }

  lemma {:induction false} ValueOfDigits(n: nat)
    ensures Value(Digits(n)) == n
  {
    if n < 10 {
      assert Digits(n)[..0] == [];
    } else {
      ValueOfDigits(n / 10);
      var s := Digits(n);
      assert s[..|s| - 1] == Digits(n / 10);
    }
  }

  /** Reading back the decimal text of any integer gives that integer. */
  lemma ParseInvertsToDecimal(v: int)
    ensures ParseDecimal(ToDecimal(v)) == Some(v)
  {
    if v < 0 {
      ValueOfDigits(-v);
      assert ToDecimal(v)[1..] == Digits(-v);
      assert !IsDigit(ToDecimal(v)[0]);
    } else {
      ValueOfDigits(v);
    }
  }

  function Pow10(k: nat): (p: nat)
    ensures p > 0
  {
    if k == 0 then 1 else 10 * Pow10(k - 1)
  }

  /** The text of n has at most k digits exactly when n is below 10^k. */
  lemma {:induction false} DigitCount(n: nat, k: nat)
    requires k > 0
    ensures |Digits(n)| <= k <==> n < Pow10(k)
    decreases n
  {
    if n < 10 {
      assert Pow10(k) == 10 * Pow10(k - 1);
    } else if k == 1 {
      assert Pow10(1) == 10;
    } else {
      DigitCount(n / 10, k - 1);
    }
  }

  /** The text is as short as can be, one character longer below zero. */
  lemma DecimalLength(v: int, k: nat)
    requires k > 0
    ensures v >= 0 ==> (|ToDecimal(v)| <= k <==> v < Pow10(k))
    ensures v < 0 ==> (|ToDecimal(v)| <= k + 1 <==> -v < Pow10(k))
  {
    DigitCount(if v < 0 then -v else v, k);
  }

  /** Every 64-bit signed integer has at most 20 characters. */
  lemma Int64Length(v: int)
    requires -0x8000_0000_0000_0000 <= v < 0x8000_0000_0000_0000
    ensures |ToDecimal(v)| <= 20
  {
    assert Pow10(10) == 10_000_000_000;
    assert Pow10(19) == 10 * Pow10(18) == 100 * Pow10(17) == 1000 * Pow10(16);
    assert Pow10(16) == 10 * Pow10(15) == 100 * Pow10(14) == 1000 * Pow10(13) == 10000 * Pow10(12);
    assert Pow10(12) == 100 * Pow10(10);
    DigitCount(if v < 0 then -v else v, 19);
  }
}

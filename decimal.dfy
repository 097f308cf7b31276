/**
 * Decimal text of integers as the codec reads and writes it: the lengths,
 * counts and integer payloads of RESP frames, and the numbers interpolated
 * into protocol error messages.
 *
 * A `char` stands for one byte of the C++ `std::string`, so `|s|` is a byte
 * count throughout the model.
 */
module Decimal {
  import opened Wrappers

  const MinInt64: int := -0x8000_0000_0000_0000
  const MaxInt64: int := 0x7FFF_FFFF_FFFF_FFFF

  /** The values of the C++ `int64_t`, the integer type of RESP integer replies. */
  type Int64 = x: int | MinInt64 <= x <= MaxInt64

  predicate IsDigit(c: char) {
    '0' <= c <= '9'
  }

  predicate AllDigits(s: string) {
    forall i :: 0 <= i < |s| ==> IsDigit(s[i])
  }

  function DigitValue(c: char): (d: nat)
    requires IsDigit(c)
    ensures d < 10
  {
    (c as int) - ('0' as int)
  }

  function DigitChar(d: nat): (c: char)
    requires d < 10
    ensures IsDigit(c) && DigitValue(c) == d
  {
    (('0' as int) + d) as char
  }

  /** The number a string of decimal digits denotes, most significant digit first. */
  function DigitsValue(s: string): nat
    requires AllDigits(s)
  {
    if s == [] then 0 else 10 * DigitsValue(s[..|s| - 1]) + DigitValue(s[|s| - 1])
  }

  function Pow10(e: nat): (p: nat)
    ensures p >= 1
  {
    if e == 0 then 1 else 10 * Pow10(e - 1)
  }

  /**
   * The shortest decimal text of `n`, as `std::ostream << n` writes it: it
   * reads back as `n` and has no leading zero.
   */
  function NatToDecimal(n: nat): (s: string)
    ensures |s| > 0 && AllDigits(s) && DigitsValue(s) == n
    ensures s[0] == '0' ==> n == 0 && |s| == 1
  {
    if n < 10 then [DigitChar(n)]
    else
      var s := NatToDecimal(n / 10) + [DigitChar(n % 10)];
      assert s[..|s| - 1] == NatToDecimal(n / 10);
      s
  }

  /** Signed decimal text: a '-' before the magnitude of a negative number. */
  function IntToDecimal(i: int): (s: string)
    ensures |s| > 0
    ensures s[0] == '-' <==> i < 0
  {
    if i < 0 then "-" + NatToDecimal(-i) else NatToDecimal(i)
  }

  /**
   * `boost::lexical_cast<int64_t>` of a whole string: an optional '+' or '-',
   * then one or more decimal digits and nothing else, denoting a value of the
   * 64-bit signed range. Anything else is a failed cast, `None`.
   */
  function LexicalCastInt64(s: string): (r: Option<Int64>)
    ensures r.Some? ==> |s| > 0 && forall i :: 0 < i < |s| ==> IsDigit(s[i])
    ensures r.Some? ==> IsDigit(s[0]) || s[0] == '+' || s[0] == '-'
    ensures r.Some? ==> IsDigit(s[|s| - 1])
    ensures r.Some? && r.value < 0 ==> s[0] == '-'
  {
    if |s| == 0 then None
    else
      var digits := if s[0] == '-' || s[0] == '+' then s[1..] else s;
      if |digits| == 0 || !AllDigits(digits) then None
      else
        var magnitude := DigitsValue(digits);
        var n: int := if s[0] == '-' then -(magnitude as int) else magnitude;
        if MinInt64 <= n <= MaxInt64 then Some(n) else None
  }

  /** Writing a 64-bit integer in decimal and casting it back gives the integer. */
  lemma LexicalCastOfDecimal(n: Int64)
    ensures LexicalCastInt64(IntToDecimal(n)) == Some(n)
  {
    var s := IntToDecimal(n);
    if n < 0 {
      var magnitude: nat := -(n as int);
      assert s[1..] == NatToDecimal(magnitude);
    } else {
      assert IsDigit(s[0]);
    }
  }

  /**
   * The other direction of `LexicalCastOfDecimal`: the decimal text of an
   * integer outside the 64-bit signed range never casts, however few digits
   * it has (9223372036854775808, -9223372036854775809 and beyond).
   */
  lemma LexicalCastRejectsOutOfRange(n: int)
    requires n < MinInt64 || n > MaxInt64
    ensures LexicalCastInt64(IntToDecimal(n)) == None
  {
    var s := IntToDecimal(n);
    if n < 0 {
      assert s[1..] == NatToDecimal(-n);
    } else {
      assert IsDigit(s[0]);
    }
  }

  /** A digit string with a non-zero first digit is at least 10 to the power of its length less one. */
  lemma {:induction false} DigitsValueLowerBound(s: string)
    requires AllDigits(s) && |s| > 0 && s[0] != '0'
    ensures DigitsValue(s) >= Pow10(|s| - 1)
  {
    if |s| > 1 {
      var prefix := s[..|s| - 1];
      assert prefix[0] == s[0];
      DigitsValueLowerBound(prefix);
    } else {
      assert DigitValue(s[0]) >= 1;
    }
  }

  /**
   * Twenty or more significant digits are beyond the 64-bit range, whatever
   * the sign: the cast fails.
   */
  lemma LexicalCastRejectsLongNumerals(digits: string)
    requires AllDigits(digits) && |digits| >= 20 && digits[0] != '0'
    ensures LexicalCastInt64(digits) == None
    ensures LexicalCastInt64("-" + digits) == None
    ensures LexicalCastInt64("+" + digits) == None
  {
    DigitsValueLowerBound(digits);
    assert Pow10(10) == 10_000_000_000;
    assert Pow10(19) == 10_000_000_000_000_000_000;
    PowMonotone(19, |digits| - 1);
    assert ("-" + digits)[1..] == digits;
    assert ("+" + digits)[1..] == digits;
  }

  lemma {:induction false} PowMonotone(a: nat, b: nat)
    requires a <= b
    ensures Pow10(a) <= Pow10(b)
  {
    if a < b {
      PowMonotone(a, b - 1);
    }
  }

  /**
   * Decimal text is positional: `hi` followed by the `k` digits of `lo` is
   * the text of `hi * 10^k + lo`.
   */
  lemma DecimalOfShift(hi: nat, lo: nat, k: nat)
    requires hi > 0 && k > 0 && Pow10(k - 1) <= lo < Pow10(k)
    ensures NatToDecimal(hi * Pow10(k) + lo) == NatToDecimal(hi) + NatToDecimal(lo)
  {
    Shifted(hi, lo, k, hi * Pow10(k) + lo);
  }

  /** The same, with the shifted number `n` named. */
  lemma {:induction false} Shifted(hi: nat, lo: nat, k: nat, n: nat)
    requires hi > 0 && k > 0 && Pow10(k - 1) <= lo < Pow10(k) && n == hi * Pow10(k) + lo
    ensures NatToDecimal(n) == NatToDecimal(hi) + NatToDecimal(lo)
  {
    ShiftDigits(hi, lo, k);
    LastDigit(n);
    if k > 1 {
      Shifted(hi, lo / 10, k - 1, n / 10);
      LastDigit(lo);
    }
  }

  /** The text of a number of two digits or more is that of its tenth, then its last digit. */
  lemma LastDigit(n: nat)
    requires n >= 10
    ensures NatToDecimal(n) == NatToDecimal(n / 10) + [DigitChar(n % 10)]
  {
  }

  /** The last digit of `hi * 10^k + lo` is that of `lo`; the rest is `hi * 10^(k-1) + lo / 10`. */
  lemma ShiftDigits(hi: nat, lo: nat, k: nat)
    requires hi > 0 && k > 0 && Pow10(k - 1) <= lo < Pow10(k)
    ensures var n := hi * Pow10(k) + lo;
      && n >= 10 && n % 10 == lo % 10
      && (k == 1 ==> n / 10 == hi && lo < 10)
      && (k > 1 ==>
            n / 10 == hi * Pow10(k - 1) + lo / 10 && lo >= 10 && Pow10(k - 2) <= lo / 10 < Pow10(k - 1))
  {
    var p := Pow10(k - 1);
    assert Pow10(k) == 10 * p;
    assert hi * Pow10(k) == 10 * (hi * p) by {
      assert hi * (10 * p) == 10 * (hi * p);
    }
    assert hi * p >= p by {
      assert hi * p == p + (hi - 1) * p;
    }
    if k > 1 {
      assert p == 10 * Pow10(k - 2);
    }
  }
}

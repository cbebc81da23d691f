/**
 * Java's 32-bit `int`: two's-complement wrap-around, `Integer.parseInt` in radix 10
 * and `Integer.toString`, plus the zero padding of `String.format("%0Nd", n)`.
 */
module JavaInt {
  import opened Wrappers

  const MinInt: int := -0x8000_0000
  const MaxInt: int := 0x7fff_ffff
  const Modulus: int := 0x1_0000_0000

  predicate InRange(x: int)
  {
    MinInt <= x <= MaxInt
  }

  /** The value a Java `int` expression holds when the exact result is `x`. */
  function Wrap(x: int): (r: int)
    ensures InRange(r)
    ensures InRange(x) ==> r == x
  {
    (x - MinInt) % Modulus + MinInt
  }

  /** Two values in range that differ by a multiple of 2^32 are equal. */
  lemma CongruentInRange(a: int, b: int, q: int)
    requires InRange(a) && InRange(b)
    requires a - b == q * Modulus
    ensures a == b
  {
  }

  /** Wrap(x) differs from x by a multiple of 2^32. */
  lemma WrapOffset(x: int) returns (q: int)
    ensures Wrap(x) == x + q * Modulus
  {
    q := -((x - MinInt) / Modulus);
  }

  /** Wrapping once per addition, as a Java loop does, is the same as wrapping the exact sum once. */
  lemma {:induction false} WrapAdd(a: int, b: int)
    ensures Wrap(Wrap(a) + b) == Wrap(a + b)
  {
    var q1 := WrapOffset(a);
    var q2 := WrapOffset(Wrap(a) + b);
    var q3 := WrapOffset(a + b);
    assert Wrap(Wrap(a) + b) - Wrap(a + b) == (q1 + q2 - q3) * Modulus;
    CongruentInRange(Wrap(Wrap(a) + b), Wrap(a + b), q1 + q2 - q3);
  }

  predicate IsDigit(ch: char)
  {
    '0' <= ch <= '9'
  }

  predicate AllDigits(s: string)
  {
    forall i :: 0 <= i < |s| ==> IsDigit(s[i])
  }

  function DigitValue(ch: char): (d: nat)
    requires IsDigit(ch)
    ensures d < 10
  {
    ch as int - '0' as int
  }

  function DigitChar(d: nat): (ch: char)
    requires d < 10
    ensures IsDigit(ch) && DigitValue(ch) == d
  {
    ('0' as int + d) as char
  }

  /** The number a string of ASCII decimal digits denotes (the empty string denotes 0). */
  function DecimalValue(s: string): nat
    requires AllDigits(s)
  {
    if s == [] then 0 else DecimalValue(s[..|s| - 1]) * 10 + DigitValue(s[|s| - 1])
  }

  function Pow10(k: nat): (p: nat)
    ensures p >= 1
  {
    if k == 0 then 1 else 10 * Pow10(k - 1)
  }

  /**
   * `Integer.parseInt(s)`: an optional `+` or `-`, then one or more decimal digits, and a value
   * that fits in 32 bits; `None` stands for the `NumberFormatException`.
   */
  function ParseInt(s: string): (r: Option<int>)
    ensures r.Some? ==> InRange(r.value)
    ensures s == [] ==> r.None?
    ensures r.Some? ==> (IsDigit(s[0]) || s[0] == '+' || s[0] == '-') && IsDigit(s[|s| - 1])
    ensures r.Some? ==> forall i :: 1 <= i < |s| ==> IsDigit(s[i])
  {
    if s == [] then None
    else
      var signed := s[0] == '-' || s[0] == '+';
      var digits := if signed then s[1..] else s;
      if digits == [] || !AllDigits(digits) then None
      else
        var magnitude: int := DecimalValue(digits);
        var v := if s[0] == '-' then -magnitude else magnitude;
        if InRange(v) then Some(v) else None
  }

  /**
   * Every optional sign followed by one or more ASCII digits is accepted exactly when its value fits
   * in an `int`, and then gives that value: `+3` is 3, `007` is 7, `-0` is 0.
   */
  lemma ParseIntAccepts(sign: string, digits: string)
    requires sign == "" || sign == "+" || sign == "-"
    requires digits != [] && AllDigits(digits)
    ensures var v := if sign == "-" then 0 - DecimalValue(digits) as int else DecimalValue(digits) as int;
      ParseInt(sign + digits) == if InRange(v) then Some(v) else None
  {
    var s := sign + digits;
    if sign == "" {
      assert s == digits;
      assert IsDigit(s[0]);
    } else {
      assert s[0] == sign[0] && s[1..] == digits;
    }
  }

  /** The digits of `Integer.toString` for a non-negative value. */
  function NatToString(n: nat): (s: string)
    ensures s != [] && AllDigits(s)
  {
    if n < 10 then [DigitChar(n)] else NatToString(n / 10) + [DigitChar(n % 10)]
  }

  /** The digits denote `n`, with no leading zero. */
  lemma {:induction false} NatToStringValue(n: nat)
    ensures DecimalValue(NatToString(n)) == n
    ensures NatToString(n)[0] == '0' ==> n == 0
  {
    if n >= 10 {
      var s := NatToString(n);
      NatToStringValue(n / 10);
      assert s[..|s| - 1] == NatToString(n / 10);
      assert s[0] == NatToString(n / 10)[0];
    }
  }

  /** `Integer.toString(n)` (and the `"" + n` of string concatenation). */
  function IntToString(n: int): (s: string)
    ensures n >= 0 ==> s != [] && AllDigits(s)
    ensures n < 0 ==> |s| >= 2 && s[0] == '-' && AllDigits(s[1..])
  {
    if n < 0 then "-" + NatToString(-n) else NatToString(n)
  }

  /** `Integer.parseInt` reads back every `int` that `Integer.toString` writes. */
  lemma IntToStringRoundTrip(n: int)
    requires InRange(n)
    ensures ParseInt(IntToString(n)) == Some(n)
  {
    var s := IntToString(n);
    if n < 0 {
      NatToStringValue(-n);
      assert s[1..] == NatToString(-n);
    } else {
      NatToStringValue(n);
    }
  }

  /** A value below 10^k has at most k digits. */
  lemma {:induction false} NatToStringLength(n: nat, k: nat)
    requires 1 <= k && n < Pow10(k)
    ensures |NatToString(n)| <= k
  {
    if n >= 10 {
      NatToStringLength(n / 10, k - 1);
    }
  }

  function Zeros(k: nat): (s: string)
    ensures |s| == k && AllDigits(s)
    ensures forall i :: 0 <= i < k ==> s[i] == '0'
  {
    if k == 0 then [] else Zeros(k - 1) + ['0']
  }

  /** Leading zeros do not change the value of a digit string. */
  lemma {:induction false} LeadingZeros(k: nat, s: string)
    requires AllDigits(s)
    ensures AllDigits(Zeros(k) + s)
    ensures DecimalValue(Zeros(k) + s) == DecimalValue(s)
    decreases |s|, k
  {
    var t := Zeros(k) + s;
    if s == [] {
      assert t == Zeros(k);
      if k > 0 {
        assert t[..|t| - 1] == Zeros(k - 1);
        LeadingZeros(k - 1, []);
        assert Zeros(k - 1) + [] == Zeros(k - 1);
        assert DecimalValue(t) == DecimalValue(Zeros(k - 1)) * 10 + DigitValue('0');
      }
    } else {
      var u := s[..|s| - 1];
      assert t[..|t| - 1] == Zeros(k) + u;
      LeadingZeros(k, u);
      assert DecimalValue(t) == DecimalValue(Zeros(k) + u) * 10 + DigitValue(s[|s| - 1]);
    }
  }

  /** `String.format("%0" + width + "d", n)` for a value with at most `width` digits. */
  function ZeroPadded(n: nat, width: nat): (s: string)
    requires 1 <= width && n < Pow10(width)
    ensures |s| == width && AllDigits(s)
    ensures DecimalValue(s) == n
  {
    NatToStringLength(n, width);
    NatToStringValue(n);
    LeadingZeros(width - |NatToString(n)|, NatToString(n));
    Zeros(width - |NatToString(n)|) + NatToString(n)
  }

  /** Digit strings of equal length denote equal values only when they are equal. */
  lemma {:induction false} DecimalValueInjective(a: string, b: string)
    requires AllDigits(a) && AllDigits(b) && |a| == |b|
    requires DecimalValue(a) == DecimalValue(b)
    ensures a == b
  {
    if a != [] {
      var n := |a| - 1;
      assert DigitValue(a[n]) == DecimalValue(a) % 10 && DigitValue(b[n]) == DecimalValue(b) % 10;
      assert DecimalValue(a[..n]) == DecimalValue(a) / 10 && DecimalValue(b[..n]) == DecimalValue(b) / 10;
      DecimalValueInjective(a[..n], b[..n]);
      assert a[n] == b[n] by {
        assert DigitValue(a[n]) == DigitValue(b[n]);
      }
      assert a == a[..n] + [a[n]] && b == b[..n] + [b[n]];
    }
  }
}

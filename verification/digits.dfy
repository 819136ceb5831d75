/**
 * Decimal renderings shared by the screenshot helpers: the zero-padded fixed-width
 * fields of a `DateTimeFormatter` pattern (`yyyy`, `MM`, `SSS`, ...) and the plain
 * decimal rendering a `long` gets when formatted as a string. Each rendering
 * comes with the parser that inverts it.
 */
module Digits {
  import opened Wrappers

  predicate IsDigit(c: char) {
    '0' <= c <= '9'
  }

  predicate AllDigits(s: string) {
    forall i :: 0 <= i < |s| ==> IsDigit(s[i])
  }

  function DigitChar(d: nat): (c: char)
    requires d < 10
    ensures IsDigit(c)
    ensures DigitValue(c) == d
  {
    ('0' as int + d) as char
  }

  function DigitValue(c: char): nat
    requires IsDigit(c)
  {
    c as int - '0' as int
  }

  function Pow10(n: nat): (r: nat)
    ensures r >= 1
  {
    if n == 0 then 1 else 10 * Pow10(n - 1)
  }

  /** The number a digit string denotes, most significant digit first. */
  function ValueOf(s: string): nat
    requires AllDigits(s)
  {
    if |s| == 0 then 0 else 10 * ValueOf(s[..|s| - 1]) + DigitValue(s[|s| - 1])
  }

  /** `n` printed in exactly `width` digits, zero-padded on the left (high digits beyond the width are dropped). */
  function Padded(n: nat, width: nat): (s: string)
    ensures |s| == width
    ensures AllDigits(s)
  {
    if width == 0 then "" else Padded(n / 10, width - 1) + [DigitChar(n % 10)]
  }

  /** `n` in decimal with no leading zeros, as `Long.toString` prints a non-negative value. */
  function NatToString(n: nat): (s: string)
    ensures 1 <= |s|
    ensures AllDigits(s)
  {
    if n < 10 then [DigitChar(n)] else NatToString(n / 10) + [DigitChar(n % 10)]
  }

  /** `Long.toString`: a minus sign for negative values, then the magnitude. */
  function IntToString(i: int): (s: string)
    ensures 1 <= |s|
    ensures forall k :: 0 <= k < |s| ==> IsDigit(s[k]) || (k == 0 && s[k] == '-')
  {
    if i < 0 then "-" + NatToString(-i) else NatToString(i)
  }

  /** Reads back what `IntToString` prints; rejects anything that is not an optional minus sign followed by digits. */
  function ParseInt(s: string): (r: Option<int>)
    ensures r.Some? ==> 1 <= |s|
  {
    if 2 <= |s| && s[0] == '-' && AllDigits(s[1..]) then Some(-(ValueOf(s[1..]) as int))
    else if 1 <= |s| && AllDigits(s) then Some(ValueOf(s))
    else None
  }

  /** Euclidean division is unique: a decomposition with an in-range remainder is the one `/` and `%` compute. */
  lemma DivModUnique(n: int, m: int, q: int, c: int)
    requires 0 < m
    requires n == m * q + c
    requires 0 <= c < m
    ensures n / m == q
    ensures n % m == c
  {
    var d := q - n / m;
    assert m * d == n % m - c;
    if d >= 1 {
      MulAtLeast(m, d);
      assert false;
    } else if d <= -1 {
      MulAtLeast(m, -d);
      assert false;
    }
  }

  lemma {:induction false} MulAtLeast(m: int, k: int)
    requires 0 < m
    requires 1 <= k
    ensures m * k >= m
  {
    if k > 1 {
      MulAtLeast(m, k - 1);
      assert m * k == m * (k - 1) + m;
    }
  }

  lemma ModTenTimes(n: nat, p: nat)
    requires 1 <= p
    ensures n % (10 * p) == 10 * ((n / 10) % p) + n % 10
  {
    var a, b, r := (n / 10) / p, (n / 10) % p, n % 10;
    assert n / 10 == p * a + b;
    assert n == (10 * p) * a + (10 * b + r);
    DivModUnique(n, 10 * p, a, 10 * b + r);
  }

  lemma {:induction false} PaddedValue(n: nat, width: nat)
    ensures ValueOf(Padded(n, width)) == n % Pow10(width)
  {
    if width > 0 {
      var s := Padded(n, width);
      assert s[..|s| - 1] == Padded(n / 10, width - 1);
      PaddedValue(n / 10, width - 1);
      ModTenTimes(n, Pow10(width - 1));
    }
  }

  /** A value that fits its width is recovered exactly from the padded field. */
  lemma PaddedRoundTrip(n: nat, width: nat)
    requires n < Pow10(width)
    ensures ValueOf(Padded(n, width)) == n
  {
    PaddedValue(n, width);
  }

  lemma {:induction false} NatToStringRoundTrip(n: nat)
    ensures ValueOf(NatToString(n)) == n
  {
    if n >= 10 {
      var s := NatToString(n);
      assert s[..|s| - 1] == NatToString(n / 10);
      NatToStringRoundTrip(n / 10);
    }
  }

  /** The rendering has more than `k` digits exactly when the value reaches `10^k`. */
  lemma {:induction false} NatToStringLength(n: nat, k: nat)
    requires 1 <= k
    ensures |NatToString(n)| > k <==> n >= Pow10(k)
  {
    assert Pow10(k) == 10 * Pow10(k - 1);
    if n >= 10 && k > 1 {
      NatToStringLength(n / 10, k - 1);
      assert n / 10 >= Pow10(k - 1) <==> n >= 10 * Pow10(k - 1);
    }
  }

  lemma IntToStringRoundTrip(i: int)
    ensures ParseInt(IntToString(i)) == Some(i)
  {
    var s := IntToString(i);
    if i < 0 {
      assert s[1..] == NatToString(-i);
      NatToStringRoundTrip(-i);
    } else {
      NatToStringRoundTrip(i);
    }
  }

}

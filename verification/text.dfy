/**
  The two text-to-number conversions the routes apply to form fields:
  `shares.isdigit()` followed by `int(shares)` for share counts, and
  `float(amount)` followed by the two-decimal check `round(x, 2) == x`
  for deposit amounts. Numbers are exact: a decimal literal is kept as
  `mantissa / 10^scale` instead of a binary float.
 */
module Text {
  import opened Wrappers

  predicate IsDigit(c: char) {
    '0' <= c <= '9'
  }

  predicate AllDigits(s: string) {
    forall i :: 0 <= i < |s| ==> IsDigit(s[i])
  }

  /**
    `s.isdigit()` on ASCII text: at least one character, and all of them
    decimal digits. A sign or a decimal point fails it, so whatever passes
    reads as a whole number that is not negative.
   */
  predicate IsDigits(s: string): (b: bool)
    ensures b ==> |s| > 0 && '-' !in s && '+' !in s && '.' !in s
  {
    |s| > 0 && AllDigits(s)
  }

  function Pow10(n: nat): (p: nat)
    ensures p >= 1
  {
    if n == 0 then 1 else 10 * Pow10(n - 1)
  }

  function DigitValue(c: char): (d: nat)
    requires IsDigit(c)
    ensures d < 10
  {
    (c as int) - ('0' as int)
  }

  function DigitChar(d: nat): (c: char)
    requires d < 10
    ensures IsDigit(c) && DigitValue(c) == d
  {
    (('0' as int) + d) as char
  }

  /** `int(s)` for a string of decimal digits; leading zeros are allowed and the empty string reads as 0. */
  function DigitsValue(s: string): (n: nat)
    requires AllDigits(s)
    ensures n < Pow10(|s|)
    decreases |s|
  {
    if |s| == 0 then 0
    else
      var v := DigitsValue(s[..|s| - 1]);
      assert v <= Pow10(|s| - 1) - 1;
      v * 10 + DigitValue(s[|s| - 1])
  }

  /** The shortest decimal numeral of `n`, as `str(n)` writes it. */
  function NatToDigits(n: nat): (s: string)
    ensures IsDigits(s) && DigitsValue(s) == n
    ensures s[0] == '0' ==> n == 0
    decreases n
  {
    if n < 10 then [DigitChar(n)]
    else
      var p := NatToDigits(n / 10);
      var s := p + [DigitChar(n % 10)];
      assert s[..|s| - 1] == p;
      s
  }

  lemma AllDigitsAppend(a: string, b: string)
    requires AllDigits(a) && AllDigits(b)
    ensures AllDigits(a + b)
  {
    forall i | 0 <= i < |a + b|
      ensures IsDigit((a + b)[i])
    {
      if i < |a| { assert (a + b)[i] == a[i]; } else { assert (a + b)[i] == b[i - |a|]; }
    }
  }

  /** Reading two numerals side by side: the left one is shifted by the length of the right one. */
  lemma {:induction false} DigitsValueAppend(a: string, b: string)
    requires AllDigits(a) && AllDigits(b)
    ensures AllDigits(a + b)
    ensures DigitsValue(a + b) == DigitsValue(a) * Pow10(|b|) + DigitsValue(b)
    decreases |b|
  {
    AllDigitsAppend(a, b);
    if |b| == 0 {
      assert a + b == a;
    } else {
      var b' := b[..|b| - 1];
      assert (a + b)[..|a + b| - 1] == a + b';
      assert (a + b)[|a + b| - 1] == b[|b| - 1];
      DigitsValueAppend(a, b');
      var d := DigitValue(b[|b| - 1]);
      assert Pow10(|b|) == Pow10(|b'|) * 10;
      ShiftDigit(DigitsValue(a), Pow10(|b'|), DigitsValue(b'), d);
    }
  }

  lemma ShiftDigit(x: int, p: int, y: int, d: int)
    ensures (x * p + y) * 10 + d == x * (p * 10) + (y * 10 + d)
  {
  }

  /** Position of the first '.' in `s`, or `|s|` when there is none. */
  function DotIndex(s: string): (i: nat)
    ensures i <= |s|
    ensures i < |s| ==> s[i] == '.'
    ensures forall j :: 0 <= j < i ==> s[j] != '.'
    decreases |s|
  {
    if |s| == 0 || s[0] == '.' then 0 else 1 + DotIndex(s[1..])
  }

  /** A decimal literal, read exactly: its value is `mantissa / 10^scale`. */
  datatype Decimal = Decimal(mantissa: int, scale: nat)

  /**
    `float(s)` on plain decimal notation: an optional sign, then digits with
    at most one decimal point and at least one digit in all ("5.", ".5" and
    "-0" are numbers; "", ".", "1.2.3" and "+-1" are not).
   */
  function ParseDecimal(s: string): (r: Option<Decimal>)
    ensures r.Some? && |s| > 0 && s[0] == '-' ==> r.value.mantissa <= 0
    ensures r.Some? && (|s| == 0 || s[0] != '-') ==> r.value.mantissa >= 0
    ensures (|s| == 0 || (s[0] != '-' && s[0] != '+')) ==> r == ParseUnsigned(s)
    ensures (|s| > 0 && s[0] == '+') ==> r == ParseUnsigned(s[1..])
    ensures (|s| > 0 && s[0] == '-') ==>
      && (r.Some? <==> ParseUnsigned(s[1..]).Some?)
      && (r.Some? ==> r.value.scale == ParseUnsigned(s[1..]).value.scale
                      && r.value.mantissa == -ParseUnsigned(s[1..]).value.mantissa)
  {
    if |s| > 0 && s[0] == '-' then
      match ParseUnsigned(s[1..])
      case Some(d) => Some(Decimal(-d.mantissa, d.scale))
      case None => None
    else if |s| > 0 && s[0] == '+' then ParseUnsigned(s[1..])
    else ParseUnsigned(s)
  }

  /** The unsigned part of a decimal literal; the scale is the number of digits after the point. */
  function ParseUnsigned(s: string): (r: Option<Decimal>)
    ensures r.Some? ==> r.value.mantissa >= 0 && r.value.scale < |s|
    ensures r.Some? <==> var i := DotIndex(s);
      && AllDigits(s[..i])
      && (i < |s| ==> AllDigits(s[i + 1..]))
      && (i < |s| - 1 || 0 < i)
    ensures r.Some? && DotIndex(s) == |s| ==> AllDigits(s) && r.value == Decimal(DigitsValue(s), 0)
    ensures r.Some? && DotIndex(s) < |s| ==> var i := DotIndex(s);
      && AllDigits(s[..i]) && AllDigits(s[i + 1..])
      && r.value.scale == |s| - i - 1
      && AllDigits(s[..i] + s[i + 1..]) && r.value.mantissa == DigitsValue(s[..i] + s[i + 1..])
  {
    var i := DotIndex(s);
    var whole := s[..i];
    var frac := if i < |s| then s[i + 1..] else "";
    if AllDigits(whole) && AllDigits(frac) && |whole| + |frac| > 0 then
      AllDigitsAppend(whole, frac);
      assert i == |s| ==> whole + frac == s;
      Some(Decimal(DigitsValue(whole + frac), |frac|))
    else
      None
  }

  /** A literal with a point reads as its whole part shifted left by the places, plus the digits after the point. */
  lemma ParseUnsignedValue(s: string)
    requires ParseUnsigned(s).Some? && DotIndex(s) < |s|
    ensures var i := DotIndex(s); var d := ParseUnsigned(s).value;
      && AllDigits(s[..i]) && AllDigits(s[i + 1..])
      && d.mantissa == DigitsValue(s[..i]) * Pow10(d.scale) + DigitsValue(s[i + 1..])
  {
    var i := DotIndex(s);
    var w, f := s[..i], s[i + 1..];
    var d := ParseUnsigned(s).value;
    assert d.scale == |f| && d.mantissa == DigitsValue(w + f);
    DigitsValueAppend(w, f);
  }

  /** `round(x, 2) == x`: the value is a whole number of cents. */
  predicate WholeCents(d: Decimal) {
    (d.mantissa * 100) % Pow10(d.scale) == 0
  }

  /** Every literal with at most two places is a whole number of cents. */
  lemma FewPlaces(m: int, scale: nat)
    requires scale <= 2
    ensures WholeCents(Decimal(m, scale))
  {
    if scale == 0 {
      RemainderUnique(m * 100, 1, m * 100, 0);
    } else if scale == 1 {
      assert Pow10(1) == 10;
      RemainderUnique(m * 100, 10, m * 10, 0);
    } else {
      assert Pow10(2) == 100;
      RemainderUnique(m * 100, 100, m, 0);
    }
  }

  /** The value of `d` in cents, exact because it is a whole number of cents. */
  function ToCents(d: Decimal): (c: int)
    requires WholeCents(d)
    ensures c * Pow10(d.scale) == d.mantissa * 100
    ensures d.mantissa >= 0 ==> c >= 0
  {
    d.mantissa * 100 / Pow10(d.scale)
  }

  /** A literal with `k >= 2` places is a whole number of cents exactly when its last `k - 2` digits are zero. */
  lemma WholeCentsPlaces(d: Decimal)
    requires d.scale >= 2
    ensures WholeCents(d) <==> d.mantissa % Pow10(d.scale - 2) == 0
  {
    var q := Pow10(d.scale - 2);
    assert Pow10(d.scale) == 100 * q by {
      assert Pow10(d.scale) == 10 * Pow10(d.scale - 1);
    }
    ScaledRemainder(d.mantissa, q);
  }

  /** Scaling both sides of a Euclidean division by 100 scales the remainder by 100. */
  lemma ScaledRemainder(m: int, q: int)
    requires q > 0
    ensures (m * 100) % (100 * q) == (m % q) * 100
  {
    var t := m / q;
    var r := m % q;
    assert m == q * t + r;
    assert m * 100 == (100 * q) * t + r * 100;
    RemainderUnique(m * 100, 100 * q, t, r * 100);
  }

  /** Euclidean division has one remainder: any `x == n * t + r` with `0 <= r < n` names it. */
  lemma RemainderUnique(x: int, n: int, t: int, r: int)
    requires n > 0 && 0 <= r < n && x == n * t + r
    ensures x % n == r
  {
    var t' := x / n;
    var r' := x % n;
    assert x == n * t' + r';
    assert n * (t - t') == r' - r;
    MulBound(n, t - t');
  }

  /** A non-zero multiple of a positive number is at least that number away from 0. */
  lemma MulBound(n: int, k: int)
    requires n > 0
    ensures k >= 1 ==> n * k >= n
    ensures k <= -1 ==> n * k <= -n
  {
    if k >= 1 {
      assert n * k == n * (k - 1) + n;
    } else if k <= -1 {
      assert n * k == n * (k + 1) - n;
    }
  }

  /** The amount `c` cents written with exactly two places, as `f"{x:.2f}"` writes it, e.g. "150.05". */
  function FormatCents(c: nat): (s: string)
  {
    NatToDigits(c / 100) + "." + [DigitChar(c % 100 / 10), DigitChar(c % 10)]
  }

  /** In a numeral followed by a point, the first point is the one after the numeral. */
  lemma DotAfterDigits(w: string, f: string)
    requires AllDigits(w)
    ensures var s := w + ['.'] + f;
      DotIndex(s) == |w| && s[..|w|] == w && s[|w| + 1..] == f
  {
    var s := w + ['.'] + f;
    var i := DotIndex(s);
    assert s[|w|] == '.';
    assert s[..|w|] == w;
    assert s[|w| + 1..] == f;
  }

  /** A numeral, a point and a string of digits read as the digits run together, scaled by the places after the point. */
  lemma ParsePointed(w: string, f: string)
    requires IsDigits(w) && AllDigits(f)
    ensures AllDigits(w + f)
    ensures ParseDecimal(w + "." + f) == Some(Decimal(DigitsValue(w + f), |f|))
  {
    var s := w + "." + f;
    assert s == w + ['.'] + f;
    DotAfterDigits(w, f);
    assert s[0] == w[0];
    AllDigitsAppend(w, f);
  }

  /** A formatted amount reads back as exactly the same number of cents. */
  lemma ParseFormatCents(c: nat)
    ensures ParseDecimal(FormatCents(c)) == Some(Decimal(c, 2))
    ensures WholeCents(Decimal(c, 2)) && ToCents(Decimal(c, 2)) == c
  {
    var w := NatToDigits(c / 100);
    var f := [DigitChar(c % 100 / 10), DigitChar(c % 10)];
    ParsePointed(w, f);
    assert DigitsValue(w + f) == c by {
      TwoDigits(c % 100 / 10, c % 10);
      DigitsValueAppend(w, f);
      assert Pow10(2) == 100;
    }
    CentsScale(c);
  }

  /** A count of cents with scale 2 is whole and converts back to itself. */
  lemma CentsScale(c: nat)
    ensures WholeCents(Decimal(c, 2)) && ToCents(Decimal(c, 2)) == c
  {
    assert Pow10(2) == 100;
    RemainderUnique(c * 100, 100, c, 0);
    assert ToCents(Decimal(c, 2)) * 100 == c * 100;
  }

  /** Two digits read as a two-digit number. */
  lemma TwoDigits(x: nat, y: nat)
    requires x < 10 && y < 10
    ensures DigitsValue([DigitChar(x), DigitChar(y)]) == x * 10 + y
  {
    var f := [DigitChar(x), DigitChar(y)];
    assert f[..1] == [f[0]];
    assert f[..1][..0] == [];
  }
}

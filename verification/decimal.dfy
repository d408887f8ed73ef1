/**
  The two lexical conversions the loader applies to a cell: an integer literal
  (Python's `int(text)`) and a decimal number literal (Python's `float(text)`).

  Grammar modelled (no surrounding whitespace, no `_` separators, no exponent,
  no `inf`/`nan`):
    integer ::= sign? digit+
    number  ::= sign? ( digit+ ( "." digit* )? | "." digit+ )
    sign    ::= "+" | "-"
  A number denotes an exact `real`; binary floating-point rounding is not modelled.
*/
module Decimal {
  import opened Outcomes

  predicate IsDigit(c: char) {
    '0' <= c <= '9'
  }

  predicate AllDigits(s: string) {
    forall i :: 0 <= i < |s| ==> IsDigit(s[i])
  }

  function DigitValue(c: char): (d: nat)
    requires IsDigit(c)
    ensures d < 10
  {
    c as int - '0' as int
  }

  function DigitChar(d: nat): (c: char)
    requires d < 10
    ensures IsDigit(c) && DigitValue(c) == d
  {
    ('0' as int + d) as char
  }

  /** The value of a digit string read most-significant digit first. */
  function DigitsValue(s: string): nat
    requires AllDigits(s)
  {
    if |s| == 0 then 0 else DigitsValue(s[..|s| - 1]) * 10 + DigitValue(s[|s| - 1])
  }

  function Pow10(n: nat): (p: nat)
    ensures p >= 1
  {
    if n == 0 then 1 else 10 * Pow10(n - 1)
  }

  /** Strips one optional leading sign; the flag says whether it was a minus. */
  function SplitSign(s: string): (r: (bool, string))
    ensures |r.1| <= |s|
    ensures |s| > 0 && IsDigit(s[0]) ==> r == (false, s)
  {
    if |s| > 0 && (s[0] == '+' || s[0] == '-') then (s[0] == '-', s[1..]) else (false, s)
  }

  /** The characters a number literal may use: digits, dots, and one leading sign. */
  predicate NumberAlphabet(s: string) {
    forall i :: 0 <= i < |s| ==> IsDigit(s[i]) || s[i] == '.' || (i == 0 && (s[i] == '+' || s[i] == '-'))
  }

  /** Python's `int(text)` on the modelled grammar; `None` stands for the ValueError. */
  function ParseInt(s: string): (r: Option<int>)
    ensures r.Some? ==> |s| > 0 && '.' !in s
    ensures r.Some? && r.value < 0 ==> s[0] == '-'
    ensures r.Some? ==> ParseNumber(s) == Some(r.value as real)
  {
    var (negative, body) := SplitSign(s);
    if |body| > 0 && AllDigits(body) then
      var magnitude: int := DigitsValue(body);
      DigitsHaveNoDot(body);
      Some(if negative then -magnitude else magnitude)
    else
      None
  }

  /** Position of the first '.' in `s`, if any. */
  function FindDot(s: string): (r: Option<nat>)
    ensures r.Some? ==> r.value < |s| && s[r.value] == '.' && '.' !in s[..r.value]
    ensures r.None? <==> '.' !in s
  {
    if |s| == 0 then None
    else if s[0] == '.' then Some(0)
    else match FindDot(s[1..])
      case None => None
      case Some(p) => Some(p + 1)
  }

  /** An unsigned number: digits with an optional fractional part after one '.'. */
  function ParseUnsignedNumber(body: string): Option<real> {
    match FindDot(body)
    case None =>
      if |body| > 0 && AllDigits(body) then Some(DigitsValue(body) as real) else None
    case Some(p) =>
      var whole, fraction := body[..p], body[p + 1..];
      if |whole| + |fraction| > 0 && AllDigits(whole) && AllDigits(fraction) then
        Some(DigitsValue(whole + fraction) as real / Pow10(|fraction|) as real)
      else
        None
  }

  /** Python's `float(text)` on the modelled grammar; `None` stands for the ValueError. */
  function ParseNumber(s: string): (r: Option<real>)
    ensures r.Some? ==> |s| > 0 && NumberAlphabet(s)
    ensures r.Some? && r.value < 0.0 ==> s[0] == '-'
  {
    var (negative, body) := SplitSign(s);
    match ParseUnsignedNumber(body)
    case None => None
    case Some(m) => Some(if negative then -m else m)
  }

  /** Canonical decimal spelling of a natural number (no sign, no leading zeros). */
  function FormatNat(n: nat): (s: string)
    ensures |s| > 0 && AllDigits(s)
  {
    if n < 10 then [DigitChar(n)] else FormatNat(n / 10) + [DigitChar(n % 10)]
  }

  /** Canonical decimal spelling of an integer, as Python's `str(n)` writes it. */
  function FormatInt(n: int): (s: string)
    ensures |s| > 0
  {
    if n < 0 then "-" + FormatNat(-n) else FormatNat(n)
  }

  lemma {:induction false} FormatNatValue(n: nat)
    ensures DigitsValue(FormatNat(n)) == n
  {
    if n >= 10 {
      var s := FormatNat(n);
      assert s[..|s| - 1] == FormatNat(n / 10);
      FormatNatValue(n / 10);
    }
  }

  /** Every integer written canonically parses back to itself. */
  lemma IntRoundTrip(n: int)
    ensures ParseInt(FormatInt(n)) == Some(n)
  {
    var magnitude: nat := if n < 0 then -n else n;
    var digits := FormatNat(magnitude);
    FormatNatValue(magnitude);
    if n < 0 {
      assert SplitSign(FormatInt(n)) == (true, digits) by {
        assert ("-" + digits)[1..] == digits;
      }
    } else {
      assert SplitSign(FormatInt(n)) == (false, digits) by {
        assert IsDigit(digits[0]);
      }
    }
    ReadSignedDigits(FormatInt(n), n < 0, digits);
  }

  /** Text that splits into a sign and a non-empty digit string reads as their signed value. */
  lemma ReadSignedDigits(s: string, negative: bool, body: string)
    requires SplitSign(s) == (negative, body) && |body| > 0 && AllDigits(body)
    ensures ParseInt(s) == Some(if negative then -(DigitsValue(body) as int) else DigitsValue(body) as int)
  {
  }

  /** `float` accepts every integer literal `int` accepts, with the same value. */
  lemma NumberAcceptsIntegers(s: string, n: int)
    requires ParseInt(s) == Some(n)
    ensures ParseNumber(s) == Some(n as real)
  {
    var (negative, body) := SplitSign(s);
    DigitsHaveNoDot(body);
  }

  lemma DigitsHaveNoDot(s: string)
    requires AllDigits(s)
    ensures '.' !in s
  {
    forall i | 0 <= i < |s|
      ensures s[i] != '.'
    {
      assert IsDigit(s[i]);
    }
  }

  /** In a digit string followed by '.', the first dot sits right after the digits. */
  lemma {:induction false} FindDotAfterDigits(w: string, rest: string)
    requires AllDigits(w) && |rest| > 0 && rest[0] == '.'
    ensures FindDot(w + rest) == Some(|w|)
  {
    if |w| > 0 {
      assert (w + rest)[1..] == w[1..] + rest;
      FindDotAfterDigits(w[1..], rest);
    } else {
      assert w + rest == rest;
    }
  }

  /** Digits of a concatenation: the left part is shifted by the length of the right part. */
  lemma {:induction false} DigitsValueConcat(a: string, b: string)
    requires AllDigits(a) && AllDigits(b)
    ensures AllDigits(a + b)
    ensures DigitsValue(a + b) == DigitsValue(a) * Pow10(|b|) + DigitsValue(b)
  {
    if |b| > 0 {
      var b', last := b[..|b| - 1], b[|b| - 1];
      assert (a + b)[..|a + b| - 1] == a + b';
      assert (a + b)[|a + b| - 1] == last;
      DigitsValueConcat(a, b');
      var x, p, y, d := DigitsValue(a), Pow10(|b'|), DigitsValue(b'), DigitValue(last);
      assert DigitsValue(a + b) == DigitsValue(a + b') * 10 + d;
      assert DigitsValue(b) == y * 10 + d;
      assert Pow10(|b|) == 10 * p;
      ShiftOneDigit(x, p, y, d);
    } else {
      assert a + b == a;
    }
  }

  lemma ShiftOneDigit(x: int, p: int, y: int, d: int)
    ensures (x * p + y) * 10 + d == x * (10 * p) + (y * 10 + d)
  {
  }

  lemma ScaleDown(n: nat, w: nat, f: nat, k: nat)
    requires k >= 1 && n == w * k + f
    ensures n as real / k as real == w as real + f as real / k as real
  {
  }

  /** The textbook meaning of the decimal `w.f`: whole part plus f / 10^|f|. */
  function PositionalValue(w: string, f: string): real
    requires AllDigits(w) && AllDigits(f)
  {
    DigitsValue(w) as real + DigitsValue(f) as real / Pow10(|f|) as real
  }

  /** An unsigned number whose first dot splits it into `w` and `f` is read from `w + f`. */
  lemma ParseAtDot(s: string, w: string, f: string)
    requires FindDot(s) == Some(|w|) && s[..|w|] == w && s[|w| + 1..] == f
    requires |w| + |f| > 0 && AllDigits(w) && AllDigits(f)
    ensures ParseUnsignedNumber(s) == Some(DigitsValue(w + f) as real / Pow10(|f|) as real)
  {
    var whole, fraction := s[..|w|], s[|w| + 1..];
    assert |whole| + |fraction| > 0 && AllDigits(whole) && AllDigits(fraction);
  }

  /** In `w.f` with a digit string `w`, the first dot sits between `w` and `f`. */
  lemma DotSplit(w: string, f: string)
    requires AllDigits(w)
    ensures FindDot(w + "." + f) == Some(|w|)
    ensures (w + "." + f)[..|w|] == w && (w + "." + f)[|w| + 1..] == f
  {
    var s := w + "." + f;
    assert s == w + ("." + f);
    FindDotAfterDigits(w, "." + f);
  }

  /** The unsigned reading of `w.f` is its positional value. */
  lemma UnsignedFraction(w: string, f: string)
    requires |w| + |f| > 0 && AllDigits(w) && AllDigits(f)
    ensures AllDigits(w + f)
    ensures ParseUnsignedNumber(w + "." + f) == Some(PositionalValue(w, f))
  {
    DigitsValueConcat(w, f);
    var scaled := DigitsValue(w + f) as real / Pow10(|f|) as real;
    assert ParseUnsignedNumber(w + "." + f) == Some(scaled) by {
      DotSplit(w, f);
      ParseAtDot(w + "." + f, w, f);
    }
    assert scaled == PositionalValue(w, f) by {
      ScaleDown(DigitsValue(w + f), DigitsValue(w), DigitsValue(f), Pow10(|f|));
    }
  }

  /**
    A literal `w.f` denotes its whole part plus its fraction digits scaled down by
    ten to the number of fraction digits; either part may be empty, not both.
  */
  lemma FractionValue(w: string, f: string)
    requires |w| + |f| > 0 && AllDigits(w) && AllDigits(f)
    ensures ParseNumber(w + "." + f) == Some(PositionalValue(w, f))
  {
    var s := w + "." + f;
    assert SplitSign(s) == (false, s) by {
      assert s[0] == if |w| > 0 then w[0] else '.';
    }
    UnsignedFraction(w, f);
  }

  /** A leading '-' negates the value of `w.f`, and a leading '+' keeps it. */
  lemma SignedFractionValue(sign: char, w: string, f: string)
    requires sign == '-' || sign == '+'
    requires |w| + |f| > 0 && AllDigits(w) && AllDigits(f)
    ensures ParseNumber([sign] + (w + "." + f))
         == Some(if sign == '-' then -PositionalValue(w, f) else PositionalValue(w, f))
  {
    var body, m := w + "." + f, PositionalValue(w, f);
    assert ParseUnsignedNumber(body) == Some(m) by {
      UnsignedFraction(w, f);
    }
    if sign == '-' {
      SignThenBody('-', body, m);
    } else {
      SignThenBody('+', body, m);
    }
  }

  /** A sign in front of a body the unsigned reader accepts applies to its value. */
  lemma SignThenBody(sign: char, body: string, m: real)
    requires sign == '-' || sign == '+'
    requires ParseUnsignedNumber(body) == Some(m)
    ensures ParseNumber([sign] + body) == Some(if sign == '-' then -m else m)
  {
    assert SplitSign([sign] + body) == (sign == '-', body) by {
      assert ([sign] + body)[1..] == body;
    }
  }
}

/**
 * The two numeric conversions the bill parser applies to tokens: Python's
 * `int(token)` for the quantity and `float(token)` for the billed price.
 * Both are modelled on whitespace-free tokens (the only kind the parser
 * hands them) with exact arithmetic: `int` is an optional sign followed by
 * ASCII digits, `float` an optional sign followed by a decimal literal with
 * at most one point.
 */
module Numbers {
  import opened Options

  predicate IsDigit(c: char) {
    '0' <= c <= '9'
  }

  predicate AllDigits(s: string) {
    forall i :: 0 <= i < |s| ==> IsDigit(s[i])
  }

  function DigitValue(c: char): nat
    requires IsDigit(c)
  {
    c as int - '0' as int
  }

  function DigitChar(d: nat): (c: char)
    requires d < 10
    ensures IsDigit(c) && DigitValue(c) == d
  {
    ('0' as int + d) as char
  }

  function Pow10(k: nat): (p: nat)
    ensures p >= 1
  {
    if k == 0 then 1 else 10 * Pow10(k - 1)
  }

  /** The value of a string of decimal digits, most significant first
      (leading zeros allowed, the empty string reads as 0). */
  function DigitsValue(s: string): nat
    requires AllDigits(s)
  {
    if s == [] then 0 else 10 * DigitsValue(s[..|s| - 1]) + DigitValue(s[|s| - 1])
  }

  /** The digits of `b` shift those of `a` left by `|b|` places. */
  lemma {:induction false} DigitsValueAppend(a: string, b: string)
    requires AllDigits(a) && AllDigits(b)
    ensures AllDigits(a + b)
    ensures DigitsValue(a + b) == DigitsValue(a) * Pow10(|b|) + DigitsValue(b)
    decreases |b|
  {
    assert AllDigits(a + b) by {
      assert forall i :: 0 <= i < |a| ==> (a + b)[i] == a[i];
      assert forall i :: |a| <= i < |a + b| ==> (a + b)[i] == b[i - |a|];
    }
    if b == [] {
      assert a + b == a;
    } else {
      var b' := b[..|b| - 1];
      var d := DigitValue(b[|b| - 1]);
      assert AllDigits(b');
      assert (a + b)[..|a + b| - 1] == a + b';
      assert (a + b)[|a + b| - 1] == b[|b| - 1];
      DigitsValueAppend(a, b');
      var x := DigitsValue(a);
      var p := Pow10(|b'|);
      var y := DigitsValue(b');
      assert DigitsValue(a + b) == 10 * (x * p + y) + d;
      assert DigitsValue(b) == 10 * y + d;
      assert Pow10(|b|) == 10 * p;
      ShiftByTen(x, p);
    }
  }

  lemma ShiftByTen(x: int, p: int)
    ensures 10 * (x * p) == x * (10 * p)
  {
  }

  /** `str(n)` for a natural number: its decimal digits without leading
      zeros.  Reading them back gives `n`. */
  function NatText(n: nat): (s: string)
    ensures s != [] && AllDigits(s)
    ensures DigitsValue(s) == n
    ensures |s| > 1 ==> s[0] != '0'
  {
    if n < 10 then [DigitChar(n)]
    else
      var s := NatText(n / 10) + [DigitChar(n % 10)];
      assert s[..|s| - 1] == NatText(n / 10);
      s
  }

  /** `str(i)` for an integer: a minus sign for negatives, then the digits. */
  function IntText(i: int): (s: string)
    ensures s != []
    ensures i < 0 <==> s[0] == '-'
    ensures forall k :: 0 <= k < |s| ==> IsDigit(s[k]) || (k == 0 && s[k] == '-')
  {
    if i < 0 then "-" + NatText(-i) else NatText(i)
  }

  /** A leading sign character, as both `int()` and `float()` accept it:
      whether the number is negated, and the unsigned rest. */
  function SplitSign(t: string): (r: (bool, string))
    ensures r.1 == t || (t != [] && (t[0] == '+' || t[0] == '-') && r.1 == t[1..])
    ensures r.0 <==> t != [] && t[0] == '-'
  {
    if t != [] && (t[0] == '+' || t[0] == '-') then (t[0] == '-', t[1..]) else (false, t)
  }

  /** `int(token)`: `None` where Python raises `ValueError`.  An accepted
      token is a sign or digit followed by digits only, so "3.5", "two" or
      "1e3" are rejected; its value is negative only behind a minus sign. */
  function ParseInt(t: string): (r: Option<int>)
    ensures r.Some? ==> t != [] && IsDigit(t[|t| - 1])
    ensures r.Some? ==> forall i :: 0 < i < |t| ==> IsDigit(t[i])
    ensures r.Some? ==> IsDigit(t[0]) || t[0] == '+' || t[0] == '-'
    ensures r.Some? && r.value < 0 ==> t[0] == '-'
  {
    var (neg, body) := SplitSign(t);
    if body != [] && AllDigits(body) then
      var n: int := DigitsValue(body);
      Some(if neg then -n else n)
    else None
  }

  /** An optional sign written in front of a number: nothing, '+' or '-'. */
  predicate IsSign(sign: string) {
    |sign| <= 1 && (sign != [] ==> sign[0] == '+' || sign[0] == '-')
  }

  predicate Minus(sign: string) {
    sign != [] && sign[0] == '-'
  }

  /** `int()` reads every sign-and-digits token: an optional '+' or '-'
      followed by decimal digits, leading zeros allowed. */
  lemma ParseIntOfDigits(sign: string, d: string)
    requires IsSign(sign)
    requires d != [] && AllDigits(d)
    ensures ParseInt(sign + d) == Some(if Minus(sign) then -(DigitsValue(d) as int) else DigitsValue(d) as int)
  {
    SplitSignOf(sign, d);
  }

  /** `int(str(i)) == i` for every integer. */
  lemma ParseIntText(i: int)
    ensures ParseInt(IntText(i)) == Some(i)
  {
    var s := IntText(i);
    if i < 0 {
      assert s[1..] == NatText(-i);
    } else {
      assert IsDigit(s[0]);
    }
  }

  /** Index of the first '.' in `s`, or `|s|` when there is none. */
  function DotIndex(s: string): (k: nat)
    ensures k <= |s|
    ensures '.' !in s[..k]
    ensures k < |s| ==> s[k] == '.'
  {
    if s == [] || s[0] == '.' then 0
    else
      var k := 1 + DotIndex(s[1..]);
      assert s[..k] == [s[0]] + s[1..][..k - 1];
      k
  }

  lemma DotIndexAfterDigits(a: string, b: string)
    requires AllDigits(a)
    ensures DotIndex(a + b) == |a| + DotIndex(b)
    decreases |a|
  {
    if a == [] {
      assert a + b == b;
    } else {
      assert (a + b)[1..] == a[1..] + b;
      DotIndexAfterDigits(a[1..], b);
    }
  }

  /** The value of a decimal literal with `whole` before the point and the
      digit string `frac` after it. */
  function DecimalValue(whole: nat, frac: string): real
    requires AllDigits(frac)
  {
    whole as real + DigitsValue(frac) as real / Pow10(|frac|) as real
  }

  /** An unsigned decimal literal: digits, or digits around one '.', with at
      least one digit in all ("5", "5.", ".5", "35.50"). */
  function ParseUnsigned(s: string): (r: Option<real>)
    ensures r.Some? ==> s != [] && forall i :: 0 <= i < |s| ==> IsDigit(s[i]) || s[i] == '.'
    ensures r.Some? ==> r.value >= 0.0
    ensures r.Some? ==> exists i :: 0 <= i < |s| && IsDigit(s[i])
    ensures r.Some? ==> forall i :: 0 <= i < |s| && s[i] == '.' ==> i == DotIndex(s)
  {
    var k := DotIndex(s);
    if k == |s| then
      if s != [] && AllDigits(s) then
        assert IsDigit(s[0]);
        Some(DigitsValue(s) as real)
      else None
    else
      var whole := s[..k];
      var frac := s[k + 1..];
      if AllDigits(whole) && AllDigits(frac) && (whole != [] || frac != []) then
        assert s == whole + "." + frac;
        OnePoint(s, k);
        assert whole != [] ==> IsDigit(s[0]);
        assert whole == [] ==> s[k + 1] == frac[0];
        Some(DecimalValue(DigitsValue(whole), frac))
      else None
  }

  /** The point at index `k` is the only one when digits surround it. */
  lemma OnePoint(s: string, k: nat)
    requires k < |s| && s[k] == '.'
    requires '.' !in s[..k] && AllDigits(s[k + 1..])
    ensures forall i :: 0 <= i < |s| && s[i] == '.' ==> i == k
  {
    forall i | 0 <= i < |s| && i != k
      ensures s[i] != '.'
    {
      if i < k {
        assert s[i] == s[..k][i];
      } else {
        assert s[i] == s[k + 1..][i - k - 1];
      }
    }
  }

  /** `float()` reads every decimal literal with a point: digits before it,
      digits after it, at least one digit in all ("5.", ".5", "007.50"). */
  lemma ParseUnsignedLiteral(whole: string, frac: string)
    requires AllDigits(whole) && AllDigits(frac) && (whole != [] || frac != [])
    ensures ParseUnsigned(whole + "." + frac) == Some(DecimalValue(DigitsValue(whole), frac))
  {
    var s := whole + "." + frac;
    assert s == whole + ("." + frac);
    DotIndexAfterDigits(whole, "." + frac);
    assert DotIndex(s) == |whole|;
    assert s[..|whole|] == whole;
    assert s[|whole| + 1..] == frac;
  }

  /** `float(token)` on decimal literals: `None` where the model rejects the
      token.  Every accepted token is a sign or digit or point followed by
      digits and points only, and every token `int()` accepts is accepted
      with the same value. */
  function ParseFloat(t: string): (r: Option<real>)
    ensures r.Some? ==> t != [] && forall i :: 0 < i < |t| ==> IsDigit(t[i]) || t[i] == '.'
    ensures r.Some? ==> IsDigit(t[0]) || t[0] == '.' || t[0] == '+' || t[0] == '-'
    ensures ParseInt(t).Some? ==> r == Some(ParseInt(t).value as real)
  {
    var (neg, body) := SplitSign(t);
    match ParseUnsigned(body)
    case None => None
    case Some(v) => Some(if neg then -v else v)
  }

  /** `float()` raises on a token without a digit (".", "-.") or with two
      points ("1.2."), so every token the model accepts has a digit and at
      most one point. */
  lemma ParseFloatWellFormed(t: string)
    ensures ParseFloat(t).Some? ==> exists i :: 0 <= i < |t| && IsDigit(t[i])
    ensures ParseFloat(t).Some? ==> forall i, j :: 0 <= i < j < |t| && t[i] == '.' ==> t[j] != '.'
  {
    var (neg, body) := SplitSign(t);
    if ParseUnsigned(body).Some? {
      var off := |t| - |body|;
      assert off == 0 || off == 1;
      assert off == 1 ==> t[0] != '.' && body == t[1..];
      assert off == 0 ==> body == t;
      var d :| 0 <= d < |body| && IsDigit(body[d]);
      assert t[d + off] == body[d];
      forall i, j | 0 <= i < j < |t| && t[i] == '.'
        ensures t[j] != '.'
      {
        assert i >= off;
        assert t[i] == body[i - off] && t[j] == body[j - off];
      }
    }
  }

  /** The two tokens that raise in `float()` for the reasons above. */
  lemma ParseFloatRejects()
    ensures ParseFloat(".") == None
    ensures ParseFloat("1.2.") == None
  {
    ParseFloatWellFormed(".");
    assert !IsDigit("."[0]);
    ParseFloatWellFormed("1.2.");
    assert "1.2."[1] == '.' && "1.2."[3] == '.';
  }

  /** The text of a price: an optional minus sign, the whole part as `str()`
      writes it and, when `frac` is non-empty, a point and `frac`. */
  function PriceText(negative: bool, whole: nat, frac: string): (s: string)
    requires AllDigits(frac)
    ensures s != []
    ensures forall k :: 0 <= k < |s| ==> IsDigit(s[k]) || s[k] == '.' || (k == 0 && s[k] == '-')
  {
    (if negative then "-" else "") + UnsignedPriceText(whole, frac)
  }

  /** The unsigned part of a written price: the digits of `whole`, then a
      point and `frac` when `frac` is non-empty. */
  function UnsignedPriceText(whole: nat, frac: string): string
    requires AllDigits(frac)
  {
    NatText(whole) + (if frac == [] then "" else "." + frac)
  }

  lemma ParseUnsignedPriceText(whole: nat, frac: string)
    requires AllDigits(frac)
    ensures ParseUnsigned(UnsignedPriceText(whole, frac)) == Some(DecimalValue(whole, frac))
  {
    var w := NatText(whole);
    var body := UnsignedPriceText(whole, frac);
    if frac == [] {
      assert body == w;
      assert DecimalValue(whole, frac) == whole as real;
      DotIndexAfterDigits(w, "");
      assert w + "" == w;
    } else {
      DotIndexAfterDigits(w, "." + frac);
      assert DotIndex(body) == |w|;
      assert body[..|w|] == w;
      assert body[|w| + 1..] == frac;
    }
  }

  /** `float()` reads a written price back as its exact decimal value. */
  lemma {:induction false} ParseFloatPriceText(negative: bool, whole: nat, frac: string)
    requires AllDigits(frac)
    ensures ParseFloat(PriceText(negative, whole, frac))
         == Some(if negative then -DecimalValue(whole, frac) else DecimalValue(whole, frac))
  {
    var w := NatText(whole);
    var body := UnsignedPriceText(whole, frac);
    var t := PriceText(negative, whole, frac);
    if negative {
      assert t == "-" + body;
      assert t[1..] == body;
    } else {
      assert t == body;
      assert t[0] == w[0];
    }
    assert SplitSign(t) == (negative, body);
    ParseUnsignedPriceText(whole, frac);
  }

  /** `float()` reads a signed decimal literal with a point, '+' included,
      as its exact value.  The literal is passed as `lit` rather than written
      out in the ensures: naming it keeps the proof small for the solver. */
  lemma ParseFloatOfLiteral(sign: string, whole: string, frac: string, lit: string)
    requires IsSign(sign)
    requires AllDigits(whole) && AllDigits(frac) && (whole != [] || frac != [])
    requires lit == whole + "." + frac
    ensures ParseUnsigned(lit) == Some(DecimalValue(DigitsValue(whole), frac))
    ensures ParseFloat(sign + lit) == Some(if Minus(sign) then -DecimalValue(DigitsValue(whole), frac) else DecimalValue(DigitsValue(whole), frac))
  {
    ParseUnsignedLiteral(whole, frac);
    ParseFloatOfBody(sign, lit, DecimalValue(DigitsValue(whole), frac));
  }

  /** A sign in front of an accepted unsigned literal only sets the sign of
      its value. */
  lemma ParseFloatOfBody(sign: string, body: string, v: real)
    requires IsSign(sign)
    requires ParseUnsigned(body) == Some(v)
    ensures ParseFloat(sign + body) == Some(if Minus(sign) then -v else v)
  {
    SplitSignOf(sign, body);
  }

  /** A sign in front of a body that starts with a digit or point is split
      off as the sign. */
  lemma SplitSignOf(sign: string, body: string)
    requires IsSign(sign)
    requires body != [] && (IsDigit(body[0]) || body[0] == '.')
    ensures SplitSign(sign + body) == (Minus(sign), body)
  {
    var t := sign + body;
    if sign == [] {
      assert t == body;
    } else {
      assert t[0] == sign[0];
      assert t[1..] == body;
    }
  }
}

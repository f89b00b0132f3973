/**
 * `parseFloat` as the time tracker uses it: skip leading white space, read the longest
 * prefix that is a decimal literal (optional sign, digits, optional fraction, optional
 * exponent), and yield None (JavaScript's NaN) when no prefix is one.
 */
module Numbers {
  import opened Wrappers
  import opened JsText

  /** True of the characters that can begin a decimal literal. */
  predicate MayStartNumber(c: char)
  {
    IsDigit(c) || c == '+' || c == '-' || c == '.'
  }

  /** The exponent denoted by an exponent part (`e` or `E`, an optional sign, at least one
      digit) at the start of `s`; 0 when `s` does not start with a complete one. */
  function Exponent(s: string): int
  {
    if |s| >= 2 && (s[0] == 'e' || s[0] == 'E') then
      var negative := s[1] == '-';
      var d := if s[1] == '+' || s[1] == '-' then s[2..] else s[1..];
      var k := DigitSpan(d);
      if k == 0 then 0 else if negative then -(DigitsValue(d[..k]) as int) else DigitsValue(d[..k])
    else 0
  }

  /** A mantissa scaled by 10 raised to an exponent, one factor of 10 at a time. */
  function Scaled(m: real, e: int): real
    decreases if e < 0 then -e else e
  {
    if e == 0 then m
    else if e > 0 then Scaled(m, e - 1) * 10.0
    else Scaled(m, e + 1) / 10.0
  }

  /** The text after an optional leading sign. */
  function Unsigned(t: string): (u: string)
    ensures |u| <= |t| && u == t[|t| - |u|..]
  {
    if |t| > 0 && (t[0] == '+' || t[0] == '-') then t[1..] else t
  }

  /** The value of the digits after a decimal point: 0.d1d2... is (d1 + 0.d2...) / 10. */
  function FractionValue(ds: string): real
    requires AllDigits(ds)
  {
    if ds == [] then 0.0 else (DigitValue(ds[0]) as real + FractionValue(ds[1..])) / 10.0
  }

  /** Reads the digits, optional decimal point and optional fraction digits at the start
      of `u`; yields their value and the text after them, or None when there is no digit
      on either side of the point. */
  function Mantissa(u: string): Option<(real, string)>
  {
    var n := DigitSpan(u);
    if n < |u| && u[n] == '.' then PointMantissa(u[..n], u[n + 1..])
    else if n == 0 then None
    else Some((DigitsValue(u[..n]) as real, u[n..]))
  }

  /** The mantissa once the point after the whole digits `whole` is found: the digits
      of `after` that follow it are the fraction. */
  function PointMantissa(whole: string, after: string): Option<(real, string)>
    requires AllDigits(whole)
  {
    var f := DigitSpan(after);
    if whole == [] && f == 0 then None
    else Some((DigitsValue(whole) as real + FractionValue(after[..f]), after[f..]))
  }

  /** The decimal literal at the very start of `t`: an optional sign, a mantissa and an
      optional exponent; None when `t` does not start with one. */
  function ParseLiteral(t: string): Option<real>
  {
    var u := Unsigned(t);
    match Mantissa(u)
    case None => None
    case Some((m, rest)) =>
      var magnitude := Scaled(m, Exponent(rest));
      Some(if |t| > 0 && t[0] == '-' then -magnitude else magnitude)
  }

  /** `parseFloat(text)`, with None for NaN: leading white space is skipped one character
      at a time, then the literal is read. "Infinity" is not recognised. */
  function ParseFloat(text: string): Option<real>
  {
    if text != [] && IsSpace(text[0]) then ParseFloat(text[1..]) else ParseLiteral(text)
  }

  /** Skipping white space as `parseFloat` does is reading the literal after `trimStart`. */
  lemma {:induction false} ParseFloatTrimStart(text: string)
    ensures ParseFloat(text) == ParseLiteral(TrimStart(text))
  {
    if text != [] && IsSpace(text[0]) {
      ParseFloatTrimStart(text[1..]);
    }
  }

  /** A text parses to a number only if it holds a digit. */
  lemma {:induction false} ParseFloatNeedsDigit(text: string)
    ensures ParseFloat(text).Some? ==> HasDigit(text)
  {
    if text != [] && IsSpace(text[0]) {
      ParseFloatNeedsDigit(text[1..]);
      HasDigitSlice(text, 1, |text|);
    } else {
      LiteralNeedsDigit(text);
    }
  }

  lemma LiteralNeedsDigit(t: string)
    ensures ParseLiteral(t).Some? ==> HasDigit(t)
  {
    var u := Unsigned(t);
    MantissaNeedsDigit(u);
    HasDigitSlice(t, |t| - |u|, |t|);
  }

  lemma MantissaNeedsDigit(u: string)
    ensures Mantissa(u).Some? ==> HasDigit(u)
  {
    var n := DigitSpan(u);
    if n > 0 {
      assert IsDigit(u[..n][0]);
    } else if n < |u| && u[n] == '.' {
      var f := DigitSpan(u[n + 1..]);
      if f > 0 {
        assert IsDigit(u[n + 1..][..f][0]);
        assert u[n + 1] == u[n + 1..][..f][0];
      }
    }
  }

  /** A text whose first non-space character cannot begin a literal is not a number. */
  lemma ParseFloatNotNumber(text: string)
    requires TrimStart(text) == [] || !MayStartNumber(TrimStart(text)[0])
    ensures ParseFloat(text).None?
  {
    var t := TrimStart(text);
    ParseFloatTrimStart(text);
    assert Unsigned(t) == t;
    if t != [] {
      assert DigitSpan(t) == 0;
    }
  }

  /** `parseFloat(text) || 0`: NaN (and zero) become 0. */
  function OrZero(r: Option<real>): real
  {
    r.GetOr(0.0)
  }

  /** The mantissa of a run of digits followed by a non-digit, non-point text is the run's value. */
  lemma MantissaOfRun(ds: string, rest: string)
    requires AllDigits(ds) && ds != []
    requires rest == [] || !(IsDigit(rest[0]) || rest[0] == '.')
    ensures Mantissa(ds + rest) == Some((DigitsValue(ds) as real, rest))
  {
    DigitSpanOfRun(ds, rest);
    assert (ds + rest)[..|ds|] == ds;
    assert (ds + rest)[|ds|..] == rest;
  }

  /** A text that starts with a digit parses as its mantissa scaled by its exponent. */
  lemma ParsePlain(s: string, m: real, rest: string)
    requires s != [] && IsDigit(s[0]) && Mantissa(s) == Some((m, rest))
    ensures ParseFloat(s) == Some(Scaled(m, Exponent(rest)))
  {
    LiteralOfUnsigned(s, m, rest);
  }

  lemma LiteralOfUnsigned(s: string, m: real, rest: string)
    requires s != [] && IsDigit(s[0]) && Mantissa(s) == Some((m, rest))
    ensures ParseLiteral(s) == Some(Scaled(m, Exponent(rest)))
  {
    assert Unsigned(s) == s;
  }

  /** A text that does not start an exponent part scales by 10^0 = 1. */
  lemma NoExponent(m: real, rest: string)
    requires rest == [] || !(rest[0] == 'e' || rest[0] == 'E')
    ensures Scaled(m, Exponent(rest)) == m
  {
  }

  /** A text that starts with a digit and is all mantissa parses to the mantissa's value. */
  lemma ParseWholeMantissa(s: string, m: real)
    requires s != [] && IsDigit(s[0]) && Mantissa(s) == Some((m, []))
    ensures ParseFloat(s) == Some(m)
  {
    ParsePlain(s, m, []);
    NoExponent(m, []);
  }

  /** A run of digits, followed by text that cannot continue a literal, parses to the run's value. */
  lemma ParseRun(ds: string, rest: string)
    requires AllDigits(ds) && ds != []
    requires rest == [] || !(IsDigit(rest[0]) || rest[0] == '.' || rest[0] == 'e' || rest[0] == 'E')
    ensures ParseFloat(ds + rest) == Some(DigitsValue(ds) as real)
  {
    var v := DigitsValue(ds) as real;
    assert (ds + rest)[0] == ds[0];
    MantissaOfRun(ds, rest);
    ParsePlain(ds + rest, v, rest);
    NoExponent(v, rest);
  }

  /** A rendered natural number, followed by text that cannot continue a literal, parses to that number. */
  lemma ParseNumeral(n: nat, rest: string)
    requires rest == [] || !(IsDigit(rest[0]) || rest[0] == '.' || rest[0] == 'e' || rest[0] == 'E')
    ensures ParseFloat(NatToString(n) + rest) == Some(n as real)
  {
    ParseRun(NatToString(n), rest);
    NatToStringValue(n);
  }
  /** The pieces of `ws.ds`: the whole digits, the point, and the fraction digits. */
  lemma FractionPieces(ws: string, ds: string)
    requires AllDigits(ws) && ws != [] && AllDigits(ds)
    ensures var u := ws + "." + ds;
      && DigitSpan(u) == |ws| && |ws| < |u| && u[|ws|] == '.' && u[..|ws|] == ws
      && u[|ws| + 1..] == ds && DigitSpan(ds) == |ds| && ds[..|ds|] == ds && ds[|ds|..] == []
  {
    assert ws + "." + ds == ws + ("." + ds);
    DigitSpanOfRun(ws, "." + ds);
    DigitSpanOfRun(ds, []);
    assert ds + [] == ds;
  }

  /** The mantissa of `ws.ds`, two digit runs around a point, is ws + ds / 10^|ds|. */
  lemma MantissaOfFraction(ws: string, ds: string)
    requires AllDigits(ws) && ws != [] && AllDigits(ds)
    ensures Mantissa(ws + "." + ds) == Some((DigitsValue(ws) as real + FractionValue(ds), []))
  {
    var u := ws + "." + ds;
    FractionPieces(ws, ds);
    MantissaAtPoint(u, ws, ds);
    PointMantissaAll(ws, ds);
  }

  /** Once the whole digits `ws` and the point are read, the mantissa continues after the point. */
  lemma MantissaAtPoint(u: string, ws: string, after: string)
    requires AllDigits(ws)
    requires DigitSpan(u) == |ws| && |ws| < |u| && u[|ws|] == '.' && u[..|ws|] == ws && u[|ws| + 1..] == after
    ensures Mantissa(u) == PointMantissa(ws, after)
  {
  }

  /** Fraction digits that run to the end of the text are all of the fraction. */
  lemma PointMantissaAll(ws: string, ds: string)
    requires AllDigits(ws) && ws != [] && AllDigits(ds)
    requires DigitSpan(ds) == |ds| && ds[..|ds|] == ds && ds[|ds|..] == []
    ensures PointMantissa(ws, ds) == Some((DigitsValue(ws) as real + FractionValue(ds), []))
  {
  }

  /** `ws.ds`, two digit runs around a point, parses to ws + ds / 10^|ds|. */
  lemma ParseFraction(ws: string, ds: string)
    requires AllDigits(ws) && ws != [] && AllDigits(ds)
    ensures ParseFloat(ws + "." + ds) == Some(DigitsValue(ws) as real + FractionValue(ds))
  {
    ParseFractionOf(ws + "." + ds, ws, ds);
  }

  lemma ParseFractionOf(u: string, ws: string, ds: string)
    requires AllDigits(ws) && ws != [] && AllDigits(ds)
    requires u == ws + "." + ds
    ensures ParseFloat(u) == Some(DigitsValue(ws) as real + FractionValue(ds))
  {
    assert u[0] == ws[0];
    MantissaOfFraction(ws, ds);
    ParseWholeMantissa(u, DigitsValue(ws) as real + FractionValue(ds));
  }

  /** A minus sign before a rendered natural number parses to its negation. */
  lemma ParseNegativeNumeral(n: nat)
    ensures ParseFloat("-" + NatToString(n)) == Some(-(n as real))
  {
    ParseNegativeOf("-" + NatToString(n), n);
  }

  lemma ParseNegativeOf(t: string, n: nat)
    requires t == "-" + NatToString(n)
    ensures ParseFloat(t) == Some(-(n as real))
  {
    var ds := NatToString(n);
    assert t[0] == '-' && Unsigned(t) == ds;
    MantissaOfRun(ds, []);
    assert ds + [] == ds;
    NoExponent(n as real, []);
    NatToStringValue(n);
  }
}

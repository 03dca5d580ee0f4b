/** float(token) on the tokens an expression can hand it: decimal numerals
    with at most one '.', at least one digit, and optional whitespace
    around them. Anything else is a parse failure. */
module Literal {
  import opened Values
  import opened Text

  predicate IsDigit(c: char) { '0' <= c <= '9' }

  predicate AllDigits(s: string) { forall i :: 0 <= i < |s| ==> IsDigit(s[i]) }

  function DigitValue(c: char): (d: nat)
    requires IsDigit(c)
    ensures d < 10
  {
    c as int - '0' as int
  }

  /** The value of a run of decimal digits, most significant first. */
  function DigitsValue(s: string): nat
    requires AllDigits(s)
  {
    if s == [] then 0 else DigitsValue(s[..|s| - 1]) * 10 + DigitValue(s[|s| - 1])
  }

  /** The digits before the first '.' of a token (all of it without one). */
  function WholePart(t: string): (w: string)
    ensures |w| <= |t| && forall k :: 0 <= k < |w| ==> w[k] == t[k]
  {
    match FirstIndex(t, '.') case None => t case Some(i) => t[..i]
  }

  /** The digits after the first '.' of a token (none without one). */
  function FracPart(t: string): (f: string)
  {
    match FirstIndex(t, '.') case None => "" case Some(i) => t[i + 1..]
  }

  /** The shape float() accepts once whitespace is gone: digits and at most
      one '.', with at least one digit. */
  predicate IsNumeral(t: string) {
    (forall k :: 0 <= k < |t| ==> IsDigit(t[k]) || t[k] == '.') &&
    multiset(t)['.'] <= 1 && multiset(t)['.'] < |t|
  }

  /** float(s): Some(value) when s is a decimal numeral, None when Python
      would raise ValueError. */
  function ParseLiteral(s: string): (r: Option<real>)
    ensures r.Some? ==> r.value >= 0.0
    ensures r.Some? ==> Trim(s) != []
  {
    ParseNumeral(Trim(s))
  }

  /** float() accepts exactly the numerals with whitespace around them. */
  lemma ParseLiteralIff(s: string)
    ensures ParseLiteral(s).Some? <==> IsNumeral(Trim(s))
  {
    ParseNumeralIff(Trim(s));
  }

  /** A token without surrounding whitespace as a decimal numeral. */
  function ParseNumeral(t: string): (r: Option<real>)
    ensures r.Some? ==> r.value >= 0.0
    ensures r.Some? ==> t != []
  {
    var whole, frac := WholePart(t), FracPart(t);
    if AllDigits(whole) && AllDigits(frac) && |whole| + |frac| > 0 then
      assert t == [] ==> whole == [] && frac == [];
      Some(DigitsValue(whole) as real + Fraction(frac))
    else None
  }

  /** The tokens that parse are exactly the numerals. */
  lemma ParseNumeralIff(t: string)
    ensures ParseNumeral(t).Some? <==> IsNumeral(t)
  {
    NumeralShape(t);
  }

  /** Splitting at the first '.' into two runs of digits, not both empty,
      is the same as being a numeral. */
  lemma NumeralShape(t: string)
    ensures AllDigits(WholePart(t)) && AllDigits(FracPart(t)) && |WholePart(t)| + |FracPart(t)| > 0 <==> IsNumeral(t)
  {
    match FirstIndex(t, '.')
    case None =>
      assert multiset(t)['.'] == 0;
    case Some(i) =>
      var w, f := t[..i], t[i + 1..];
      assert t == w + ['.'] + f;
      assert multiset(t)['.'] == multiset(w)['.'] + 1 + multiset(f)['.'];
      if IsNumeral(t) {
        PointedDigits(t, i);
      }
      if AllDigits(w) && AllDigits(f) && |w| + |f| > 0 {
        DigitsPointed(t, i);
      }
  }

  /** In a numeral, the characters on either side of the '.' are digits. */
  lemma PointedDigits(t: string, i: nat)
    requires IsNumeral(t) && i < |t| && t[i] == '.' && '.' !in t[..i]
    ensures AllDigits(t[..i]) && AllDigits(t[i + 1..])
  {
    var w, f := t[..i], t[i + 1..];
    assert t == w + ['.'] + f;
    assert multiset(t)['.'] == multiset(w)['.'] + 1 + multiset(f)['.'];
    assert '.' !in f;
    forall k | 0 <= k < |f| ensures IsDigit(f[k]) { assert f[k] == t[i + 1 + k]; }
    forall k | 0 <= k < |w| ensures IsDigit(w[k]) { assert w[k] == t[k]; }
  }

  /** Two runs of digits around one '.' make a numeral. */
  lemma DigitsPointed(t: string, i: nat)
    requires i < |t| && t[i] == '.' && AllDigits(t[..i]) && AllDigits(t[i + 1..])
    ensures forall k :: 0 <= k < |t| ==> IsDigit(t[k]) || t[k] == '.'
  {
    var w, f := t[..i], t[i + 1..];
    forall k | 0 <= k < |t| ensures IsDigit(t[k]) || t[k] == '.' {
      if k < i { assert t[k] == w[k]; } else if k > i { assert t[k] == f[k - i - 1]; }
    }
  }

  /** The value of the digits after the point, first digit in tenths:
      "25" stands for 0.25. */
  function Fraction(frac: string): (q: real)
    requires AllDigits(frac)
    ensures 0.0 <= q < 1.0
    ensures frac == [] ==> q == 0.0
  {
    if frac == [] then 0.0 else (DigitValue(frac[0]) as real + Fraction(frac[1..])) / 10.0
  }

  /** The decimal numeral of a natural number, without leading zeros. */
  function NatToDecimal(n: nat): (s: string)
    ensures |s| > 0 && AllDigits(s)
  {
    var d := ['0' + (n % 10) as char];
    if n < 10 then d else NatToDecimal(n / 10) + d
  }

  /** Reading back the numeral of n gives n. */
  lemma {:induction false} DecimalValue(n: nat)
    ensures DigitsValue(NatToDecimal(n)) == n
  {
    var s := NatToDecimal(n);
    if n >= 10 {
      DecimalValue(n / 10);
      assert s[..|s| - 1] == NatToDecimal(n / 10);
    }
  }

  lemma DigitsTrimmed(s: string)
    requires |s| > 0 && AllDigits(s)
    ensures Trim(s) == s
  {
  }

  /** A natural numeral parses as that number: float(str(n)) == n. */
  lemma ParseDecimal(n: nat)
    ensures ParseLiteral(NatToDecimal(n)) == Some(n as real)
  {
    var s := NatToDecimal(n);
    DigitsTrimmed(s);
    assert FirstIndex(s, '.') == None;
    DecimalValue(n);
  }

  /** The first '.' after a run of digits is the one that ends it. */
  lemma {:induction false} FirstDotAfterDigits(w: string, rest: string)
    requires AllDigits(w) && |rest| > 0 && rest[0] == '.'
    ensures FirstIndex(w + rest, '.') == Some(|w|)
  {
    if w != [] {
      assert w + rest == [w[0]] + (w[1..] + rest);
      FirstDotAfterDigits(w[1..], rest);
    }
  }

  /** A numeral "w.f" parses as the whole part plus the fraction. */
  lemma ParsePointed(w: string, f: string)
    requires |w| > 0 && AllDigits(w) && AllDigits(f)
    ensures ParseLiteral(w + "." + f) == Some(DigitsValue(w) as real + Fraction(f))
  {
    PointedTrimmed(w, f);
    PointedParts(w, f);
    NumeralOfParts(w + "." + f, w, f);
  }

  lemma NumeralOfParts(s: string, w: string, f: string)
    requires |w| > 0 && AllDigits(w) && AllDigits(f)
    requires WholePart(s) == w && FracPart(s) == f
    ensures ParseNumeral(s) == Some(DigitsValue(w) as real + Fraction(f))
  {
  }

  lemma PointedTrimmed(w: string, f: string)
    requires |w| > 0 && AllDigits(w) && AllDigits(f)
    ensures Trim(w + "." + f) == w + "." + f
  {
    var s := w + "." + f;
    assert s == w + ("." + f);
    assert !IsSpace(s[0]) by { assert s[0] == w[0]; }
    assert !IsSpace(s[|s| - 1]) by {
      if f == [] { assert s[|s| - 1] == '.'; } else { assert s[|s| - 1] == f[|f| - 1]; }
    }
  }

  lemma PointedParts(w: string, f: string)
    requires AllDigits(w)
    ensures WholePart(w + "." + f) == w && FracPart(w + "." + f) == f
  {
    var s := w + "." + f;
    assert s == w + ("." + f);
    FirstDotAfterDigits(w, "." + f);
    assert s[..|w|] == w;
    assert s[|w| + 1..] == f;
  }

  /** The way Python prints an integral float, "n.0", parses back as n. */
  lemma ParseDecimalPointZero(n: nat)
    ensures ParseLiteral(NatToDecimal(n) + ".0") == Some(n as real)
  {
    var w := NatToDecimal(n);
    assert w + ".0" == w + "." + "0";
    ParsePointed(w, "0");
    assert DigitsValue("0") == 0 by { assert "0"[..0] == ""; }
    assert Fraction("0") == 0.0;
    DecimalValue(n);
  }

  /** The empty token, as left by a leading or doubled operator, does not
      parse. */
  lemma EmptyDoesNotParse()
    ensures ParseLiteral("") == None
  {
  }
}

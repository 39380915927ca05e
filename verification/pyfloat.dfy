/**
 * Python's `float(text)` on the decimal subset of its grammar, with exact
 * values instead of IEEE-754 doubles.
 *
 *   floatvalue   ::= [sign] (numeral [exponent] | "inf" | "infinity" | "nan")
 *   numeral      ::= digits ["." [digits]] | "." digits
 *   exponent     ::= ("e" | "E") [sign] digits
 *
 * with whitespace allowed at both ends (ASCII space, tab, newline, vertical
 * tab, form feed, carriage return and the non-ASCII whitespace characters);
 * the three names are matched without regard to ASCII case.
 */
module PyFloat {
  import opened Wrappers
  import opened Text

  /** A float, kept exact: `Finite(neg, m, e)` denotes (-1)^neg * m * 10^e. */
  datatype Float = Finite(neg: bool, mant: nat, exp: int) | Infinity(neg: bool) | NaN

  /** The `0.0` the cleaners return by default. */
  const Zero: Float := Finite(false, 0, 0)

  function DigitValue(c: char): nat
    requires IsDigit(c)
  {
    c as int - '0' as int
  }

  /** The number a string of decimal digits spells, most significant first. */
  function DigitsValue(d: string): nat
    requires AllDigits(d)
  {
    if d == [] then 0 else 10 * DigitsValue(d[..|d| - 1]) + DigitValue(d[|d| - 1])
  }

  function DigitChar(n: nat): (c: char)
    requires n < 10
    ensures IsDigit(c) && DigitValue(c) == n
  {
    ('0' as int + n) as char
  }

  /** The decimal digits of `n` without leading zeros, and the digits spell `n` back. */
  function DigitsOf(n: nat): (d: string)
    ensures d != [] && AllDigits(d)
    ensures DigitsValue(d) == n
    ensures n > 0 ==> d[0] != '0'
  {
    if n < 10 then
      [DigitChar(n)]
    else
      var front := DigitsOf(n / 10);
      var d := front + [DigitChar(n % 10)];
      assert d[..|d| - 1] == front;
      assert d[0] == front[0];
      d
  }

  predicate IsExponentMark(c: char)
  {
    c == 'e' || c == 'E'
  }

  predicate IsInfName(v: string)
  {
    Lower(v) == "inf" || Lower(v) == "infinity"
  }

  predicate IsNanName(v: string)
  {
    Lower(v) == "nan"
  }

  /** The exponent suffix: nothing, or `[eE][+-]?digits`. */
  function ParseExponent(x: string): Option<int>
  {
    if x == [] then Some(0)
    else if !IsExponentMark(x[0]) then None
    else
      var y := x[1..];
      var b := if |y| > 0 && IsSign(y[0]) then 1 else 0;
      var d := y[b..];
      if d != [] && AllDigits(d) then
        var n: int := DigitsValue(d);
        Some(if b == 1 && y[0] == '-' then -n else n)
      else
        None
  }

  /** A numeral and its exponent, after the sign has been taken off. */
  function ParseNumeral(v: string, neg: bool): Option<Float>
  {
    var p := DigitRunEnd(v, 0);
    var q := if p < |v| && v[p] == '.' then DigitRunEnd(v, p + 1) else p;
    var whole := v[..p];
    var frac := if q > p then v[p + 1..q] else [];
    assert v[0..p] == whole;
    if |whole| + |frac| == 0 then None
    else
      match ParseExponent(v[q..])
      case None => None
      case Some(e) =>
        assert AllDigits(whole + frac);
        Some(Finite(neg, DigitsValue(whole + frac), e - |frac|))
  }

  /** U+001C..U+001F: whitespace to `str.isspace()`, but kept by `float()`. */
  predicate IsSeparator(c: char)
  {
    0x1c <= c as int <= 0x1f
  }

  /**
   * The whitespace `float()` discards at both ends. CPython keeps ASCII
   * characters as they are, turns every other whitespace character into a
   * space, and then trims only space, tab, newline, vertical tab, form feed
   * and carriage return.
   */
  predicate IsFloatSpace(c: char)
  {
    IsSpace(c) && !IsSeparator(c)
  }

  function FloatTrimStart(s: string): (r: string)
    ensures |r| <= |s|
  {
    if |s| > 0 && IsFloatSpace(s[0]) then FloatTrimStart(s[1..]) else s
  }

  function FloatTrimEnd(s: string): (r: string)
    ensures |r| <= |s|
  {
    if |s| > 0 && IsFloatSpace(s[|s| - 1]) then FloatTrimEnd(s[..|s| - 1]) else s
  }

  /** The text `float()` parses once its surrounding whitespace is gone. */
  function FloatStrip(s: string): string
  {
    FloatTrimEnd(FloatTrimStart(s))
  }

  /** `float(s)`: `None` where Python raises `ValueError`. */
  function ParseFloat(s: string): Option<Float>
  {
    ParseStripped(FloatStrip(s))
  }

  /** `float()` once the surrounding whitespace is gone. */
  function ParseStripped(u: string): Option<Float>
  {
    var signed := |u| > 0 && IsSign(u[0]);
    var neg := signed && u[0] == '-';
    var v := if signed then u[1..] else u;
    if IsInfName(v) then Some(Infinity(neg))
    else if IsNanName(v) then Some(NaN)
    else ParseNumeral(v, neg)
  }

  // ---------------------------------------------------------------------------
  // The grammar `float()` accepts, stated declaratively.

  /** `[digits] "." [digits]` with at least one digit. */
  predicate PointNumeral(t: string)
  {
    |t| > 1 && exists p :: 0 <= p < |t| && t[p] == '.' && AllDigits(t[..p]) && AllDigits(t[p + 1..])
  }

  predicate Numeral(t: string)
  {
    (t != [] && AllDigits(t)) || PointNumeral(t)
  }

  predicate SignedDigits(t: string)
  {
    (t != [] && AllDigits(t)) || (|t| > 1 && IsSign(t[0]) && AllDigits(t[1..]))
  }

  predicate Exponent(t: string)
  {
    t == [] || (IsExponentMark(t[0]) && SignedDigits(t[1..]))
  }

  predicate UnsignedLiteral(v: string)
  {
    IsInfName(v) || IsNanName(v) || exists b :: 0 <= b <= |v| && Numeral(v[..b]) && Exponent(v[b..])
  }

  /** A float literal with its surrounding whitespace already removed. */
  predicate FloatLiteral(u: string)
  {
    UnsignedLiteral(u) || (u != [] && IsSign(u[0]) && UnsignedLiteral(u[1..]))
  }

  // ---------------------------------------------------------------------------
  // The parser accepts exactly the grammar.

  lemma ExponentIff(x: string)
    ensures ParseExponent(x).Some? <==> Exponent(x)
  {
    if x != [] && IsExponentMark(x[0]) {
      var y := x[1..];
      if |y| > 0 && IsSign(y[0]) {
        assert y[1..] != [] ==> !AllDigits(y);
      }
    }
  }

  /** Whatever `ParseNumeral` accepts is a numeral followed by an exponent. */
  lemma NumeralSound(v: string, neg: bool)
    requires ParseNumeral(v, neg).Some?
    ensures exists b :: 0 <= b <= |v| && Numeral(v[..b]) && Exponent(v[b..])
  {
    var p := DigitRunEnd(v, 0);
    var q := if p < |v| && v[p] == '.' then DigitRunEnd(v, p + 1) else p;
    assert v[0..p] == v[..p];
    ExponentIff(v[q..]);
    var t := v[..q];
    if q > p {
      assert t[..p] == v[..p];
      assert t[p + 1..] == v[p + 1..q];
      assert t[p] == '.';
      assert PointNumeral(t);
    } else {
      assert t == v[..p];
    }
  }

  /** Whatever is a numeral followed by an exponent, `ParseNumeral` accepts. */
  lemma NumeralComplete(v: string, neg: bool, b: nat)
    requires b <= |v| && Numeral(v[..b]) && Exponent(v[b..])
    ensures ParseNumeral(v, neg).Some?
  {
    var t := v[..b];
    ExponentIff(v[b..]);
    ExponentStart(v, b);
    if t != [] && AllDigits(t) {
      NumeralWithoutPoint(v, neg, b);
    } else {
      var pp :| 0 <= pp < |t| && t[pp] == '.' && AllDigits(t[..pp]) && AllDigits(t[pp + 1..]);
      assert v[..pp] == t[..pp] && v[pp + 1..b] == t[pp + 1..];
      NumeralWithPointAccepted(v, neg, pp, b);
    }
  }

  lemma ExponentStart(v: string, b: nat)
    requires b <= |v| && Exponent(v[b..])
    ensures b < |v| ==> IsExponentMark(v[b])
  {
    if b < |v| {
      assert v[b..][0] == v[b];
    }
  }

  /** A point with digits on at least one side, then an exponent: accepted. */
  lemma NumeralWithPointAccepted(v: string, neg: bool, p: nat, q: nat)
    requires p < q <= |v| && 1 < q && v[p] == '.'
    requires AllDigits(v[..p]) && AllDigits(v[p + 1..q])
    requires q < |v| ==> IsExponentMark(v[q])
    requires ParseExponent(v[q..]).Some?
    ensures ParseNumeral(v, neg).Some?
  {
    assert v[0..p] == v[..p];
    RunEndExact(v, 0, p);
    RunEndExact(v, p + 1, q);
  }

  lemma LowerPreservesFirst(v: string)
    requires v != [] && !('A' <= v[0] <= 'Z')
    ensures Lower(v) != [] && Lower(v)[0] == v[0]
  {
  }

  /** A sign cannot start an unsigned literal, so the sign is taken at most once. */
  lemma SignNotUnsigned(u: string)
    requires u != [] && IsSign(u[0])
    ensures !UnsignedLiteral(u)
  {
    LowerPreservesFirst(u);
  }

  /** `float(s)` succeeds exactly when the text inside its surrounding whitespace is a float literal. */
  lemma ParseFloatAcceptsGrammar(s: string)
    ensures ParseFloat(s).Some? <==> FloatLiteral(FloatStrip(s))
  {
    var u := FloatStrip(s);
    var signed := |u| > 0 && IsSign(u[0]);
    var v := if signed then u[1..] else u;
    if signed {
      SignNotUnsigned(u);
    }
    assert FloatLiteral(u) <==> UnsignedLiteral(v);
    var neg := signed && u[0] == '-';
    if !IsInfName(v) && !IsNanName(v) {
      if ParseNumeral(v, neg).Some? {
        NumeralSound(v, neg);
      }
      if b :| 0 <= b <= |v| && Numeral(v[..b]) && Exponent(v[b..]) {
        NumeralComplete(v, neg, b);
      }
    }
  }

  // ---------------------------------------------------------------------------
  // Values.

  /** Text with no whitespace at either end is left alone by `strip()` and by `float()`. */
  lemma StripTrimmed(t: string)
    requires Trimmed(t)
    ensures Strip(t) == t && FloatStrip(t) == t
  {
    assert TrimStart(t) == t;
    assert FloatTrimStart(t) == t;
  }

  /** Text without U+001C..U+001F. */
  predicate NoSeparator(s: string)
  {
    forall i :: 0 <= i < |s| ==> !IsSeparator(s[i])
  }

  lemma {:induction false} FloatTrimStartAgrees(s: string)
    requires NoSeparator(s)
    ensures FloatTrimStart(s) == TrimStart(s) && NoSeparator(TrimStart(s))
    decreases |s|
  {
    if |s| > 0 && IsSpace(s[0]) {
      assert NoSeparator(s[1..]);
      FloatTrimStartAgrees(s[1..]);
    }
  }

  lemma {:induction false} FloatTrimEndAgrees(s: string)
    requires NoSeparator(s)
    ensures FloatTrimEnd(s) == TrimEnd(s)
    decreases |s|
  {
    if |s| > 0 && IsSpace(s[|s| - 1]) {
      assert NoSeparator(s[..|s| - 1]);
      FloatTrimEndAgrees(s[..|s| - 1]);
    }
  }

  /** Without U+001C..U+001F, `float()` trims exactly what `strip()` does. */
  lemma FloatStripAgrees(s: string)
    requires NoSeparator(s)
    ensures FloatStrip(s) == Strip(s)
  {
    FloatTrimStartAgrees(s);
    FloatTrimEndAgrees(TrimStart(s));
  }

  /** A leading U+001C is stripped by `strip()` but makes `float()` raise. */
  lemma SeparatorNotFloatSpace()
    ensures Strip([28 as char, '1']) == "1"
    ensures ParseFloat([28 as char, '1']).None?
  {
    var s := [28 as char, '1'];
    assert s[1..] == "1";
    assert TrimStart(s) == "1";
    assert FloatTrimStart(s) == s;
    assert !IsInfName(s) && !IsNanName(s) by {
      assert Lower(s)[0] == 28 as char;
    }
  }

  lemma NotSpecial(v: string)
    requires v != [] && (IsDigit(v[0]) || v[0] == '.')
    ensures !IsInfName(v) && !IsNanName(v)
  {
    LowerPreservesFirst(v);
  }

  /**
   * An unsigned `digits . digits` text with a non-empty fraction parses to the
   * exact decimal its digits spell.
   */
  lemma ParsePointNumeral(w: string, f: string, neg: bool)
    requires AllDigits(w) && AllDigits(f) && f != []
    ensures var v := w + "." + f;
            AllDigits(w + f) && ParseNumeral(v, neg) == Some(Finite(neg, DigitsValue(w + f), -|f|))
  {
    var v := w + "." + f;
    assert v[..|w|] == w && v[|w|] == '.' && v[|w| + 1..|v|] == f && v[|v|..] == [];
    NumeralWithPoint(v, neg, |w|, |v|);
  }

  /** A numeral with a point and a non-empty fraction: its digits are the mantissa, shifted by the fraction's length. */
  lemma NumeralWithPoint(v: string, neg: bool, p: nat, q: nat)
    requires p + 1 < q <= |v| && v[p] == '.'
    requires AllDigits(v[..p]) && AllDigits(v[p + 1..q])
    requires q == |v| || !IsDigit(v[q])
    ensures AllDigits(v[..p] + v[p + 1..q])
    ensures ParseNumeral(v, neg) == match ParseExponent(v[q..])
                                    case None => None
                                    case Some(x) => Some(Finite(neg, DigitsValue(v[..p] + v[p + 1..q]), x - (q - p - 1)))
  {
    assert v[0..p] == v[..p];
    RunEndExact(v, 0, p);
    RunEndExact(v, p + 1, q);
  }

  lemma ParseDigitsNumeral(w: string, neg: bool)
    requires AllDigits(w) && w != []
    ensures ParseNumeral(w, neg) == Some(Finite(neg, DigitsValue(w), 0))
  {
    assert w[..|w|] == w && w[|w|..] == [];
    NumeralWithoutPoint(w, neg, |w|);
  }

  /** With an optional sign in front of a numeral, `float()` reads the numeral. */
  lemma ParseSigned(sign: string, v: string)
    requires sign == "" || sign == "+" || sign == "-"
    requires v != [] && (IsDigit(v[0]) || v[0] == '.')
    ensures ParseStripped(sign + v) == ParseNumeral(v, sign == "-")
  {
    NotSpecial(v);
    var u := sign + v;
    if sign != "" {
      assert u[0] == sign[0];
      assert u[1..] == v;
    } else {
      assert u == v;
    }
  }

  /** The text of a sign, digits, a point and digits: what `float()` makes of it. */
  lemma ParseSignedPoint(sign: string, w: string, f: string)
    requires sign == "" || sign == "+" || sign == "-"
    requires AllDigits(w) && AllDigits(f) && f != []
    ensures AllDigits(w + f)
    ensures ParseFloat(sign + w + "." + f) == Some(Finite(sign == "-", DigitsValue(w + f), -|f|))
  {
    var v := w + "." + f;
    PointTextShape(w, f);
    SignedTextTrimmed(sign, v);
    ConcatAssoc(sign, w, f);
    StripTrimmed(sign + v);
    ParseSigned(sign, v);
    ParsePointNumeral(w, f, sign == "-");
  }

  lemma PointTextShape(w: string, f: string)
    requires AllDigits(w) && AllDigits(f) && f != []
    ensures var v := w + "." + f;
            v != [] && (IsDigit(v[0]) || v[0] == '.') && IsDigit(v[|v| - 1])
  {
    var v := w + "." + f;
    assert v[0] == (if w == [] then '.' else w[0]);
    assert v[|v| - 1] == f[|f| - 1];
  }

  lemma SignedTextTrimmed(sign: string, v: string)
    requires sign == "" || sign == "+" || sign == "-"
    requires v != [] && (IsDigit(v[0]) || v[0] == '.') && IsDigit(v[|v| - 1])
    ensures Trimmed(sign + v)
  {
    var t := sign + v;
    assert t[|t| - 1] == v[|v| - 1];
    assert t[0] == (if sign == "" then v[0] else sign[0]);
  }

  lemma ConcatAssoc(sign: string, w: string, f: string)
    ensures sign + w + "." + f == sign + (w + "." + f)
  {
  }

  /** A run of digits parses to the integer it spells. */
  lemma ParseDigits(w: string)
    requires AllDigits(w) && w != []
    ensures ParseFloat(w) == Some(Finite(false, DigitsValue(w), 0))
  {
    DigitsTrimmed(w);
    UnsignedNumeral(w);
    ParseDigitsNumeral(w, false);
  }

  lemma DigitsTrimmed(w: string)
    requires AllDigits(w) && w != []
    ensures Strip(w) == w && FloatStrip(w) == w
  {
    assert !IsSpace(w[0]) && !IsSpace(w[|w| - 1]);
    StripTrimmed(w);
  }

  /** Text that starts with a digit or a point is read as an unsigned numeral. */
  lemma UnsignedNumeral(v: string)
    requires v != [] && (IsDigit(v[0]) || v[0] == '.')
    ensures ParseStripped(v) == ParseNumeral(v, false)
  {
    NotSpecial(v);
  }

  // ---------------------------------------------------------------------------
  // Rendering: an exact text form that `float()` reads back unchanged.

  function SignText(neg: bool): string
  {
    if neg then "-" else ""
  }

  /** The exponent of a rendered float: `e`, a minus sign when negative, the digits. */
  function ExponentText(e: int): string
  {
    "e" + SignText(e < 0) + DigitsOf(if e < 0 then -e else e)
  }

  /** A finite float's text after its sign: the mantissa's digits, then the exponent. */
  function FiniteBody(m: nat, e: int): string
  {
    DigitsOf(m) + ExponentText(e)
  }

  /**
   * The text of a float, in scientific form (`-125e-1` for -12.5), as the
   * string form of a float cell.
   */
  function Render(x: Float): string
  {
    match x
    case Finite(neg, m, e) => SignText(neg) + FiniteBody(m, e)
    case Infinity(neg) => SignText(neg) + "inf"
    case NaN => "nan"
  }

  lemma ExponentTextShape(e: int)
    ensures var t := ExponentText(e);
            t != [] && t[0] == 'e' && IsDigit(t[|t| - 1]) && t[|t| - 1] != '-'
  {
    var d := DigitsOf(if e < 0 then -e else e);
    var t := ExponentText(e);
    assert t[|t| - 1] == d[|d| - 1];
  }

  lemma FiniteBodyShape(m: nat, e: int)
    ensures var b := FiniteBody(m, e);
            b != [] && IsDigit(b[0]) && IsDigit(b[|b| - 1])
  {
    var d := DigitsOf(m);
    var x := ExponentText(e);
    ExponentTextShape(e);
    var b := FiniteBody(m, e);
    assert b[0] == d[0];
    assert b[|b| - 1] == x[|x| - 1];
  }

  /** An exponent mark, an optional minus and digits: the exponent those digits spell. */
  lemma ParseExponentSplit(x: string, neg: bool, d: string)
    requires |x| > 1 && IsExponentMark(x[0]) && d != [] && AllDigits(d)
    requires neg ==> x[1] == '-' && x[2..] == d
    requires !neg ==> x[1..] == d
    ensures var n: int := DigitsValue(d);
            ParseExponent(x) == Some(if neg then -n else n)
  {
    var y := x[1..];
    if neg {
      assert y[0] == '-' && y[1..] == d;
    } else {
      assert y[0..] == d && !IsSign(y[0]);
    }
  }

  lemma ParseExponentOf(e: int)
    ensures ParseExponent(ExponentText(e)) == Some(e)
  {
    var d := DigitsOf(if e < 0 then -e else e);
    var x := ExponentText(e);
    if e < 0 {
      assert x == ['e', '-'] + d;
      assert x[2..] == d;
      ParseExponentSplit(x, true, d);
    } else {
      assert x == ['e'] + d;
      assert x[1..] == d;
      ParseExponentSplit(x, false, d);
    }
  }

  /** A numeral with no point: its leading digits are the mantissa and the rest must be an exponent. */
  lemma NumeralWithoutPoint(v: string, neg: bool, p: nat)
    requires 0 < p <= |v| && AllDigits(v[..p])
    requires p == |v| || (!IsDigit(v[p]) && v[p] != '.')
    ensures ParseNumeral(v, neg) == match ParseExponent(v[p..])
                                    case None => None
                                    case Some(x) => Some(Finite(neg, DigitsValue(v[..p]), x))
  {
    assert v[0..p] == v[..p];
    RunEndExact(v, 0, p);
    var none: string := [];
    assert v[..p] + none == v[..p];
  }

  /** Digits followed by an exponent: the digits are the mantissa, the exponent is read as is. */
  lemma ParseDigitsThenExponent(w: string, rest: string, neg: bool, e: int)
    requires w != [] && AllDigits(w)
    requires rest != [] && rest[0] == 'e' && ParseExponent(rest) == Some(e)
    ensures ParseNumeral(w + rest, neg) == Some(Finite(neg, DigitsValue(w), e))
  {
    var v := w + rest;
    assert v[..|w|] == w && v[|w|..] == rest;
    assert v[|w|] == 'e';
    NumeralWithoutPoint(v, neg, |w|);
  }

  lemma ParseFiniteBody(m: nat, e: int, neg: bool)
    ensures ParseNumeral(FiniteBody(m, e), neg) == Some(Finite(neg, m, e))
  {
    ParseExponentOf(e);
    ExponentTextShape(e);
    ParseDigitsThenExponent(DigitsOf(m), ExponentText(e), neg, e);
  }

  lemma LowerNames()
    ensures Lower("inf") == "inf" && Lower("nan") == "nan"
  {
    assert Lower("inf")[0] == 'i' && Lower("inf")[1] == 'n' && Lower("inf")[2] == 'f';
    assert Lower("nan")[0] == 'n' && Lower("nan")[1] == 'a' && Lower("nan")[2] == 'n';
  }

  /** A sign in front of a text that starts and ends with a digit leaves no whitespace at the ends. */
  lemma SignedTrimmed(neg: bool, b: string)
    requires b != [] && IsDigit(b[0]) && IsDigit(b[|b| - 1])
    ensures Trimmed(SignText(neg) + b)
  {
    var t := SignText(neg) + b;
    assert t[|t| - 1] == b[|b| - 1];
    assert t[0] == (if neg then '-' else b[0]);
  }

  lemma RenderFiniteRoundTrip(neg: bool, m: nat, e: int)
    ensures ParseFloat(Render(Finite(neg, m, e))) == Some(Finite(neg, m, e))
  {
    var b := FiniteBody(m, e);
    FiniteBodyShape(m, e);
    SignedTrimmed(neg, b);
    StripTrimmed(SignText(neg) + b);
    ParseSigned(SignText(neg), b);
    ParseFiniteBody(m, e, neg);
  }

  lemma TrimmedNames(neg: bool)
    ensures Trimmed(SignText(neg) + "inf") && Trimmed("nan")
  {
    var t := SignText(neg) + "inf";
    assert t[0] == (if neg then '-' else 'i');
    assert t[|t| - 1] == 'f';
  }

  lemma RenderInfinityRoundTrip(neg: bool)
    ensures ParseFloat(Render(Infinity(neg))) == Some(Infinity(neg))
  {
    if neg {
      assert Render(Infinity(neg)) == "-inf";
      ParseMinusInf();
    } else {
      assert Render(Infinity(neg)) == "inf";
      ParsePlainInf();
    }
  }

  lemma ParsePlainInf()
    ensures ParseFloat("inf") == Some(Infinity(false))
  {
    TrimmedNames(false);
    StripTrimmed("inf");
    LowerNames();
    assert !IsSign("inf"[0]);
  }

  lemma ParseMinusInf()
    ensures ParseFloat("-inf") == Some(Infinity(true))
  {
    TrimmedNames(true);
    StripTrimmed("-inf");
    LowerNames();
    assert "-inf"[1..] == "inf";
  }

  lemma RenderNaNRoundTrip()
    ensures ParseFloat(Render(NaN)) == Some(NaN)
  {
    TrimmedNames(false);
    StripTrimmed("nan");
    LowerNames();
    assert !IsSign("nan"[0]);
    assert !IsInfName("nan");
    assert ParseStripped("nan") == Some(NaN);
  }

  /** `float()` reads back every rendered float exactly. */
  lemma RenderRoundTrip(x: Float)
    ensures ParseFloat(Render(x)) == Some(x)
  {
    match x
    case Finite(neg, m, e) => RenderFiniteRoundTrip(neg, m, e);
    case Infinity(neg) => RenderInfinityRoundTrip(neg);
    case NaN => RenderNaNRoundTrip();
  }
}

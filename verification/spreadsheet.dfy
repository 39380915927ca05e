/**
 * The cleaning step of the spreadsheet-analysis script: `limpar_numero`
 * coerces every cell of four numeric columns to a float, and `fillna(0)`
 * then zeroes whatever is still missing.
 */
module SpreadsheetAnalysis {
  import opened Wrappers
  import opened Text
  import opened PyFloat
  import opened NumberRegex
  import opened Table

  /** The columns the script cleans, in its order. */
  const NumericColumns: seq<string> := [
    "Densidade de Corrente (mA/cm²)",
    "Potencial de Oxidação (Ep, V vs Hg/HgO)",
    "Área Superficial (m²/g)",
    "Concentração_Etanol"
  ]

  /** Text that Excel turned into a date: a year followed by a dash. */
  predicate HasDateSentinel(v: string)
  {
    Contains(v, "2025-") || Contains(v, "4324-")
  }

  /**
   * `limpar_numero` on the string form of a cell: strip; zero for a date
   * artefact; otherwise `float()` of the text with commas turned into points,
   * and when that raises, the first number-looking piece of that text, or
   * zero if there is none.
   */
  function CleanNumberText(text: string): Float
  {
    CleanStripped(Strip(text))
  }

  function CleanStripped(v: string): Float
  {
    if HasDateSentinel(v) then Zero else ParseOrExtract(CommaToDot(v))
  }

  /** The `try` / `except` pair: `float(t)`, or the first match when that raises. */
  function ParseOrExtract(t: string): Float
  {
    match ParseFloat(t)
    case Some(x) => x
    case None => FirstNumber(t)
  }

  /** `float(match.group()) if match else 0.0` for `re.search` on `t`. */
  function FirstNumber(t: string): (r: Float)
    ensures r.Finite?
  {
    match Search(t)
    case None => Zero
    case Some(sp) =>
      MatchParses(t);
      ParseFloat(t[sp.start..sp.end]).value
  }

  /** `limpar_numero(val)`. */
  function CleanNumber(c: Cell): Float
  {
    CleanNumberText(StrForm(c))
  }

  /** The cell `Series.apply(limpar_numero)` stores: always a float. */
  function CleanNumberCell(c: Cell): (r: Cell)
    ensures r.FloatCell?
  {
    FloatCell(CleanNumber(c))
  }

  /** The table the cleaning step leaves behind. */
  function CleanedTable(cols: Columns): Columns
  {
    FillNa(ApplyAll(cols, NumericColumns, CleanNumberCell))
  }

  /** The cleaning step: the loop over the numeric columns, then `df = df.fillna(0)`. */
  method CleanSpreadsheet(df: DataFrame)
    requires df.Valid()
    modifies df
    ensures df.Valid() && df.rowCount == old(df.rowCount)
    ensures df.columns == CleanedTable(old(df.columns))
  {
    df.CleanColumns(NumericColumns, CleanNumberCell);
    df.FillMissing();
  }

  // ---------------------------------------------------------------------------
  // What limpar_numero computes.

  lemma CommaToDotKeepsTrimmed(v: string)
    requires Trimmed(v)
    ensures Trimmed(CommaToDot(v)) && Strip(CommaToDot(v)) == CommaToDot(v)
  {
    var t := CommaToDot(v);
    StripOf([], t, []);
    assert [] + t + [] == t;
  }

  /**
   * The fallback reads the leftmost match of the pattern, which always parses
   * to a finite number, and gives zero exactly when the text has no digit.
   */
  lemma FirstNumberMeaning(t: string)
    ensures FirstNumber(t).Finite?
    ensures FirstNumber(t) == Zero || HasDigit(t)
    ensures !HasDigit(t) ==> FirstNumber(t) == Zero
    ensures HasDigit(t) ==> exists i: nat, e: nat :: IsLeftmostMatch(t, i, e)
    ensures forall i: nat, e: nat :: IsLeftmostMatch(t, i, e) ==> ParseFloat(t[i..e]) == Some(FirstNumber(t))
  {
    SearchNoneIffNoDigit(t);
    if Search(t).Some? {
      MatchParses(t);
      SearchIsLeftmost(t);
    }
    forall i: nat, e: nat | IsLeftmostMatch(t, i, e)
      ensures ParseFloat(t[i..e]) == Some(FirstNumber(t))
    {
      LeftmostIsSearch(t, i, e);
      MatchParses(t);
    }
  }

  /** On stripped text, `float()` succeeds exactly on the float-literal grammar. */
  lemma ParseOrExtractMeaning(t: string)
    requires Trimmed(t)
    ensures FloatLiteral(t) ==> ParseFloat(t).Some? && ParseOrExtract(t) == ParseFloat(t).value
    ensures !FloatLiteral(t) ==> ParseOrExtract(t) == FirstNumber(t)
  {
    StripTrimmed(t);
    ParseFloatAcceptsGrammar(t);
  }

  /**
   * The whole behaviour, stated through the grammar of `float()` and the
   * leftmost-match description of the pattern: a date artefact gives zero;
   * text that is a float literal once commas are points gives that float;
   * other text gives the value of its leftmost match, and zero when it has no
   * digit.
   */
  lemma CleanNumberMeaning(text: string)
    ensures var v := Strip(text);
            var t := CommaToDot(v);
            && (HasDateSentinel(v) ==> CleanNumberText(text) == Zero)
            && (!HasDateSentinel(v) && FloatLiteral(t) ==>
                  ParseFloat(t).Some? && CleanNumberText(text) == ParseFloat(t).value)
            && (!HasDateSentinel(v) && !FloatLiteral(t) ==>
                  && CleanNumberText(text).Finite?
                  && (!HasDigit(t) ==> CleanNumberText(text) == Zero)
                  && (HasDigit(t) ==> exists i: nat, e: nat :: IsLeftmostMatch(t, i, e))
                  && (forall i: nat, e: nat :: IsLeftmostMatch(t, i, e) ==>
                        ParseFloat(t[i..e]) == Some(CleanNumberText(text))))
  {
    var v := Strip(text);
    var t := CommaToDot(v);
    StripSplit(text);
    CommaToDotKeepsTrimmed(v);
    ParseOrExtractMeaning(t);
    FirstNumberMeaning(t);
  }

  /** A date artefact anywhere in the text, even inside whitespace, gives zero. */
  lemma DateSentinelGivesZero(text: string)
    requires Contains(text, "2025-") || Contains(text, "4324-")
    ensures CleanNumberText(text) == Zero
  {
    if Contains(text, "2025-") {
      ContainsSurvivesStrip(text, "2025-");
    } else {
      ContainsSurvivesStrip(text, "4324-");
    }
  }

  /** Whitespace around the text makes no difference. */
  lemma SurroundingSpaceIgnored(w1: string, text: string, w2: string)
    requires AllSpace(w1) && AllSpace(w2)
    ensures CleanNumberText(w1 + text + w2) == CleanNumberText(text)
  {
    StripIgnoresSurroundingSpace(w1, text, w2);
  }

  // ---------------------------------------------------------------------------
  // Numbers already in the sheet come back unchanged.

  /** Every `-` that is not the first character follows an `e`. */
  predicate DashesAfterExponent(s: string)
  {
    forall i :: 0 < i < |s| && s[i] == '-' ==> s[i - 1] == 'e'
  }

  predicate NoComma(s: string)
  {
    forall i :: 0 <= i < |s| ==> s[i] != ','
  }

  lemma NoSentinelIn(s: string)
    requires DashesAfterExponent(s)
    ensures !HasDateSentinel(s)
  {
    forall k: int
      ensures !OccursAt(s, "2025-", k) && !OccursAt(s, "4324-", k)
    {
      if 0 <= k && k + 5 <= |s| {
        assert s[k..k + 5][3] == s[k + 3] && s[k..k + 5][4] == s[k + 4];
      }
    }
  }

  lemma DashesConcat(p: string, q: string)
    requires DashesAfterExponent(p) && DashesAfterExponent(q) && NoComma(p) && NoComma(q)
    requires q != [] && q[0] == '-' ==> p != [] && p[|p| - 1] == 'e'
    ensures DashesAfterExponent(p + q) && NoComma(p + q)
  {
    var s := p + q;
    forall i | 0 < i < |s| && s[i] == '-'
      ensures s[i - 1] == 'e'
    {
      if i > |p| {
        assert s[i] == q[i - |p|] && s[i - 1] == q[i - 1 - |p|];
      }
    }
  }

  lemma SignedDigitsText(neg: bool, d: string)
    requires d != [] && AllDigits(d)
    ensures var s := SignText(neg) + d;
            DashesAfterExponent(s) && NoComma(s) && Trimmed(s) && s[|s| - 1] == d[|d| - 1]
  {
    var s := SignText(neg) + d;
    assert s[|s| - 1] == d[|d| - 1];
    assert s[0] == (if neg then '-' else d[0]);
    assert forall i :: 0 < i < |s| ==> s[i] == d[i - |SignText(neg)|];
  }

  predicate PlainNumberText(s: string)
  {
    Trimmed(s) && NoComma(s) && DashesAfterExponent(s)
  }

  lemma IntTextPlain(i: int)
    ensures PlainNumberText(IntText(i))
  {
    SignedDigitsText(i < 0, DigitsOf(if i < 0 then -i else i));
  }

  lemma ExponentTextPlain(e: int)
    ensures DashesAfterExponent(ExponentText(e)) && NoComma(ExponentText(e))
  {
    var q := SignText(e < 0) + DigitsOf(if e < 0 then -e else e);
    SignedDigitsText(e < 0, DigitsOf(if e < 0 then -e else e));
    DashesConcat("e", q);
  }

  lemma FiniteBodyPlain(m: nat, e: int)
    ensures DashesAfterExponent(FiniteBody(m, e)) && NoComma(FiniteBody(m, e))
  {
    var d := DigitsOf(m);
    SignedDigitsText(false, d);
    assert SignText(false) + d == d;
    ExponentTextPlain(e);
    ExponentTextShape(e);
    DashesConcat(d, ExponentText(e));
  }

  lemma FiniteRenderPlain(neg: bool, m: nat, e: int)
    ensures PlainNumberText(Render(Finite(neg, m, e)))
  {
    var b := FiniteBody(m, e);
    FiniteBodyShape(m, e);
    FiniteBodyPlain(m, e);
    SignedTrimmed(neg, b);
    SignPlain(neg);
    DashesConcat(SignText(neg), b);
  }

  lemma SignPlain(neg: bool)
    ensures DashesAfterExponent(SignText(neg)) && NoComma(SignText(neg))
  {
  }

  lemma InfinityRenderPlain(neg: bool)
    ensures PlainNumberText(Render(Infinity(neg)))
  {
    var s := Render(Infinity(neg));
    assert s[0] == (if neg then '-' else 'i');
    assert s[|s| - 1] == 'f';
  }

  /** The string form of a float or int has no comma, no date artefact, no outer whitespace. */
  lemma NumberTextIsPlain(c: Cell)
    requires c.IntCell? || c.FloatCell?
    ensures var s := StrForm(c);
            Trimmed(s) && NoComma(s) && !HasDateSentinel(s)
  {
    if c.IntCell? {
      IntTextPlain(c.i);
    } else if c.x.Finite? {
      FiniteRenderPlain(c.x.neg, c.x.mant, c.x.exp);
    } else if c.x.Infinity? {
      InfinityRenderPlain(c.x.neg);
    }
    NoSentinelIn(StrForm(c));
  }

  lemma CommaToDotNoComma(s: string)
    requires NoComma(s)
    ensures CommaToDot(s) == s
  {
  }

  lemma ParseIntText(i: int)
    ensures ParseFloat(IntText(i)) == Some(Finite(i < 0, if i < 0 then -i else i, 0))
  {
    var d := DigitsOf(if i < 0 then -i else i);
    IntTextPlain(i);
    StripTrimmed(IntText(i));
    ParseSigned(SignText(i < 0), d);
    ParseDigitsNumeral(d, i < 0);
  }

  /**
   * A float cell comes back as the same float, and an int cell as the same
   * number: `str()` then `float()` loses nothing, and the date and comma
   * rules never fire on a number's text.
   */
  lemma NumbersKept(c: Cell)
    ensures c.FloatCell? ==> CleanNumber(c) == c.x
    ensures c.IntCell? ==> CleanNumber(c) == Finite(c.i < 0, if c.i < 0 then -c.i else c.i, 0)
  {
    if c.FloatCell? {
      FloatKept(c.x);
    } else if c.IntCell? {
      IntKept(c.i);
    }
  }

  /** Text a number prints as is cleaned by `float()` alone. */
  lemma PlainCleaning(s: string)
    requires Trimmed(s) && NoComma(s) && !HasDateSentinel(s)
    ensures CleanNumberText(s) == ParseOrExtract(s)
  {
    PlainTextCleaning(s);
    CommaToDotNoComma(s);
  }

  lemma FloatKept(x: Float)
    ensures CleanNumber(FloatCell(x)) == x
  {
    NumberTextIsPlain(FloatCell(x));
    PlainCleaning(Render(x));
    RenderRoundTrip(x);
  }

  lemma IntKept(i: int)
    ensures CleanNumber(IntCell(i)) == Finite(i < 0, if i < 0 then -i else i, 0)
  {
    NumberTextIsPlain(IntCell(i));
    PlainCleaning(IntText(i));
    ParseIntText(i);
  }

  // ---------------------------------------------------------------------------
  // The cleaning step on a whole table.

  lemma NumericColumnsDistinct()
    ensures Distinct(NumericColumns)
  {
    var n := NumericColumns;
    assert n[0][0] == 'D' && n[1][0] == 'P' && n[2][0] == 'Á' && n[3][0] == 'C';
  }

  /**
   * The cleaning step keeps every column and the row count; each numeric
   * column that is present holds, row by row, the cleaned float (or 0 where
   * that float is NaN); every other column only has its missing cells set to
   * 0; and nothing is missing afterwards.
   */
  lemma CleanedTableShape(cols: Columns, rows: nat)
    requires Rectangular(cols, rows)
    ensures var r := CleanedTable(cols);
            && r.Keys == cols.Keys
            && Rectangular(r, rows)
            && (forall k, i :: k in r && 0 <= i < rows ==> !IsMissing(r[k][i]))
            && (forall k, i :: k in cols && k in NumericColumns && 0 <= i < rows ==>
                  r[k][i] == (if CleanNumber(cols[k][i]) == NaN then FillValue else FloatCell(CleanNumber(cols[k][i]))))
            && (forall k :: k in cols && k !in NumericColumns ==> r[k] == FillCells(cols[k]))
  {
    NumericColumnsDistinct();
    CleanThenFill(cols, rows, NumericColumns, CleanNumberCell);
  }

  /** Cleaning a cleaned cell changes nothing, so running the step twice is harmless. */
  lemma CleanNumberIdempotent(c: Cell)
    ensures CleanNumberCell(CleanNumberCell(c)) == CleanNumberCell(c)
  {
    NumbersKept(CleanNumberCell(c));
  }

  // ---------------------------------------------------------------------------
  // Worked cases.

  /** Text with no outer whitespace and no date artefact goes straight to `float()`. */
  lemma PlainTextCleaning(text: string)
    requires Trimmed(text) && !HasDateSentinel(text)
    ensures CleanNumberText(text) == ParseOrExtract(CommaToDot(text))
  {
    StripTrimmed(text);
  }

  /** A comma decimal separator: digits, a comma and digits read as that decimal ("3,2" is 32e-1). */
  lemma CommaDecimal(w: string, f: string)
    requires AllDigits(w) && AllDigits(f) && f != []
    ensures AllDigits(w + f)
    ensures CleanNumberText(w + "," + f) == Finite(false, DigitsValue(w + f), -|f|)
  {
    CommaTextPlain(w, f);
    CommaBecomesPoint(w, f);
    UnsignedPointParses(w, f);
    PlainTextCleaning(w + "," + f);
  }

  lemma CommaTextPlain(w: string, f: string)
    requires AllDigits(w) && AllDigits(f) && f != []
    ensures Trimmed(w + "," + f) && !HasDateSentinel(w + "," + f)
  {
    var u := w + "," + f;
    assert u[0] == (if w == [] then ',' else w[0]);
    assert u[|u| - 1] == f[|f| - 1];
    assert DashesAfterExponent(u);
    NoSentinelIn(u);
  }

  lemma CommaBecomesPoint(w: string, f: string)
    requires AllDigits(w) && AllDigits(f)
    ensures CommaToDot(w + "," + f) == w + "." + f
  {
  }

  lemma UnsignedPointParses(w: string, f: string)
    requires AllDigits(w) && AllDigits(f) && f != []
    ensures AllDigits(w + f) && ParseFloat(w + "." + f) == Some(Finite(false, DigitsValue(w + f), -|f|))
  {
    var e: string := [];
    assert e + w + "." + f == w + "." + f;
    ParseSignedPoint(e, w, f);
  }

  /**
   * Two commas both become points, `float()` rejects the result, and the
   * leftmost match is the first decimal: "1,234,5" is 1.234.
   */
  lemma TwoCommas(a: string, b: string, c: string)
    requires AllDigits(a) && AllDigits(b) && AllDigits(c) && b != [] && c != []
    ensures AllDigits(a + b)
    ensures CleanNumberText(a + "," + b + "," + c) == Finite(false, DigitsValue(a + b), -|b|)
  {
    var u := a + "," + b + "," + c;
    TwoCommaTextPlain(a, b, c);
    PlainTextCleaning(u);
    TwoCommasBecomePoints(a, b, c);
    TwoPointsFallBack(a, b, c);
    TwoPointsFirstNumber(a, b, c);
    FirstDecimalParses(a, b, c);
  }

  /** `float()` raises on the text with points, so the pattern decides. */
  lemma TwoPointsFallBack(a: string, b: string, c: string)
    requires AllDigits(a) && AllDigits(b) && AllDigits(c) && b != [] && c != []
    ensures var t := a + "." + b + "." + c;
            ParseOrExtract(t) == FirstNumber(t)
  {
    TwoPointsRejected(a, b, c);
    RaisesFallsBack(a + "." + b + "." + c);
  }

  /** The pattern finds the first decimal. */
  lemma TwoPointsFirstNumber(a: string, b: string, c: string)
    requires AllDigits(a) && AllDigits(b) && AllDigits(c) && b != []
    ensures var t := a + "." + b + "." + c;
            |a| + 1 + |b| <= |t| && ParseFloat(t[0..|a| + 1 + |b|]).Some?
            && FirstNumber(t) == ParseFloat(t[0..|a| + 1 + |b|]).value
  {
    TwoPointsSearch(a, b, c);
    FirstNumberAt(a + "." + b + "." + c, |a| + 1 + |b|);
  }

  lemma RaisesFallsBack(t: string)
    requires ParseFloat(t).None?
    ensures ParseOrExtract(t) == FirstNumber(t)
  {
  }

  /** The value of the fallback is that of the match `re.search` finds. */
  lemma FirstNumberAt(t: string, m: nat)
    requires m <= |t| && Search(t) == Some(Span(0, m))
    ensures ParseFloat(t[0..m]).Some? && FirstNumber(t) == ParseFloat(t[0..m]).value
  {
    MatchParses(t);
  }

  lemma FirstDecimalParses(a: string, b: string, c: string)
    requires AllDigits(a) && AllDigits(b) && b != []
    ensures AllDigits(a + b)
    ensures var t := a + "." + b + "." + c;
            |a| + 1 + |b| <= |t|
            && ParseFloat(t[0..|a| + 1 + |b|]) == Some(Finite(false, DigitsValue(a + b), -|b|))
  {
    var t := a + "." + b + "." + c;
    assert t[0..|a| + 1 + |b|] == a + "." + b;
    UnsignedPointParses(a, b);
  }

  lemma TwoCommaTextPlain(a: string, b: string, c: string)
    requires AllDigits(a) && AllDigits(b) && AllDigits(c) && c != []
    ensures Trimmed(a + "," + b + "," + c) && !HasDateSentinel(a + "," + b + "," + c)
  {
    var u := a + "," + b + "," + c;
    var m := |a| + 1 + |b|;
    forall i | 0 <= i < |u|
      ensures u[i] == ',' || IsDigit(u[i])
    {
      if i < |a| {
        assert u[i] == a[i];
      } else if |a| < i < m {
        assert u[i] == b[i - |a| - 1];
      } else if m < i {
        assert u[i] == c[i - m - 1];
      }
    }
    assert DashesAfterExponent(u);
    NoSentinelIn(u);
  }

  lemma TwoCommasBecomePoints(a: string, b: string, c: string)
    requires AllDigits(a) && AllDigits(b) && AllDigits(c)
    ensures CommaToDot(a + "," + b + "," + c) == a + "." + b + "." + c
  {
    var u := a + "," + b + "," + c;
    var t := a + "." + b + "." + c;
    var m := |a| + 1 + |b|;
    forall i | 0 <= i < |u|
      ensures CommaToDot(u)[i] == t[i]
    {
      if i < |a| {
        assert u[i] == a[i] && t[i] == a[i];
      } else if i == |a| || i == m {
        assert u[i] == ',' && t[i] == '.';
      } else if i < m {
        assert u[i] == b[i - |a| - 1] && t[i] == b[i - |a| - 1];
      } else {
        assert u[i] == c[i - m - 1] && t[i] == c[i - m - 1];
      }
    }
  }

  /** A second point cannot start an exponent, so `float()` raises. */
  lemma TwoPointsRejected(a: string, b: string, c: string)
    requires AllDigits(a) && AllDigits(b) && AllDigits(c) && b != [] && c != []
    ensures ParseFloat(a + "." + b + "." + c).None?
  {
    var t := a + "." + b + "." + c;
    TwoPointsNumeral(a, b, c);
    TwoPointsShape(a, b, c);
    StripTrimmed(t);
    UnsignedNumeral(t);
  }

  lemma TwoPointsNumeral(a: string, b: string, c: string)
    requires AllDigits(a) && AllDigits(b) && AllDigits(c) && b != []
    ensures ParseNumeral(a + "." + b + "." + c, false).None?
  {
    var t := a + "." + b + "." + c;
    var m := |a| + 1 + |b|;
    assert t[..|a|] == a && t[|a|] == '.' && t[|a| + 1..m] == b && t[m] == '.';
    NumeralWithPoint(t, false, |a|, m);
    assert t[m..][0] == '.';
  }

  lemma TwoPointsShape(a: string, b: string, c: string)
    requires AllDigits(a) && AllDigits(c) && c != []
    ensures var t := a + "." + b + "." + c;
            Trimmed(t) && (IsDigit(t[0]) || t[0] == '.')
  {
    var t := a + "." + b + "." + c;
    assert t[0] == (if a == [] then '.' else a[0]);
    assert t[|t| - 1] == c[|c| - 1];
  }

  /** The pattern matches at the start, and the first alternative stops at the second point. */
  lemma TwoPointsSearch(a: string, b: string, c: string)
    requires AllDigits(a) && AllDigits(b) && AllDigits(c) && b != []
    ensures var t := a + "." + b + "." + c;
            var m := |a| + 1 + |b|;
            m <= |t| && Search(t) == Some(Span(0, m))
  {
    var t := a + "." + b + "." + c;
    var m := |a| + 1 + |b|;
    assert t[0..|a|] == a && t[|a|] == '.' && t[|a| + 1] == b[0];
    assert t[|a| + 1..m] == b && t[m] == '.';
    assert t[0] == (if a == [] then '.' else a[0]);
    RunEndExact(t, 0, |a|);
    RunEndExact(t, |a| + 1, m);
    assert DecimalEnd(t, 0) == Some(m);
  }

  /**
   * The result need not be finite: the text "inf" is kept as infinity, and
   * a NaN cell (whose text is "nan") stays NaN until `fillna` replaces it.
   */
  lemma NonFiniteResults()
    ensures CleanNumberText("inf") == Infinity(false)
    ensures CleanNumber(FloatCell(NaN)) == NaN
  {
    ShortTextNoSentinel("inf");
    assert Trimmed("inf") by {
      assert "inf"[0] == 'i' && "inf"[2] == 'f';
    }
    PlainTextCleaning("inf");
    CommaToDotNoComma("inf");
    ParsePlainInf();
    FloatKept(NaN);
  }

  lemma ShortTextNoSentinel(s: string)
    requires |s| < 5
    ensures !HasDateSentinel(s)
  {
  }

  /** A cell Excel turned into a date is zeroed. */
  lemma DateBecomesZero(t: string)
    requires t == " 2025-02-03"
    ensures CleanNumberText(t) == Zero
  {
    assert OccursAt(t, "2025-", 1) by {
      assert t[1..6] == "2025-";
    }
    DateSentinelGivesZero(t);
  }

  /**
   * Only the first alternative of the pattern takes a sign, so a negative
   * whole number followed by a unit ("-5 mA") comes back positive.
   */
  lemma NegativeIntegerLosesSign(d: string, rest: string)
    requires d != [] && AllDigits(d)
    requires rest != [] && !IsDigit(rest[0]) && rest[0] != '.' && !IsExponentMark(rest[0])
    requires !IsSpace(rest[|rest| - 1]) && NoComma(rest)
    requires forall i :: 0 <= i < |rest| ==> rest[i] != '-'
    ensures CleanNumberText("-" + d + rest) == Finite(false, DigitsValue(d), 0)
  {
    var u := "-" + d + rest;
    var n := |d| + 1;
    assert Trimmed(u) && !HasDateSentinel(u) && CommaToDot(u) == u by {
      UnitTextIsPlain(d, rest);
      NoSentinelIn(u);
      CommaToDotNoComma(u);
    }
    assert ParseFloat(u).None? by {
      NumeralThenUnitFails(d, rest);
    }
    assert Search(u) == Some(Span(1, n)) by {
      SearchSkipsSign(d, rest);
    }
    assert ParseFloat(u[1..n]) == Some(Finite(false, DigitsValue(d), 0)) by {
      assert u[1..n] == d;
      ParseDigits(d);
    }
    PlainTextCleaning(u);
  }

  lemma UnitTextIsPlain(d: string, rest: string)
    requires d != [] && AllDigits(d) && rest != []
    requires !IsSpace(rest[|rest| - 1]) && NoComma(rest)
    requires forall i :: 0 <= i < |rest| ==> rest[i] != '-'
    ensures var u := "-" + d + rest;
            Trimmed(u) && NoComma(u) && DashesAfterExponent(u)
  {
    var u := "-" + d + rest;
    assert u[|u| - 1] == rest[|rest| - 1];
    forall i | 0 < i < |u|
      ensures u[i] != '-' && u[i] != ','
    {
      if i <= |d| {
        assert u[i] == d[i - 1];
      } else {
        assert u[i] == rest[i - 1 - |d|];
      }
    }
  }

  lemma DigitRunAfterSign(d: string, rest: string)
    requires d != [] && AllDigits(d) && rest != [] && !IsDigit(rest[0])
    ensures var u := "-" + d + rest;
            DigitRunEnd(u, 1) == |d| + 1 && u[|d| + 1] == rest[0]
  {
    var u := "-" + d + rest;
    assert u[1..|d| + 1] == d;
    assert u[|d| + 1] == rest[0];
    RunEndExact(u, 1, |d| + 1);
  }

  /** The pattern finds the digits after the sign, without it. */
  lemma SearchSkipsSign(d: string, rest: string)
    requires d != [] && AllDigits(d) && rest != [] && !IsDigit(rest[0]) && rest[0] != '.'
    ensures Search("-" + d + rest) == Some(Span(1, |d| + 1))
  {
    var u := "-" + d + rest;
    var k := |d| + 1;
    DigitRunAfterSign(d, rest);
    assert u[0] == '-' && u[1] == d[0];
    assert DecimalEnd(u, 0).None? && IntegerEnd(u, 0).None?;
    assert DecimalEnd(u, 1).None? && IntegerEnd(u, 1) == Some(k);
    assert SearchFrom(u, 1) == Some(Span(1, k));
  }

  /** `float()` rejects a signed whole number followed by a unit. */
  lemma NumeralThenUnitFails(d: string, rest: string)
    requires d != [] && AllDigits(d)
    requires rest != [] && !IsDigit(rest[0]) && rest[0] != '.' && !IsExponentMark(rest[0])
    requires Trimmed("-" + d + rest)
    ensures ParseFloat("-" + d + rest).None?
  {
    var u := "-" + d + rest;
    var v := d + rest;
    assert u[1..] == v;
    assert ParseNumeral(v, true).None? by {
      assert v[0..|d|] == d;
      assert v[|d|] == rest[0];
      RunEndExact(v, 0, |d|);
      assert v[|d|..][0] == rest[0];
    }
    NotSpecial(v);
    assert ParseStripped(u) == ParseNumeral(v, true);
    StripTrimmed(u);
  }
}

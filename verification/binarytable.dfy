/**
 * The cleaning step of the binary-table script: `limpar_valor_numerico` on
 * three columns, `fillna(0)`, and the check that the target column exists
 * before the features and the target are split apart.
 */
module BinaryTableAnalysis {
  import opened Wrappers
  import opened Text
  import opened PyFloat
  import opened Table

  /** The columns the script cleans, in its order. */
  const ColumnsToClean: seq<string> := [
    "Densidade de Corrente (mA/cm²)",
    "Coef. de Difusão (cm²/s)",
    "Constante Cinética (kₒ, M⁻¹s⁻¹)"
  ]

  /** The column the model is trained to predict. */
  const Target: string := "Densidade de Corrente (mA/cm²)"

  /**
   * `limpar_valor_numerico`: an int or a float is returned as it is;
   * anything else is `float()` of its stripped string form, or 0.0 when that
   * raises `ValueError`.
   */
  function CleanNumericValue(c: Cell): (r: Cell)
    ensures r.IntCell? || r.FloatCell?
    ensures c.IntCell? || c.FloatCell? ==> r == c
  {
    var text := Strip(StrForm(c));
    if c.IntCell? || c.FloatCell? then c
    else
      match ParseFloat(text)
      case Some(x) => FloatCell(x)
      case None => FloatCell(Zero)
  }

  /** The table left after the cleaning loop and `df = df.fillna(0)`. */
  function CleanedTable(cols: Columns): Columns
  {
    FillNa(ApplyAll(cols, ColumnsToClean, CleanNumericValue))
  }

  datatype PipelineError = MissingTarget(column: string)

  /** `X = df.drop(columns=[target])` and `y = df[target]`. */
  datatype TrainingData = TrainingData(features: Columns, target: seq<Cell>)

  /**
   * The preparation up to the training call: clean, fill, then stop with an
   * error when the target column is missing, or split off the target.
   */
  method PrepareTrainingData(df: DataFrame) returns (r: Result<TrainingData, PipelineError>)
    requires df.Valid()
    modifies df
    ensures df.Valid() && df.rowCount == old(df.rowCount)
    ensures df.columns == CleanedTable(old(df.columns))
    ensures r.Failure? <==> Target !in old(df.columns)
    ensures r.Failure? ==> r.error == MissingTarget(Target)
    ensures r.Success? ==> Target in df.columns
                           && r.value.features == df.columns - {Target}
                           && r.value.target == df.columns[Target]
  {
    ghost var before := df.columns;
    df.CleanColumns(ColumnsToClean, CleanNumericValue);
    df.FillMissing();
    ApplyAllFrame(before, ColumnsToClean, CleanNumericValue);
    if Target !in df.columns {
      return Failure(MissingTarget(Target));
    }
    r := Success(TrainingData(df.columns - {Target}, df.columns[Target]));
  }

  // ---------------------------------------------------------------------------
  // What limpar_valor_numerico computes.

  /**
   * For a cell that is not a number: the float its text spells when that text
   * (stripped) is a float literal, and 0.0 otherwise; in particular the
   * removal of stray characters that the surrounding comment mentions does
   * not happen.
   */
  lemma CleanNumericValueMeaning(c: Cell)
    requires !c.IntCell? && !c.FloatCell?
    ensures var u := Strip(StrForm(c));
            && (FloatLiteral(u) ==> ParseFloat(u).Some? && CleanNumericValue(c) == FloatCell(ParseFloat(u).value))
            && (!FloatLiteral(u) ==> CleanNumericValue(c) == FloatCell(Zero))
  {
    var s := StrForm(c);
    StripSplit(s);
    StripTrimmed(Strip(s));
    ParseFloatAcceptsGrammar(Strip(s));
  }

  /** Cleaning a cleaned cell changes nothing. */
  lemma CleanNumericValueIdempotent(c: Cell)
    ensures CleanNumericValue(CleanNumericValue(c)) == CleanNumericValue(c)
  {
  }

  lemma ColumnsToCleanDistinct()
    ensures Distinct(ColumnsToClean)
  {
    var n := ColumnsToClean;
    assert n[0][0] == 'D' && n[1][1] == 'o' && n[2][1] == 'o';
    assert n[1][0..4] == "Coef" && n[2][0..4] == "Cons";
  }

  /**
   * The cleaning step keeps every column and the row count; a cleaned column
   * holds only ints and floats, none of them NaN; every other column only
   * has its missing cells set to 0; and nothing is missing afterwards.
   */
  lemma CleanedTableShape(cols: Columns, rows: nat)
    requires Rectangular(cols, rows)
    ensures var r := CleanedTable(cols);
            && r.Keys == cols.Keys
            && Rectangular(r, rows)
            && (forall k, i :: k in r && 0 <= i < rows ==> !IsMissing(r[k][i]))
            && (forall k, i :: k in cols && k in ColumnsToClean && 0 <= i < rows ==>
                  (r[k][i].IntCell? || r[k][i].FloatCell?)
                  && r[k][i] == (if IsMissing(CleanNumericValue(cols[k][i])) then FillValue
                                 else CleanNumericValue(cols[k][i])))
            && (forall k :: k in cols && k !in ColumnsToClean ==> r[k] == FillCells(cols[k]))
  {
    ColumnsToCleanDistinct();
    CleanThenFill(cols, rows, ColumnsToClean, CleanNumericValue);
  }

  /**
   * When the target column exists, the target handed to training is a
   * column of ints and floats, none of them NaN, one per row.
   */
  lemma TargetIsNumeric(cols: Columns, rows: nat)
    requires Rectangular(cols, rows) && Target in cols
    ensures var r := CleanedTable(cols);
            && Target in r && |r[Target]| == rows
            && forall i :: 0 <= i < rows ==>
                 (r[Target][i].IntCell? || r[Target][i].FloatCell?) && !IsMissing(r[Target][i])
  {
    CleanedTableShape(cols, rows);
    assert Target == ColumnsToClean[0];
  }

  // ---------------------------------------------------------------------------
  // Worked cases.

  /**
   * Digits followed by a character that can neither continue a number nor
   * start an exponent: `float()` raises.
   */
  lemma StrayCharacterFails(u: string, p: nat)
    requires Trimmed(u) && 0 < p < |u| && AllDigits(u[..p])
    requires !IsDigit(u[p]) && u[p] != '.' && !IsExponentMark(u[p])
    ensures ParseFloat(u).None?
  {
    assert u[..p][0] == u[0];
    assert ParseNumeral(u, false).None? by {
      assert u[0..p] == u[..p];
      RunEndExact(u, 0, p);
      assert u[p..][0] == u[p];
    }
    NotSpecial(u);
    assert ParseStripped(u) == ParseNumeral(u, false);
    StripTrimmed(u);
  }

  /** A comma decimal separator is not understood: "3,2" becomes 0.0. */
  lemma CommaTextBecomesZero(w: string, f: string)
    requires w != [] && AllDigits(w) && f != [] && AllDigits(f)
    ensures CleanNumericValue(TextCell(w + "," + f)) == FloatCell(Zero)
  {
    var u := w + "," + f;
    assert Trimmed(u) && ParseFloat(u).None? by {
      assert u[0] == w[0] && u[|u| - 1] == f[|f| - 1];
      assert u[..|w|] == w && u[|w|] == ',';
      StrayCharacterFails(u, |w|);
    }
    StripTrimmed(u);
  }

  /** Trailing text is not removed: "12abc" becomes 0.0. */
  lemma TrailingTextBecomesZero(d: string, rest: string)
    requires d != [] && AllDigits(d)
    requires rest != [] && !IsDigit(rest[0]) && rest[0] != '.' && !IsExponentMark(rest[0])
    requires !IsSpace(rest[|rest| - 1])
    ensures CleanNumericValue(TextCell(d + rest)) == FloatCell(Zero)
  {
    var u := d + rest;
    assert Trimmed(u) && ParseFloat(u).None? by {
      assert u[0] == d[0] && u[|u| - 1] == rest[|rest| - 1];
      assert u[..|d|] == d && u[|d|] == rest[0];
      StrayCharacterFails(u, |d|);
    }
    StripTrimmed(u);
  }

  /** The date of the doc comment, "2025-02-03", becomes 0.0. */
  lemma DateTextBecomesZero(t: string)
    requires t == "2025-02-03"
    ensures CleanNumericValue(TextCell(t)) == FloatCell(Zero)
  {
    assert t == "2025" + "-02-03";
    TrailingTextBecomesZero("2025", "-02-03");
  }

  /** Whitespace around the text makes no difference (" 4.5 " is 4.5). */
  lemma SurroundingSpaceIgnored(w1: string, text: string, w2: string)
    requires AllSpace(w1) && AllSpace(w2)
    ensures CleanNumericValue(TextCell(w1 + text + w2)) == CleanNumericValue(TextCell(text))
  {
    StripIgnoresSurroundingSpace(w1, text, w2);
  }

  /** A `None` cell becomes 0.0. */
  lemma NoneBecomesZero()
    ensures CleanNumericValue(NoneCell) == FloatCell(Zero)
  {
    var u := StrForm(NoneCell);
    StripTrimmed(u);
    assert Lower(u)[0] == 'n' && Lower(u)[1] == 'o';
    RunEndExact(u, 0, 0);
  }
}

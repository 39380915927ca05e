/**
 * The part of a pandas DataFrame the cleaning passes touch: named columns of
 * cells with one common row count, `Series.apply` on a column, and
 * `fillna(0)`.
 */
module Table {
  import opened Text
  import opened PyFloat

  /** A cell as `Series.apply` hands it to a cleaner. */
  datatype Cell =
    | IntCell(i: int)
    | FloatCell(x: Float)      // FloatCell(NaN) is pandas' usual missing value
    | TextCell(text: string)   // a str, or any other object given by its str() form
    | NoneCell

  /** What `isna()` reports, and so what `fillna` replaces. */
  predicate IsMissing(c: Cell)
  {
    c == NoneCell || c == FloatCell(NaN)
  }

  /** The value `fillna(0)` writes. */
  const FillValue: Cell := IntCell(0)

  /** `str()` of an int. */
  function IntText(i: int): string
  {
    SignText(i < 0) + DigitsOf(if i < 0 then -i else i)
  }

  /** `str(val)` of a cell. */
  function StrForm(c: Cell): string
  {
    match c
    case IntCell(i) => IntText(i)
    case FloatCell(x) => Render(x)
    case TextCell(t) => t
    case NoneCell => "None"
  }

  type Columns = map<string, seq<Cell>>

  /** Every column has `rows` cells. */
  predicate Rectangular(cols: Columns, rows: nat)
  {
    forall k :: k in cols ==> |cols[k]| == rows
  }

  predicate Distinct(names: seq<string>)
  {
    forall i, j :: 0 <= i < j < |names| ==> names[i] != names[j]
  }

  /** `Series.apply(f)`. */
  function MapCells(column: seq<Cell>, f: Cell -> Cell): seq<Cell>
  {
    seq(|column|, i requires 0 <= i < |column| => f(column[i]))
  }

  /** `if name in df.columns: df[name] = df[name].apply(f)`. */
  function ApplyColumn(cols: Columns, name: string, f: Cell -> Cell): Columns
  {
    if name in cols then cols[name := MapCells(cols[name], f)] else cols
  }

  /** The cleaning loop `for name in names: ...`, one column after the other. */
  function ApplyAll(cols: Columns, names: seq<string>, f: Cell -> Cell): Columns
  {
    if names == [] then cols
    else ApplyColumn(ApplyAll(cols, names[..|names| - 1], f), names[|names| - 1], f)
  }

  function FillCells(column: seq<Cell>): seq<Cell>
  {
    seq(|column|, i requires 0 <= i < |column| => if IsMissing(column[i]) then FillValue else column[i])
  }

  /** `df.fillna(0)`. */
  function FillNa(cols: Columns): Columns
  {
    map k | k in cols :: FillCells(cols[k])
  }

  // ---------------------------------------------------------------------------
  // What the cleaning loop and fillna do to a table.

  /**
   * The loop keeps the set of columns and every column's length, and leaves
   * alone every column it is not asked to clean.
   */
  lemma {:induction false} ApplyAllFrame(cols: Columns, names: seq<string>, f: Cell -> Cell)
    ensures ApplyAll(cols, names, f).Keys == cols.Keys
    ensures forall k :: k in cols ==> |ApplyAll(cols, names, f)[k]| == |cols[k]|
    ensures forall k :: k in cols && k !in names ==> ApplyAll(cols, names, f)[k] == cols[k]
    decreases |names|
  {
    if names != [] {
      var front := names[..|names| - 1];
      ApplyAllFrame(cols, front, f);
    }
  }

  /** A listed column that is present is cleaned exactly once, cell by cell. */
  lemma {:induction false} ApplyAllListed(cols: Columns, names: seq<string>, f: Cell -> Cell, k: string)
    requires Distinct(names) && k in names && k in cols
    ensures k in ApplyAll(cols, names, f) && ApplyAll(cols, names, f)[k] == MapCells(cols[k], f)
    decreases |names|
  {
    ApplyAllFrame(cols, names, f);
    var front := names[..|names| - 1];
    var last := names[|names| - 1];
    ApplyAllFrame(cols, front, f);
    if k != last {
      assert k in front by {
        var j :| 0 <= j < |names| && names[j] == k;
        assert front[j] == k;
      }
      ApplyAllListed(cols, front, f, k);
    }
  }

  /**
   * After `fillna(0)` no cell is missing; every cell that was not missing is
   * unchanged, and every missing one is 0. Columns and lengths stay.
   */
  lemma FillNaClears(cols: Columns)
    ensures FillNa(cols).Keys == cols.Keys
    ensures forall k :: k in cols ==> |FillNa(cols)[k]| == |cols[k]|
    ensures forall k, i :: k in cols && 0 <= i < |cols[k]| ==>
              !IsMissing(FillNa(cols)[k][i])
              && FillNa(cols)[k][i] == (if IsMissing(cols[k][i]) then FillValue else cols[k][i])
  {
  }

  /**
   * The cleaning loop followed by `fillna(0)`: columns and row count stay;
   * a listed column holds, row by row, the cleaned cell (0 where that is
   * missing); an unlisted column only has its missing cells set to 0; and no
   * cell is missing.
   */
  lemma CleanThenFill(cols: Columns, rows: nat, names: seq<string>, f: Cell -> Cell)
    requires Rectangular(cols, rows) && Distinct(names)
    ensures var r := FillNa(ApplyAll(cols, names, f));
            && r.Keys == cols.Keys
            && Rectangular(r, rows)
            && (forall k, i :: k in r && 0 <= i < rows ==> !IsMissing(r[k][i]))
            && (forall k, i :: k in cols && k in names && 0 <= i < rows ==>
                  r[k][i] == (if IsMissing(f(cols[k][i])) then FillValue else f(cols[k][i])))
            && (forall k :: k in cols && k !in names ==> r[k] == FillCells(cols[k]))
  {
    var a := ApplyAll(cols, names, f);
    ApplyAllFrame(cols, names, f);
    FillNaClears(a);
    forall k | k in cols && k in names
      ensures a[k] == MapCells(cols[k], f)
    {
      ApplyAllListed(cols, names, f, k);
    }
  }

  // ---------------------------------------------------------------------------
  // The DataFrame itself, updated in place.

  class DataFrame {
    var columns: Columns
    var rowCount: nat

    ghost predicate Valid()
      reads this
    {
      Rectangular(columns, rowCount)
    }

    constructor (columns: Columns, rowCount: nat)
      requires Rectangular(columns, rowCount)
      ensures Valid() && this.columns == columns && this.rowCount == rowCount
    {
      this.columns := columns;
      this.rowCount := rowCount;
    }

    /** `for name in names: if name in df.columns: df[name] = df[name].apply(f)`. */
    method CleanColumns(names: seq<string>, f: Cell -> Cell)
      requires Valid()
      modifies this
      ensures Valid() && rowCount == old(rowCount)
      ensures columns == ApplyAll(old(columns), names, f)
    {
      var i := 0;
      while i < |names|
        invariant 0 <= i <= |names|
        invariant Rectangular(columns, rowCount) && rowCount == old(rowCount)
        invariant columns == ApplyAll(old(columns), names[..i], f)
      {
        var name := names[i];
        if name in columns {
          columns := columns[name := MapCells(columns[name], f)];
        }
        assert names[..i + 1][..i] == names[..i];
        i := i + 1;
      }
      assert names[..|names|] == names;
    }

    /** `df = df.fillna(0)`. */
    method FillMissing()
      requires Valid()
      modifies this
      ensures Valid() && rowCount == old(rowCount)
      ensures columns == FillNa(old(columns))
    {
      columns := FillNa(columns);
    }
  }
}

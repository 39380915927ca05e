# Cell cleaning in the MOF analysis scripts

The repository holds two analysis scripts. Both load a spreadsheet of
electrocatalysis measurements and coerce some numeric columns to numbers.
They then zero whatever is still missing and fit a random forest.

This project models the coercion and the cleaning step around it.

- `analisa_planilha_e_tabela.py` does the coercion with `limpar_numero`. It:
  - strips the cell's text;
  - zeroes Excel date artefacts (`2025-`, `4324-`);
  - turns commas into points;
  - tries `float()`;
  - on failure, takes the first match of `[-+]?\d*\.\d+|\d+`, or 0.0 when there is none.
- `analise_tabela_binaria.py` does the coercion with `limpar_valor_numerico`. It:
  - keeps ints and floats as they are;
  - tries `float()` on the stripped text of anything else;
  - falls back to 0.0.
- Both scripts apply their cleaner to a fixed list of columns, where present, and then call `fillna(0)`.
- The second script also stops with an error when the target column is missing. Otherwise it splits the features from the target.

Modules:

- `Text` (text.dfy) covers `str.strip()` with Python's `isspace` set, the `in` substring test, `replace(',', '.')`, ASCII lower-casing and `\d`.
- `PyFloat` (pyfloat.dfy) covers `float(text)` on its decimal grammar, with exact values. `float()` trims a narrower whitespace set than `strip()`: it keeps U+001C..U+001F. A float is `Finite(neg, mant, exp)`, `Infinity(neg)` or `NaN`. The module also gives:
  - a declarative grammar, with a proof that the parser accepts exactly it;
  - a text form for floats that `float()` reads back unchanged.
- `NumberRegex` (numberregex.dfy) covers `re.search` for the fallback pattern. It is a left-to-right scanner, proved equal to a declarative "leftmost match" predicate.
- `Table` (table.dfy) covers cells, the column map and `Series.apply`. It also covers `fillna(0)`, as functions and as a `DataFrame` class whose methods update it in place.
- `SpreadsheetAnalysis` (spreadsheet.dfy) covers `limpar_numero` and the first script's cleaning step.
- `BinaryTableAnalysis` (binarytable.dfy) covers `limpar_valor_numerico`, the second script's cleaning step and the target guard.

The model follows what the code does, including where it departs from what it appears to intend:

- `limpar_numero` is meant to return a best-effort finite float that defaults to zero. It does not always return a finite float:
  - the text `inf` (or `infinity`, `nan`, in any case) is passed to `float()` and comes back non-finite;
  - a NaN cell renders as `nan` and stays NaN until `fillna`;
  - `SpreadsheetAnalysis.NonFiniteResults` shows both.
- The comment at analise_tabela_binaria.py:26 says non-numeric characters are removed before `float()`. The code removes nothing: `BinaryTableAnalysis.TrailingTextBecomesZero` and `CommaTextBecomesZero` show text with stray characters becoming 0.0.

## Model

| member | source | states |
|---|---|---|
| Text.Strip | analisa_planilha_e_tabela.py:25 | `str.strip()` with the `isspace` set; its meaning is in `StripSplit` and the lemmas below |
| Text.TrimStartSpec | analisa_planilha_e_tabela.py:25 | `lstrip` removes exactly a leading run of whitespace and stops at the first other character |
| Text.TrimEndSpec | analisa_planilha_e_tabela.py:25 | `rstrip` removes exactly a trailing run of whitespace and stops at the last other character |
| Text.StripSplit | analisa_planilha_e_tabela.py:25 | `strip()` returns a core with no whitespace at either end, and the input is that core with only whitespace before and after it |
| Text.StripIgnoresSurroundingSpace | analisa_planilha_e_tabela.py:25 | adding whitespace on either side never changes what `strip()` returns |
| Text.StripIdempotent | analisa_planilha_e_tabela.py:25 | stripping twice is stripping once |
| Text.ContainsSurvivesStrip | analisa_planilha_e_tabela.py:25-26 | a pattern with no outer whitespace that occurs in the raw text still occurs after stripping |
| Text.CommaToDot | analisa_planilha_e_tabela.py:28 | `replace(',', '.')`; its meaning is in `CommaToDotMeaning` |
| Text.CommaToDotMeaning | analisa_planilha_e_tabela.py:28 | every comma becomes a point and every other character stays: no comma is left, comma-free text is unchanged, and a second pass does nothing |
| Text.RunEndExact | analisa_planilha_e_tabela.py:30 | greedy `\d*` is the longest digit run: no run from the same start is longer, and a run that stops at a non-digit is it |
| PyFloat.DigitsOf | analisa_planilha_e_tabela.py:25 | the decimal digits of a number are non-empty, all digits, spell the number back, and do not start with 0 unless the number is 0 |
| PyFloat.ParseFloat | analisa_planilha_e_tabela.py:28 | `float(text)`, `None` where it raises; its meaning is in `ParseFloatAcceptsGrammar`, `FloatStripAgrees` and `RenderRoundTrip` |
| PyFloat.ExponentIff | analisa_planilha_e_tabela.py:28 | the exponent suffix is accepted exactly when it is empty or `e`/`E`, an optional sign and digits |
| PyFloat.NumeralSound | analisa_planilha_e_tabela.py:28 | whatever the numeral parser accepts is a numeral (digits with an optional point, at least one digit) followed by an exponent |
| PyFloat.NumeralComplete | analisa_planilha_e_tabela.py:28 | every numeral followed by an exponent is accepted |
| PyFloat.ParseFloatAcceptsGrammar | analisa_planilha_e_tabela.py:28 | `float(s)` succeeds exactly when the text inside the whitespace `float()` trims is a float literal: optional sign, then a numeral with exponent or `inf`/`infinity`/`nan` in any case |
| PyFloat.FloatStripAgrees | analisa_planilha_e_tabela.py:28 | on text without U+001C..U+001F, `float()` trims exactly the whitespace `strip()` removes |
| PyFloat.SeparatorNotFloatSpace | analisa_planilha_e_tabela.py:28 | U+001C is whitespace to `strip()` but not to `float()`: `strip()` drops a leading one, while `float()` raises on it |

| PyFloat.ParseSignedPoint | analisa_planilha_e_tabela.py:28 | sign, digits, a point and a non-empty fraction parse to the exact decimal the digits spell, negative exactly for `-` |
| PyFloat.ParseDigits | analisa_planilha_e_tabela.py:31 | a run of digits parses to the whole number it spells |
| PyFloat.Render | analisa_planilha_e_tabela.py:25 | `str()` of a float cell, as an exact scientific form; its meaning is in `RenderRoundTrip` |
| PyFloat.RenderRoundTrip | analisa_planilha_e_tabela.py:25-28 | `float()` reads the text form of every float, finite or not, back as the same float |
| NumberRegex.Search | analisa_planilha_e_tabela.py:30 | `re.search` with the fallback pattern; its meaning is in `SearchIsLeftmost` and `LeftmostIsSearch` |
| NumberRegex.SearchFrom | analisa_planilha_e_tabela.py:30 | a span found from a position is a match, and no earlier position from there matches; none found means no position matches |
| NumberRegex.DecimalEndSound | analisa_planilha_e_tabela.py:30 | where the scanner's first alternative succeeds, the text it covers is `[-+]?\d*\.\d+` |
| NumberRegex.DecimalEndMaximal | analisa_planilha_e_tabela.py:30 | every `[-+]?\d*\.\d+` match at a position ends no later than the scanner's, so the scanner takes the longest |
| NumberRegex.IntegerEndExact | analisa_planilha_e_tabela.py:30 | the second alternative covers a digit run, and no `\d+` match at that position is longer |
| NumberRegex.MatchEndIff | analisa_planilha_e_tabela.py:30 | the scanner matches at a position exactly when the pattern does, and takes its first alternative exactly when that one can match |
| NumberRegex.SearchIsLeftmost | analisa_planilha_e_tabela.py:30 | the span `re.search` returns is the leftmost match, with the first alternative preferred and the longest text for the chosen alternative |
| NumberRegex.LeftmostIsSearch | analisa_planilha_e_tabela.py:30 | any span satisfying the leftmost-match description is the one returned |
| NumberRegex.LeftmostEndUnique | analisa_planilha_e_tabela.py:30 | the leftmost-match description fixes the end of the match |
| NumberRegex.SearchNoneIffNoDigit | analisa_planilha_e_tabela.py:30-31 | the pattern finds nothing exactly when the text has no digit |
| NumberRegex.DecimalTokenParses | analisa_planilha_e_tabela.py:31 | a first-alternative match parses to a finite float that is negative exactly when the match starts with `-` |
| NumberRegex.MatchParses | analisa_planilha_e_tabela.py:31 | the matched text is non-empty, `float()` accepts it, the value is finite and its sign is that of a leading `-`, so `float(match.group())` never raises |
| Table.StrForm | analisa_planilha_e_tabela.py:25 | `str(val)` of a cell: digits of an int, the text form of a float, the text itself, `None`; used by `NumbersKept` and `NoneBecomesZero` |
| Table.MapCells | analisa_planilha_e_tabela.py:38 | `Series.apply(f)`; its meaning is in `ApplyAllListed` |
| Table.ApplyAll | analisa_planilha_e_tabela.py:36-38 | the loop over the column names; its meaning is in `ApplyAllFrame` and `ApplyAllListed` |
| Table.FillNa | analisa_planilha_e_tabela.py:40 | `fillna(0)`; its meaning is in `FillNaClears` |
| Table.ApplyAllFrame | analisa_planilha_e_tabela.py:36-38 | the loop keeps the set of columns and every column's length, and leaves unlisted columns unchanged |
| Table.ApplyAllListed | analisa_planilha_e_tabela.py:36-38 | a listed column that is present ends up as the cleaner applied once to each of its original cells |
| Table.FillNaClears | analisa_planilha_e_tabela.py:40 | after `fillna(0)` no cell is missing, non-missing cells are unchanged, missing ones are 0, and columns and lengths stay |
| Table.CleanThenFill | analisa_planilha_e_tabela.py:36-40 | loop then `fillna`: same columns and row count; listed columns hold the cleaned cell, or 0 where it is missing; other columns only have missing cells set to 0 |
| Table.DataFrame.CleanColumns | analisa_planilha_e_tabela.py:36-38 | the in-place loop over the names leaves the table the fold of "apply the cleaner to the column if present" over the list, with the row count kept |
| Table.DataFrame.FillMissing | analisa_planilha_e_tabela.py:40 | `df = df.fillna(0)` replaces the columns with their filled form and keeps the row count |
| SpreadsheetAnalysis.HasDateSentinel | analisa_planilha_e_tabela.py:26 | the date-artefact test; its effect is in `DateSentinelGivesZero` |
| SpreadsheetAnalysis.CleanNumberText | analisa_planilha_e_tabela.py:25-31 | `limpar_numero` on the text of a cell; its meaning is in `CleanNumberMeaning` |
| SpreadsheetAnalysis.CleanStripped | analisa_planilha_e_tabela.py:26-31 | the same after the strip; its meaning is in `CleanNumberMeaning` and `PlainTextCleaning` |
| SpreadsheetAnalysis.ParseOrExtract | analisa_planilha_e_tabela.py:27-31 | the `try`/`except` pair; its meaning is in `ParseOrExtractMeaning` |
| SpreadsheetAnalysis.FirstNumber | analisa_planilha_e_tabela.py:30-31 | the fallback always gives a finite float; the rest of its meaning is in `FirstNumberMeaning` |
| SpreadsheetAnalysis.CleanNumber | analisa_planilha_e_tabela.py:24-31 | `limpar_numero(val)`; its meaning is in `CleanNumberMeaning`, `NumbersKept` and `CleanNumberIdempotent` |
| SpreadsheetAnalysis.CleanNumberCell | analisa_planilha_e_tabela.py:38 | what `apply(limpar_numero)` stores is always a float |
| SpreadsheetAnalysis.CleanedTable | analisa_planilha_e_tabela.py:36-40 | the table after the loop and `fillna(0)`; its meaning is in `CleanedTableShape` |
| SpreadsheetAnalysis.CleanSpreadsheet | analisa_planilha_e_tabela.py:36-40 | the cleaning step leaves the table the cleaned-and-filled table of its old contents, with the same row count |
| SpreadsheetAnalysis.CleanNumberMeaning | analisa_planilha_e_tabela.py:24-31 | a date artefact gives 0.0; otherwise a float literal (after commas become points) gives its value; otherwise the result is finite, a leftmost match exists when there is a digit and the result is its value, and the result is 0.0 when there is no digit |
| SpreadsheetAnalysis.ParseOrExtractMeaning | analisa_planilha_e_tabela.py:27-31 | on stripped text, the `try` branch is taken exactly when the text is a float literal, else the fallback decides |
| SpreadsheetAnalysis.FirstNumberMeaning | analisa_planilha_e_tabela.py:30-31 | the fallback is finite; text with a digit has a leftmost match, and the fallback equals the parse of every leftmost match; it is 0.0 when the text has no digit (and non-zero results need a digit) |
| SpreadsheetAnalysis.DateSentinelGivesZero | analisa_planilha_e_tabela.py:25-26 | `2025-` or `4324-` anywhere in the raw text gives 0.0, before any parsing |
| SpreadsheetAnalysis.SurroundingSpaceIgnored | analisa_planilha_e_tabela.py:25 | whitespace around the text never changes the result |
| SpreadsheetAnalysis.NumbersKept | analisa_planilha_e_tabela.py:24-28 | a float cell comes back as the same float and an int cell as the same number |
| SpreadsheetAnalysis.CleanNumberIdempotent | analisa_planilha_e_tabela.py:24-31 | cleaning an already cleaned cell changes nothing |
| SpreadsheetAnalysis.NumericColumnsDistinct | analisa_planilha_e_tabela.py:33-34 | the four listed column names are pairwise different |
| SpreadsheetAnalysis.CleanedTableShape | analisa_planilha_e_tabela.py:33-40 | columns and row count kept; each numeric column present holds the cleaned float of each cell (0 where that is NaN); other columns only lose their missing cells; nothing is missing |
| SpreadsheetAnalysis.PlainTextCleaning | analisa_planilha_e_tabela.py:25-28 | text with no outer whitespace and no date artefact goes straight to the comma-to-point parse |
| SpreadsheetAnalysis.CommaDecimal | analisa_planilha_e_tabela.py:28 | digits, a comma and digits give that decimal: "3,2" is 32e-1 |
| SpreadsheetAnalysis.TwoCommas | analisa_planilha_e_tabela.py:28-31 | with two commas `float()` fails on the pointed text and the first decimal is taken: "1,234,5" is 1.234 |
| SpreadsheetAnalysis.NonFiniteResults | analisa_planilha_e_tabela.py:27-28 | "inf" gives infinity and a NaN cell gives NaN, so the result is not always finite |
| SpreadsheetAnalysis.DateBecomesZero | analisa_planilha_e_tabela.py:26 | " 2025-02-03" gives 0.0 |
| SpreadsheetAnalysis.NegativeIntegerLosesSign | analisa_planilha_e_tabela.py:30-31 | "-5 mA" gives +5.0: only the decimal alternative takes a sign, so a negative whole number followed by a unit loses it |
| BinaryTableAnalysis.CleanNumericValue | analise_tabela_binaria.py:12-32 | the result is always an int or a float, and an int or float cell is returned unchanged |
| BinaryTableAnalysis.CleanNumericValueMeaning | analise_tabela_binaria.py:17-32 | for any other cell: the float the stripped text spells when it is a float literal, and 0.0 exactly otherwise |
| BinaryTableAnalysis.CleanNumericValueIdempotent | analise_tabela_binaria.py:20-21 | cleaning a cleaned cell changes nothing |
| BinaryTableAnalysis.ColumnsToCleanDistinct | analise_tabela_binaria.py:47-51 | the three listed column names are pairwise different |
| BinaryTableAnalysis.CleanedTable | analise_tabela_binaria.py:53-58 | the table after the loop and `fillna(0)`; its meaning is in `CleanedTableShape` |
| BinaryTableAnalysis.CleanedTableShape | analise_tabela_binaria.py:53-58 | columns and row count kept; each listed column present holds ints and floats only, the cleaned cell (0 where it is NaN); other columns only lose their missing cells; nothing is missing |
| BinaryTableAnalysis.PrepareTrainingData | analise_tabela_binaria.py:53-69 | cleans and fills the table in place; fails with the missing-target error exactly when the target column is absent; otherwise the features are every other column and the target is the cleaned target column |
| BinaryTableAnalysis.TargetIsNumeric | analise_tabela_binaria.py:58-69 | when the target exists, it is one int or float per row, none of them missing |
| BinaryTableAnalysis.StrayCharacterFails | analise_tabela_binaria.py:25-32 | digits followed by a character that cannot continue a number make `float()` raise |
| BinaryTableAnalysis.CommaTextBecomesZero | analise_tabela_binaria.py:25-32 | there is no comma handling: "3,2" gives 0.0 |
| BinaryTableAnalysis.TrailingTextBecomesZero | analise_tabela_binaria.py:25-32 | nothing is removed from the text: digits followed by stray text give 0.0 |
| BinaryTableAnalysis.DateTextBecomesZero | analise_tabela_binaria.py:13-32 | the documented date example "2025-02-03" gives 0.0 |
| BinaryTableAnalysis.SurroundingSpaceIgnored | analise_tabela_binaria.py:17 | whitespace around the text never changes the result |
| BinaryTableAnalysis.NoneBecomesZero | analise_tabela_binaria.py:17-32 | a `None` cell (text "None") gives 0.0 |

## Left out

- Reading and writing spreadsheets (`read_excel`, `read_csv`, `to_excel`), the hard-coded file names, console output and `exit()` are I/O. The file-not-found branch is I/O too. The missing-target stop is kept, as an error result of `PrepareTrainingData`.
- The random forest (fit, predict, `feature_importances_`) is a floating-point library computation.
- The importance ranking and its formatting are presentation of library output.
- `pd.get_dummies`, `drop(errors='ignore')` and `select_dtypes` in the first script come after the cleaning step. They depend on pandas' column naming and dtype inference.
- Floats are exact decimals. IEEE-754 rounding and overflow to infinity are not modelled.
- `float()` is modelled for ASCII digits only. Underscores between digits and non-ASCII digits are not modelled. `\d` is likewise restricted to ASCII digits.
- A float cell's `str()` is an exact scientific form (`-125e-1`), not Python's shortest `repr`. Both read back to the same value, but texts differ (for instance `repr` writes `1e+16`). The date and comma checks never fire on either form.
- `str()` of other objects (timestamps, numpy scalars and so on) is taken as given: such a cell is a `TextCell` holding its text.
- `bool` cells are not modelled. Python treats `True` as an `int`, so `limpar_valor_numerico` would keep it.
- `fillna(0)` writes the int 0. pandas dtypes, and whether a column is later upcast to float, are not modelled.
- Missing values are `None` and float NaN. `NaT` and `pd.NA` are not modelled.
- The features after `drop` keep pandas' column order. The model uses a map from names to columns, so column order is not captured.

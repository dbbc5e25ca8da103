# CCAA reference table: cleaning and value normalisation

The `CCAA` class downloads the INE table of Spanish autonomous communities (CCAA) and
their provinces. It turns the table into a pandas DataFrame and cleans it. It then
offers `normalise_values`, which maps noisy strings onto the canonical values of one
column by fuzzy matching. This project models the two steps that make decisions and
proves properties about them:

- **Table cleaning** (`_clean_pd_table`). The columns get the names
  `DEFAULT_COLUMN_NAMES`. Then every row with a cell whose lower-cased text contains
  `"ciudad"` is dropped. Then each column where the regex `.0` matches some cell is
  picked out. Every cell of a picked column becomes `zfill(replace(cell, ".0", ""), 2)`.
- **Value normalisation** (`normalise_values`). The reference list is the column's
  distinct values, in the order they first appear. For each dirty value, the best
  match from `rapidfuzz.process.extractOne` is emitted if its score is at least the
  threshold (default 85). Otherwise the dirty value is emitted unchanged and reported.

Files:

- `errors.dfy`: `Option`, `Result`, and the exceptions the two methods raise (`Failure`).
- `text.dfy`: `str.lower`, substring search, literal `str.replace(pat, '')` and
  Python's `str.zfill`, with lemmas about them.
- `tables.dfy`: the DataFrame as column names plus rows of text cells, and
  `Series.unique()`.
- `cleaning.dfy`: each cleaning step as a function, and the lemmas about cleaning.
- `matching.dfy`: the scorer as a parameter, `extractOne`, the replacement rule, and
  the normalisation loop as a function over the dirty values.
- `inereq.dfy`: the class `Ccaa`. It has a `pdTable` field, `CleanPdTable` updating
  that field step by step, and `NormaliseValues`, whose `for` loop is proved against
  `NormaliseSpec`.

Cells are modelled as the strings pandas would print (`astype(str)`). So the final
`astype(str)` at line 90 changes nothing. The similarity scorer is a parameter of type
`Scorer`: any function from two strings to an integer in 0..100. When several reference
values share the best score, `ExtractOne` picks the first of them. That tie rule is the
model's own choice, not something stated about rapidfuzz.

## Where the code departs from what one would expect

The model follows the code in each of these cases.

- Custom column names. One would expect a custom list of the right length to be
  applied. At line 77, however, the code reads `self.custom_column_names`, an attribute
  nothing ever sets. So any custom list raises `AttributeError` before anything changes
  (`Failure.UndefinedAttribute`). Line 62 passes on `fetch_data`'s own argument, which
  is `None` when `fetch_data` is reached from `__init__` (line 24).
- Wrong number of columns. On the default path, assigning the four default names to a
  table with a different number of columns raises pandas' length-mismatch `ValueError`
  (`Failure.LengthMismatch`). Nothing is substituted silently.
- Picking the float-id columns. One would expect `".0"` to be a substring test. pandas
  `str.contains` treats it as a regex, so a column is picked when some cell has a `'0'`
  after a character other than a newline. For example, `"10"` qualifies
  (`RegexWiderThanLiteral`).
- Removing `".0"`. Every non-overlapping occurrence is removed, scanning from the left,
  not just a trailing one. This removal can leave a new `".0"` behind: `"..00"` becomes
  `".0"` (`ReformatCellNotIdempotent`).
- Cleaning twice. One would expect cleaning an already-clean table to change nothing,
  and no cleaned row to contain `"ciudad"`. Neither holds in general. The
  cell rewrite runs after the row filter, so `"ciu.0dad"` survives the filter and then
  becomes `"ciudad"` (`KeywordReintroduced`, `CleanedNotIdempotent`). Both claims do hold
  when every cell is either text without a dot or a code such as `"12.0"`
  (`CleanedIdempotent`).
- Empty reference list. When the table has no rows and the dirty list is not empty,
  `extractOne` returns `None` and the unpacking at line 104 raises `TypeError`
  (`Failure.NothingToUnpack`). When the dirty list is empty, the result is `[]`.

## Model

| member | source | states |
|---|---|---|
| `Cleaning.Rename` | inereq.py:81 | assigning the default names replaces the column labels only: the rows are untouched and keep their width |
| `Cleaning.HasKeyword` | inereq.py:83 | the per-cell test of the mask: the lower-cased cell contains "ciudad", which needs a cell at least six characters long |
| `Cleaning.KeywordAnyCase` | inereq.py:83 | the keyword test ignores case: a cell containing any spelling that lower-cases to "ciudad" ("Ciudad", "CIUDAD") has the keyword |
| `Cleaning.RowHasKeyword` | inereq.py:83 | the mask: some cell of the row holds the keyword, so a row of short cells is never dropped |
| `Cleaning.MatchesDotZero` | inereq.py:86 | the regex `.0` matches somewhere in the cell, which needs a cell of length two or more holding a '0' |
| `Cleaning.ColumnMatches` | inereq.py:86 | the `.any()` over a column: some cell of the column matches the regex, so a column of an empty table never does |
| `Cleaning.FloatIdCols` | inereq.py:86 | `float_id_cols` names only columns of the table, no more entries than there are columns, and no name twice when the column names are distinct |
| `Cleaning.ReformatCell` | inereq.py:88 | `replace('.0', '')` then `zfill(2)` only removes characters and inserts '0's: every character of the result is from the cell or a '0' |
| `Cleaning.ReformatColumns` | inereq.py:87-88 | the column-wise assignment keeps the column names, the number of rows and the row width |
| `Cleaning.Cleaned` | inereq.py:72-90 | the default path ends with exactly the default column names, no more rows than before, and every row four wide |
| `Cleaning.DefaultColumnNamesDistinct` | inereq.py:9 | `DEFAULT_COLUMN_NAMES` is four distinct names, so the cleaned table's columns can be looked up by name |
| `Cleaning.FilterRows` | inereq.py:83-84 | the kept rows are some of the input rows, none of them has a cell containing the keyword, and there are never more of them |
| `Cleaning.FilterRowsSpec` | inereq.py:83-84 | the filter keeps exactly the rows with no cell containing "ciudad" after lower-casing; their positions increase, so the original order is kept |
| `Cleaning.FilterRowsIdempotent` | inereq.py:83-84 | filtering already-filtered rows drops nothing more |
| `Cleaning.DropKeywordRows` | inereq.py:84 | the mask selection keeps the column names and keeps every row the right width |
| `Cleaning.FloatIdColsSpec` | inereq.py:86 | a column is in `float_id_cols` exactly when some cell in it matches the regex `.0` |
| `Cleaning.RegexWiderThanLiteral` | inereq.py:86 | every literal ".0" matches the regex, but "10" also matches without containing ".0" |
| `Cleaning.ReformatFloatIdsSpec` | inereq.py:86-88 | columns, row count and widths are kept; a cell is rewritten exactly when its column matches, and is then at least two long; all other cells are unchanged |
| `Cleaning.ReformatCellLength` | inereq.py:88 | every rewritten cell is at least two characters long |
| `Cleaning.ReformatCellFixedIff` | inereq.py:88 | the rewrite leaves a cell unchanged exactly when it is at least two long and has no ".0" (for example "10" and "02") |
| `Cleaning.ReformatCellIdempotentIff` | inereq.py:88 | rewriting a cell a second time changes it exactly when the first rewrite left a ".0" behind |
| `Cleaning.FloatCodeReformatted` | inereq.py:88 | digits followed by ".0" become the digits, padded to two: "2.0" becomes "02" and "15.0" becomes "15" |
| `Cleaning.ReformatCellNotIdempotent` | inereq.py:88 | "..00" is rewritten to ".0", which is rewritten again to "00" |
| `Cleaning.CleanedShape` | inereq.py:77-90 | the cleaned table has exactly the default columns, one row per row the filter keeps, and is well formed |
| `Cleaning.CleanedSpec` | inereq.py:72-90 | each cell of the cleaned table is the kept row's cell, rewritten exactly when its column matches the regex |
| `Cleaning.CleanedIdempotent` | inereq.py:72-90 | when every cell is dot-free text or a float-formatted code, cleaning a cleaned table gives it back unchanged |
| `Cleaning.KeywordReintroduced` | inereq.py:83-88 | a kept cell that spells the keyword only after the rewrite leaves a keyword row in the cleaned table, and a second cleaning changes that table |
| `Cleaning.CleanedNotIdempotent` | inereq.py:83-88 | there is a four-column table whose cleaned form holds the keyword and is changed by cleaning again |
| `Text.Lower` | inereq.py:83 | lower-casing keeps the length, turns each capital `A`-`Z` into its lower-case letter, and leaves every other character alone |
| `Text.Contains` | inereq.py:83 | the `str.contains('ciudad')` test: the pattern occurs at some position, which needs a string at least as long as the pattern |
| `Text.RemoveAll` | inereq.py:88 | `replace(pat, '')` only drops characters: every character of the result occurs in the input |
| `Text.ZFill` | inereq.py:88 | `zfill` only adds '0's: every character of the result is from the input or a '0' |
| `Text.RemoveAllAbsent` | inereq.py:88 | `replace` leaves a string without the pattern unchanged |
| `Text.RemoveAllShorter` | inereq.py:88 | `replace` makes a string that holds the pattern strictly shorter |
| `Text.RemoveAllFixedIff` | inereq.py:88 | `replace` leaves a string unchanged exactly when the pattern does not occur in it |
| `Text.RemoveDotZeroAfterDotFree` | inereq.py:88 | a prefix without dots passes through the removal of ".0" untouched |
| `Text.ZFillFacts` | inereq.py:88 | `zfill` never shortens, pads to at least the width, keeps strings already that wide, and keeps dot-free and all-digit strings so |
| `Tables.ColumnValues` | inereq.py:86 | `df[col]` (also `df[name]` at line 99): one cell per row, the cell of row i in that column |
| `Tables.Unique` | inereq.py:99 | `unique()` never yields more values than the column has |
| `Tables.UniqueSpec` | inereq.py:99 | `unique()` holds exactly the column's values, each once, ordered by first appearance |
| `Matching.ReferenceList` | inereq.py:99 | the reference list holds exactly the values of the named column, without repeats, is empty exactly when the table has no rows, and is the column's `unique()` |
| `Matching.ReferenceListFirstSeen` | inereq.py:99 | the reference list is ordered by where each value first appears in the column |
| `Matching.BestIndex` | inereq.py:104 | the chosen position has a score no other choice beats, and is the first with that score |
| `Matching.ExtractOne` | inereq.py:104 | no match for an empty list; otherwise a member of the list, with its score, scoring at least as high as every other member |
| `Matching.Replacement` | inereq.py:104-113 | if some reference value reaches the threshold (inclusive), the output is a reference value that reaches it and scores highest; if none does, the output is the dirty value |
| `Matching.Unmatched` | inereq.py:109-113 | a dirty value falls to the reporting branch exactly when every reference value scores below the threshold |
| `Matching.NormaliseList` | inereq.py:100-115 | the loop appends exactly one value per dirty value and reports at most one position per dirty value |
| `Matching.NormaliseListSpec` | inereq.py:100-115 | one output per dirty value, in order; output i is the replacement of input i; the reported positions are exactly those with no reference value at the threshold, in increasing order |
| `Matching.ThresholdAboveHundredKeepsAll` | inereq.py:106 | with a threshold above 100, every value is kept and reported |
| `Matching.ThresholdAtMostZeroReplacesAll` | inereq.py:106 | with a threshold of 0 or less, every value becomes a reference value and none is reported |
| `Matching.ExactValueKept` | inereq.py:104-107 | if a reference value scores 100 against itself and every other value scores lower (an assumption about the scorer), that value is returned unchanged for any threshold up to 100 |
| `Inereq.NormaliseSpec` | inereq.py:92-115 | `TypeError` without a table; `KeyError` for an unknown column; `TypeError` for an empty table and a non-empty dirty list; otherwise one output per input, output i being the replacement of input i, with the unmatched positions reported |
| `Inereq.Ccaa.constructor` | inereq.py:16-22 | the object holds the table that fetching produced, or none, and is valid: a held table is rectangular with distinct column labels, as `read_html` gives |
| `Inereq.Ccaa.CleanPdTable` | inereq.py:72-90 | custom names raise `AttributeError`, and a table without four columns raises the length-mismatch error, both leaving the table unchanged; otherwise the table becomes `Cleaned` of the old one, with the default columns and the filtered row count |
| `Inereq.Ccaa.NormaliseValues` | inereq.py:92-115 | the loop returns exactly `NormaliseSpec` of the held table: the error, or the cleaned list and the unmatched positions |

## Left out

- `fetch_data` (lines 43-70): the HTTP request, the status code and error-message
  fields, BeautifulSoup's `select('table')[0]`, `pd.read_html` and the `to_pd` flag.
  These are network and HTML input. The constructor takes the parsed table, or its
  absence, as a parameter instead.
- `Inereq.Ccaa.constructor`: `__init__` goes on to clean the table, through
  `fetch_data` (line 24) and line 62. In the model that cleaning is a separate
  `CleanPdTable(None)` call on the new object. So the constructor leaves the table
  uncleaned, and it does not model the `ValueError` that makes `__init__` itself fail
  when the page's table does not have four columns.
- `__str__` (lines 26-41): printing only.
- The message printed at lines 111-112 is modelled as the list of unmatched positions
  (`Normalisation.unmatched`). Its wording is not modelled.
- How rapidfuzz scores strings (WRatio and its processors). The scorer is an abstract
  parameter. Real scores are floats; the model uses integers.
- Recent rapidfuzz versions return `(choice, score, index)` from `extractOne`, while
  line 104 unpacks two values. On those versions line 104 raises `ValueError` for the
  first dirty value whenever the reference list is not empty. The model assumes the
  two-value form that line expects. The library version is not pinned in the source.
- Line 88 is modelled as a literal `str.replace`, which is pandas' default from
  version 2.0. In pandas 1.x the default is `regex=True`, and the two-character pattern
  `.0` is then a regex, so `"10"` would become `"00"`. The model assumes pandas 2.
- pandas type inference, such as integers read as `1` or floats printed as `"1.0"` or
  `"nan"`. Cells are their string forms from the start.
- The DataFrame's row index labels, which `df[~mask]` keeps. The model has no row index.
- pandas' handling of a frame with no rows at lines 83-84. There `apply` does not
  call the lambda row by row, so `mask` is not a boolean row mask. The selection at
  line 84 may then pick columns rather than rows and leave a frame with no columns, in
  which case a later `normalise_values` raises `KeyError`. The model instead keeps the
  four default columns and no rows.
- Duplicate column names. Cleaned tables always have the four distinct default names.
  Duplicates in a table read from the page are outside the model.
- Lower-casing only maps `A`-`Z`. The keyword is ASCII. The only non-ASCII character
  that lower-cases to one of its letters is `U+0130`, which lower-cases to `i` followed
  by a combining dot, so it cannot complete a match. The test at line 83 therefore
  gives the same answer.
- `Cleaning.CleanedIdempotent`: proved only for tables whose cells are dot-free text or
  float-formatted codes, because in general cleaning is not idempotent
  (`Cleaning.CleanedNotIdempotent`).

/** The pure steps of `CCAA._clean_pd_table`: naming the columns, dropping the
    "ciudad" rows, picking the float-id columns and rewriting their cells. */
module Cleaning {
  import opened Text
  import opened Tables

  /** `CCAA.DEFAULT_COLUMN_NAMES`. */
  const DefaultColumnNames: seq<string> := ["id_ccaa", "ccaa", "id_prov", "prov"]

  /** The word that marks a row as one to drop. */
  const Keyword: string := "ciudad"

  /** `str(cell).lower()` contains the keyword. */
  predicate HasKeyword(cell: string)
    ensures HasKeyword(cell) ==> |cell| >= |Keyword|
  {
    Contains(Lower(cell), Keyword)
  }

  /** The row mask of the filter: some cell of the row holds the keyword. */
  predicate RowHasKeyword(row: Row)
    ensures RowHasKeyword(row) ==> exists cell :: cell in row && |cell| >= |Keyword|
  {
    exists j :: 0 <= j < |row| && HasKeyword(row[j])
  }

  /** `df.columns = names`. */
  function Rename(t: Table, names: seq<string>): (r: Table)
    requires |names| == |t.columns|
    ensures r.columns == names && r.rows == t.rows
    ensures Rectangular(t) ==> Rectangular(r)
  {
    Table(names, t.rows)
  }

  /** `df[~mask]`: the rows without the keyword, in their original order. */
  function FilterRows(rows: seq<Row>): (kept: seq<Row>)
    ensures |kept| <= |rows|
    ensures forall r :: r in kept ==> r in rows && !RowHasKeyword(r)
  {
    if rows == [] then []
    else
      var last := rows[|rows| - 1];
      FilterRows(rows[..|rows| - 1]) + (if RowHasKeyword(last) then [] else [last])
  }

  /** The positions of the rows the filter keeps (where the mask is false). */
  function KeptIndices(rows: seq<Row>): (ks: seq<nat>)
    ensures |ks| <= |rows|
  {
    if rows == [] then []
    else
      KeptIndices(rows[..|rows| - 1])
      + (if RowHasKeyword(rows[|rows| - 1]) then [] else [|rows| - 1])
  }

  function DropKeywordRows(t: Table): (r: Table)
    ensures r.columns == t.columns
    ensures Rectangular(t) ==> Rectangular(r)
  {
    Table(t.columns, FilterRows(t.rows))
  }

  /** `re.search('.0', cell)`: some '0' follows a character other than a newline. */
  predicate MatchesDotZero(cell: string)
    ensures MatchesDotZero(cell) ==> |cell| >= 2 && '0' in cell
  {
    exists i :: 1 <= i < |cell| && cell[i] == '0' && cell[i - 1] != '\n'
  }

  /** `df[col].astype(str).str.contains('.0').any()` for the column at index `j`. */
  predicate ColumnMatches(t: Table, j: nat)
    requires Rectangular(t) && j < |t.columns|
    ensures ColumnMatches(t, j) ==> t.rows != []
  {
    exists i :: 0 <= i < |t.rows| && MatchesDotZero(t.rows[i][j])
  }

  /** The names, in column order, of the matching columns among the first `n`. */
  function FloatIdColsUpTo(t: Table, n: nat): (cols: seq<string>)
    requires Rectangular(t) && n <= |t.columns|
    ensures |cols| <= n
    ensures forall c :: c in cols ==> c in t.columns[..n]
    ensures Distinct(t.columns) ==> Distinct(cols)
  {
    if n == 0 then []
    else
      var prev := FloatIdColsUpTo(t, n - 1);
      assert forall k :: 0 <= k < |prev| ==> prev[k] in t.columns[..n - 1];
      prev + (if ColumnMatches(t, n - 1) then [t.columns[n - 1]] else [])
  }

  /** `float_id_cols`. */
  function FloatIdCols(t: Table): (cols: seq<string>)
    requires Rectangular(t)
    ensures |cols| <= |t.columns|
    ensures forall c :: c in cols ==> c in t.columns
    ensures Distinct(t.columns) ==> Distinct(cols)
  {
    FloatIdColsUpTo(t, |t.columns|)
  }

  /** `str(cell).replace('.0', '').zfill(2)`. */
  function ReformatCell(cell: string): (r: string)
    ensures forall c :: c in r ==> c in cell || c == '0'
  {
    ZFill(RemoveAll(cell, ".0"), 2)
  }

  function RewriteRow(row: Row, columns: seq<string>, selected: seq<string>): (r: Row)
    requires |row| == |columns|
    ensures |r| == |row|
  {
    seq(|row|, j requires 0 <= j < |row| => if columns[j] in selected then ReformatCell(row[j]) else row[j])
  }

  /** `df[selected] = df[selected].apply(...)`: the cells of the selected columns are
      reformatted, all others kept. */
  function ReformatColumns(t: Table, selected: seq<string>): (r: Table)
    requires Rectangular(t)
    ensures r.columns == t.columns && |r.rows| == |t.rows| && Rectangular(r)
  {
    Table(t.columns, seq(|t.rows| , i requires 0 <= i < |t.rows| => RewriteRow(t.rows[i], t.columns, selected)))
  }

  /** The table `_clean_pd_table` leaves behind on its default path. The closing
      `astype(str)` is the identity, the cells being text already. */
  function Cleaned(t: Table): (c: Table)
    requires Rectangular(t) && |t.columns| == |DefaultColumnNames|
    ensures c.columns == DefaultColumnNames && |c.rows| <= |t.rows| && Rectangular(c)
  {
    var kept := DropKeywordRows(Rename(t, DefaultColumnNames));
    ReformatColumns(kept, FloatIdCols(kept))
  }

  // ---------------------------------------------------------------- row filter

  /** The keyword test ignores case: a cell holding "Ciudad", "CIUDAD" or any other
      spelling that lower-cases to the keyword has the keyword. */
  lemma KeywordAnyCase(cell: string, w: string)
    requires Lower(w) == Keyword && Contains(cell, w)
    ensures HasKeyword(cell)
  {
    var i :| 0 <= i <= |cell| && OccursAt(cell, w, i);
    assert Lower(cell)[i..i + |w|] == Lower(cell[i..i + |w|]);
    assert OccursAt(Lower(cell), Keyword, i);
  }

  lemma {:induction false} KeptIndicesBounded(rows: seq<Row>)
    ensures forall k :: 0 <= k < |KeptIndices(rows)| ==> KeptIndices(rows)[k] < |rows|
  {
    if rows != [] {
      KeptIndicesBounded(rows[..|rows| - 1]);
    }
  }

  lemma {:induction false} KeptIndicesIncreasing(rows: seq<Row>)
    ensures forall k, l :: 0 <= k < l < |KeptIndices(rows)| ==> KeptIndices(rows)[k] < KeptIndices(rows)[l]
  {
    if rows != [] {
      KeptIndicesIncreasing(rows[..|rows| - 1]);
      KeptIndicesBounded(rows[..|rows| - 1]);
    }
  }

  lemma {:induction false} KeptIndicesMembers(rows: seq<Row>)
    ensures forall i: nat :: i in KeptIndices(rows) <==> i < |rows| && !RowHasKeyword(rows[i])
  {
    if rows != [] {
      var p := rows[..|rows| - 1];
      KeptIndicesMembers(p);
      KeptIndicesBounded(p);
      assert forall i :: 0 <= i < |p| ==> rows[i] == p[i];
    }
  }

  lemma {:induction false} KeptIndicesPick(rows: seq<Row>)
    ensures |KeptIndices(rows)| == |FilterRows(rows)|
    ensures forall k :: 0 <= k < |KeptIndices(rows)| ==>
      KeptIndices(rows)[k] < |rows| && FilterRows(rows)[k] == rows[KeptIndices(rows)[k]]
  {
    KeptIndicesBounded(rows);
    if rows != [] {
      var p := rows[..|rows| - 1];
      KeptIndicesPick(p);
      KeptIndicesBounded(p);
      assert forall i :: 0 <= i < |p| ==> rows[i] == p[i];
    }
  }

  /** The filter keeps exactly the rows without the keyword, in their order: the kept
      positions increase, are exactly the keyword-free rows, and pick out the output. */
  lemma FilterRowsSpec(rows: seq<Row>)
    ensures |KeptIndices(rows)| == |FilterRows(rows)|
    ensures forall k, l :: 0 <= k < l < |KeptIndices(rows)| ==> KeptIndices(rows)[k] < KeptIndices(rows)[l]
    ensures forall i: nat :: i in KeptIndices(rows) <==> i < |rows| && !RowHasKeyword(rows[i])
    ensures forall k :: 0 <= k < |KeptIndices(rows)| ==>
      KeptIndices(rows)[k] < |rows| && FilterRows(rows)[k] == rows[KeptIndices(rows)[k]]
  {
    KeptIndicesIncreasing(rows);
    KeptIndicesMembers(rows);
    KeptIndicesPick(rows);
  }

  lemma {:induction false} FilterRowsKeepsClean(rows: seq<Row>)
    requires forall r :: r in rows ==> !RowHasKeyword(r)
    ensures FilterRows(rows) == rows
  {
    if rows != [] {
      var p := rows[..|rows| - 1];
      FilterRowsKeepsClean(p);
      assert rows == p + [rows[|rows| - 1]];
    }
  }

  /** Filtering a filtered list of rows drops nothing more. */
  lemma FilterRowsIdempotent(rows: seq<Row>)
    ensures FilterRows(FilterRows(rows)) == FilterRows(rows)
  {
    FilterRowsKeepsClean(FilterRows(rows));
  }

  // ---------------------------------------------------------------- column selection

  lemma {:induction false} FloatIdColsUpToSpec(t: Table, n: nat)
    requires Rectangular(t) && n <= |t.columns|
    ensures forall name :: name in FloatIdColsUpTo(t, n) <==>
      exists j :: 0 <= j < n && t.columns[j] == name && ColumnMatches(t, j)
  {
    if n > 0 {
      FloatIdColsUpToSpec(t, n - 1);
    }
  }

  /** A column is among `float_id_cols` exactly when one of its cells matches the regex. */
  lemma FloatIdColsSpec(t: Table)
    requires WellFormed(t)
    ensures forall j :: 0 <= j < |t.columns| ==> (t.columns[j] in FloatIdCols(t) <==> ColumnMatches(t, j))
  {
    FloatIdColsUpToSpec(t, |t.columns|);
  }

  /** Every literal ".0" is a match of the regex, but the regex also fires on "10". */
  lemma RegexWiderThanLiteral(s: string)
    ensures Contains(s, ".0") ==> MatchesDotZero(s)
    ensures MatchesDotZero("10") && !Contains("10", ".0")
  {
    if Contains(s, ".0") {
      var i :| 0 <= i <= |s| && OccursAt(s, ".0", i);
      assert s[i..i + 2][1] == s[i + 1] && s[i..i + 2][0] == s[i];
      assert 1 <= i + 1 < |s| && s[i + 1] == '0' && s[i] != '\n';
    }
    assert 1 <= 1 < |"10"| && "10"[1] == '0' && "10"[0] != '\n';
    DotFreeHasNoDotZero("10");
  }

  // ---------------------------------------------------------------- cell rewrite

  /** A rewritten cell is at least two characters long. */
  lemma ReformatCellLength(cell: string)
    ensures |ReformatCell(cell)| >= 2
  {
  }

  /** The rewrite leaves a cell alone exactly when it is two or more characters long
      and holds no ".0" -- so "10" and "02" are kept. */
  lemma ReformatCellFixedIff(cell: string)
    ensures ReformatCell(cell) == cell <==> |cell| >= 2 && !Contains(cell, ".0")
  {
    var removed := RemoveAll(cell, ".0");
    ZFillFacts(removed, 2);
    if Contains(cell, ".0") {
      RemoveAllShorter(cell, ".0");
      if |cell| == 2 {
        var i :| 0 <= i <= |cell| && OccursAt(cell, ".0", i);
        assert cell == ".0";
        assert removed == RemoveAll("", ".0") == "";
      }
    } else {
      RemoveAllAbsent(cell, ".0");
    }
  }

  /** Rewriting a rewritten cell changes it again exactly when the first rewrite left a
      ".0" behind. */
  lemma ReformatCellIdempotentIff(cell: string)
    ensures ReformatCell(ReformatCell(cell)) == ReformatCell(cell) <==> !Contains(ReformatCell(cell), ".0")
  {
    ReformatCellLength(cell);
    ReformatCellFixedIff(ReformatCell(cell));
  }

  /** A float-formatted code loses its ".0" and is padded to two digits:
      "2.0" becomes "02", "15.0" becomes "15". */
  lemma FloatCodeReformatted(digits: string)
    requires |digits| >= 1 && AllDigits(digits)
    ensures ReformatCell(digits + ".0") == if |digits| == 1 then "0" + digits else digits
  {
    RemoveDotZeroAfterDotFree(digits, ".0");
    assert RemoveAll(".0", ".0") == "" by {
      assert OccursAt(".0", ".0", 0);
      assert ".0"[2..] == "";
    }
    assert digits + "" == digits;
  }

  /** Removing ".0" can leave a ".0" behind, so the rewrite is not idempotent. */
  lemma ReformatCellNotIdempotent()
    ensures ReformatCell("..00") == ".0" && ReformatCell(".0") == "00"
  {
  }

  // ---------------------------------------------------------------- table rewrite

  /** The float-id rewrite keeps the columns, the number of rows and the shape; a cell is
      rewritten exactly when its column has a cell matching the regex, and is then at
      least two characters long; every other cell is unchanged. */
  lemma ReformatFloatIdsSpec(t: Table)
    requires WellFormed(t)
    ensures var r := ReformatColumns(t, FloatIdCols(t));
      && r.columns == t.columns && |r.rows| == |t.rows| && WellFormed(r)
      && (forall i, j :: 0 <= i < |t.rows| && 0 <= j < |t.columns| ==>
            r.rows[i][j] == if ColumnMatches(t, j) then ReformatCell(t.rows[i][j]) else t.rows[i][j])
      && (forall i, j :: 0 <= i < |t.rows| && 0 <= j < |t.columns| && ColumnMatches(t, j) ==>
            |r.rows[i][j]| >= 2)
  {
    FloatIdColsSpec(t);
    var selected := FloatIdCols(t);
    var r := ReformatColumns(t, selected);
    forall i, j | 0 <= i < |t.rows| && 0 <= j < |t.columns|
      ensures r.rows[i][j] == if ColumnMatches(t, j) then ReformatCell(t.rows[i][j]) else t.rows[i][j]
      ensures ColumnMatches(t, j) ==> |r.rows[i][j]| >= 2
    {
      assert t.rows[i] in t.rows;
      assert r.rows[i] == RewriteRow(t.rows[i], t.columns, selected);
      ReformatCellLength(t.rows[i][j]);
    }
  }

  lemma DefaultColumnNamesDistinct()
    ensures |DefaultColumnNames| == 4 && Distinct(DefaultColumnNames)
  {
  }

  lemma CleanedShape(t: Table)
    requires Rectangular(t) && |t.columns| == |DefaultColumnNames|
    ensures Cleaned(t).columns == DefaultColumnNames && WellFormed(Cleaned(t))
    ensures |Cleaned(t).rows| == |FilterRows(t.rows)|
  {
    DefaultColumnNamesDistinct();
    var kept := DropKeywordRows(Rename(t, DefaultColumnNames));
    forall r | r in Cleaned(t).rows
      ensures |r| == 4
    {
      var i :| 0 <= i < |Cleaned(t).rows| && Cleaned(t).rows[i] == r;
      assert kept.rows[i] in kept.rows;
    }
  }

  /** On its default path the cleaner names the four columns `DEFAULT_COLUMN_NAMES`, keeps
      exactly the keyword-free rows and rewrites the float-id columns of what is left. */
  lemma CleanedSpec(t: Table)
    requires Rectangular(t) && |t.columns| == |DefaultColumnNames|
    ensures var kept := DropKeywordRows(Rename(t, DefaultColumnNames));
      var c := Cleaned(t);
      && c.columns == DefaultColumnNames && WellFormed(c)
      && kept.rows == FilterRows(t.rows) && |c.rows| == |kept.rows| <= |t.rows|
      && (forall i, j :: 0 <= i < |kept.rows| && 0 <= j < 4 ==>
            c.rows[i][j] == if ColumnMatches(kept, j) then ReformatCell(kept.rows[i][j]) else kept.rows[i][j])
  {
    DefaultColumnNamesDistinct();
    ReformatFloatIdsSpec(DropKeywordRows(Rename(t, DefaultColumnNames)));
  }

  // ---------------------------------------------------------------- cleaning twice

  /** "12.0": digits followed by ".0", the text pandas gives an integer code read as a float. */
  predicate IsFloatCode(cell: string) {
    |cell| >= 3 && cell[|cell| - 2..] == ".0" && AllDigits(cell[..|cell| - 2])
  }

  /** Every cell is either text without a dot or a float-formatted code. */
  ghost predicate CodesOrPlainText(t: Table) {
    forall r, cell :: r in t.rows && cell in r ==> DotFree(cell) || IsFloatCode(cell)
  }

  lemma CellAfterRewrite(cell: string)
    requires DotFree(cell) || IsFloatCode(cell)
    ensures DotFree(ReformatCell(cell)) && |ReformatCell(cell)| >= 2
    ensures !HasKeyword(cell) ==> !HasKeyword(ReformatCell(cell))
    ensures IsFloatCode(cell) ==> MatchesDotZero(cell)
  {
    ReformatCellLength(cell);
    if IsFloatCode(cell) {
      var digits := cell[..|cell| - 2];
      assert cell == digits + ".0";
      FloatCodeReformatted(digits);
      var r := ReformatCell(cell);
      assert AllDigits(r);
      DigitsHoldNoWord(r, Keyword);
      var i := |cell| - 1;
      assert cell[i] == cell[|cell| - 2..][1] == '0';
      assert cell[i - 1] == cell[|cell| - 2..][0] == '.';
    } else {
      DotFreeHasNoDotZero(cell);
      RemoveAllAbsent(cell, ".0");
      ZFillFacts(cell, 2);
      if |cell| < 2 {
        ShortHoldsNoWord(Lower(ReformatCell(cell)), Keyword);
      }
    }
  }

  /** One cell of the cleaned table, read off the filtered rows. */
  lemma CleanedAt(t: Table, i: nat, j: nat)
    requires Rectangular(t) && |t.columns| == |DefaultColumnNames|
    requires i < |FilterRows(t.rows)| && j < 4
    ensures var kept := DropKeywordRows(Rename(t, DefaultColumnNames));
      && |Cleaned(t).rows| == |kept.rows| && |Cleaned(t).rows[i]| == 4 && |kept.rows[i]| == 4
      && Cleaned(t).rows[i][j] == if ColumnMatches(kept, j) then ReformatCell(kept.rows[i][j]) else kept.rows[i][j]
  {
    DefaultColumnNamesDistinct();
    FloatIdColsSpec(DropKeywordRows(Rename(t, DefaultColumnNames)));
  }

  lemma CleanedCellsTidy(t: Table)
    requires Rectangular(t) && |t.columns| == |DefaultColumnNames| && CodesOrPlainText(t)
    ensures var c := Cleaned(t);
      forall i, j :: 0 <= i < |c.rows| && 0 <= j < |c.rows[i]| ==>
        DotFree(c.rows[i][j]) && !HasKeyword(c.rows[i][j])
  {
    var kept := DropKeywordRows(Rename(t, DefaultColumnNames));
    var c := Cleaned(t);
    forall i, j | 0 <= i < |c.rows| && 0 <= j < |c.rows[i]|
      ensures DotFree(c.rows[i][j]) && !HasKeyword(c.rows[i][j])
    {
      CleanedAt(t, i, j);
      var x := kept.rows[i][j];
      assert kept.rows[i] in t.rows && x in kept.rows[i];
      assert !RowHasKeyword(kept.rows[i]);
      CellAfterRewrite(x);
    }
  }

  lemma UnmatchedStaysUnmatched(t: Table, j: nat)
    requires Rectangular(t) && |t.columns| == |DefaultColumnNames| && j < 4
    requires !ColumnMatches(DropKeywordRows(Rename(t, DefaultColumnNames)), j)
    ensures CleanedWellFormed(t) && !ColumnMatches(Cleaned(t), j)
  {
    var c := Cleaned(t);
    CleanedSpec(t);
    forall i | 0 <= i < |c.rows|
      ensures !MatchesDotZero(c.rows[i][j])
    {
      CleanedAt(t, i, j);
    }
  }

  ghost predicate CleanedWellFormed(t: Table)
    requires Rectangular(t) && |t.columns| == |DefaultColumnNames|
  {
    Cleaned(t).columns == DefaultColumnNames && WellFormed(Cleaned(t))
  }

  lemma CleanedMatchedLong(t: Table, i: nat, j: nat)
    requires Rectangular(t) && |t.columns| == |DefaultColumnNames| && CodesOrPlainText(t)
    requires i < |FilterRows(t.rows)| && j < 4
    requires ColumnMatches(DropKeywordRows(Rename(t, DefaultColumnNames)), j)
    ensures |Cleaned(t).rows[i]| == 4 && |Cleaned(t).rows[i][j]| >= 2
  {
    CleanedAt(t, i, j);
    ReformatCellLength(DropKeywordRows(Rename(t, DefaultColumnNames)).rows[i][j]);
  }

  /** On tables whose cells are dot-free text or float-formatted codes, cleaning a
      cleaned table gives it back unchanged. */
  lemma CleanedIdempotent(t: Table)
    requires Rectangular(t) && |t.columns| == |DefaultColumnNames| && CodesOrPlainText(t)
    ensures Cleaned(Cleaned(t)) == Cleaned(t)
  {
    var kept := DropKeywordRows(Rename(t, DefaultColumnNames));
    var c := Cleaned(t);
    CleanedSpec(t);
    CleanedCellsTidy(t);
    forall r | r in c.rows
      ensures !RowHasKeyword(r)
    {
      var i :| 0 <= i < |c.rows| && c.rows[i] == r;
    }
    FilterRowsKeepsClean(c.rows);
    assert DropKeywordRows(Rename(c, DefaultColumnNames)) == c;
    var c2 := Cleaned(c);
    CleanedSpec(c);
    forall i | 0 <= i < |c.rows|
      ensures |c2.rows[i]| == |c.rows[i]| == 4
    {
      CleanedAt(c, i, 0);
    }
    forall i, j | 0 <= i < |c.rows| && 0 <= j < |c.rows[i]|
      ensures c2.rows[i][j] == c.rows[i][j]
    {
      CleanedAt(c, i, j);
      if ColumnMatches(c, j) {
        if !ColumnMatches(kept, j) {
          UnmatchedStaysUnmatched(t, j);
        } else {
          CleanedMatchedLong(t, i, j);
          DotFreeHasNoDotZero(c.rows[i][j]);
          ReformatCellFixedIff(c.rows[i][j]);
        }
      }
    }
    SameCells(c2, c);
  }

  lemma CiuDotZeroDadHasNoKeyword()
    ensures !HasKeyword("ciu.0dad")
  {
    assert Lower("ciu.0dad") == "ciu.0dad";
    forall i | 0 <= i <= 8
      ensures !OccursAt("ciu.0dad", Keyword, i)
    {
      if i <= 2 {
        assert "ciu.0dad"[i..i + 6][3 - i] == "ciu.0dad"[3];
      }
    }
  }

  lemma CiuDotZeroDadRewritten()
    ensures ReformatCell("ciu.0dad") == "ciudad"
  {
    assert "ciu.0dad" == "ciu" + ".0dad";
    RemoveDotZeroAfterDotFree("ciu", ".0dad");
    assert OccursAt(".0dad", ".0", 0) && ".0dad"[2..] == "dad";
    DotFreeHasNoDotZero("dad");
    RemoveAllAbsent("dad", ".0");
  }

  lemma {:induction false} FilterRowsDropsKeywordRow(rows: seq<Row>, k: nat)
    requires k < |rows| && RowHasKeyword(rows[k])
    ensures |FilterRows(rows)| < |rows|
  {
    var p := rows[..|rows| - 1];
    if k < |rows| - 1 {
      assert p[k] == rows[k];
      FilterRowsDropsKeywordRow(p, k);
    }
  }

  /** A kept row whose float-id cell spells the keyword only once rewritten ends up in
      the cleaned table, and cleaning that table again drops it. */
  lemma KeywordReintroduced(t: Table, i: nat, j: nat)
    requires Rectangular(t) && |t.columns| == |DefaultColumnNames| && i < |t.rows| && j < 4
    requires !RowHasKeyword(t.rows[i]) && MatchesDotZero(t.rows[i][j])
    requires HasKeyword(ReformatCell(t.rows[i][j]))
    ensures ReintroducesKeyword(t)
  {
    var kept := DropKeywordRows(Rename(t, DefaultColumnNames));
    var c := Cleaned(t);
    FilterRowsSpec(t.rows);
    assert i in KeptIndices(t.rows);
    var k :| 0 <= k < |KeptIndices(t.rows)| && KeptIndices(t.rows)[k] == i;
    assert kept.rows[k] == t.rows[i];
    assert ColumnMatches(kept, j);
    CleanedAt(t, k, j);
    assert RowHasKeyword(c.rows[k]);
    CleanedShape(t);
    CleanedShape(c);
    FilterRowsDropsKeywordRow(c.rows, k);
  }

  /** The cleaned table holds a row with the keyword, and cleaning it again changes it. */
  ghost predicate ReintroducesKeyword(t: Table)
  {
    && Rectangular(t) && |t.columns| == |DefaultColumnNames|
    && (CleanedSpec(t); exists k :: 0 <= k < |Cleaned(t).rows| && RowHasKeyword(Cleaned(t).rows[k]))
    && Cleaned(Cleaned(t)) != Cleaned(t)
  }

  /** The row of the counterexample below passes the filter. */
  lemma CounterexampleRowKept()
    ensures !RowHasKeyword(["ciu.0dad", "a", "b", "c"])
  {
    var row := ["ciu.0dad", "a", "b", "c"];
    CiuDotZeroDadHasNoKeyword();
    assert forall j :: 1 <= j < 4 ==> |row[j]| < |Keyword|;
  }

  /** Without the condition of `CleanedIdempotent` cleaning is not idempotent, and the
      cleaned table can hold the keyword: the regex matches in "ciu.0dad", and dropping
      its ".0" spells "ciudad" after the rows have been filtered. */
  lemma CleanedNotIdempotent()
    ensures exists t :: ReintroducesKeyword(t)
  {
    var t := Table(DefaultColumnNames, [["ciu.0dad", "a", "b", "c"]]);
    CounterexampleRowKept();
    CiuDotZeroDadRewritten();
    assert "ciu.0dad"[4] == '0' && "ciu.0dad"[3] != '\n';
    assert OccursAt(Lower("ciudad"), Keyword, 0);
    KeywordReintroduced(t, 0, 0);
  }
}

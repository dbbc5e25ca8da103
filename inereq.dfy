/** The `CCAA` object: the table it holds and its two methods with decision logic,
    `_clean_pd_table` and `normalise_values`. */
module Inereq {
  import opened Errors
  import opened Tables
  import opened Cleaning
  import opened Matching

  /** What `normalise_values` returns, or the exception it raises, for the table the
      object holds. */
  function NormaliseSpec(table: Option<Table>, refColumnName: string, dirty: seq<string>,
                         scorer: Scorer, threshold: int): (r: Result<Normalisation>)
    requires table.Some? ==> Rectangular(table.value)
    ensures r == Err(NoTable) <==> table.None?
    ensures table.Some? ==> (r == Err(UnknownColumn(refColumnName)) <==> refColumnName !in table.value.columns)
    ensures r.Ok? <==> table.Some? && refColumnName in table.value.columns && (table.value.rows != [] || dirty == [])
    ensures r.Ok? ==> |r.value.values| == |dirty|
    ensures r.Ok? && table.value.rows != [] ==>
      var refs := ReferenceList(table.value, refColumnName);
      && (forall i :: 0 <= i < |dirty| ==> r.value.values[i] == Replacement(dirty[i], refs, scorer, threshold))
      && (forall k: nat :: k in r.value.unmatched <==> k < |dirty| && Unmatched(dirty[k], refs, scorer, threshold))
    ensures r.Ok? && table.value.rows == [] ==> r.value == Normalisation([], [])
    ensures table.Some? && refColumnName in table.value.columns && table.value.rows == [] && dirty != [] ==>
      r == Err(NothingToUnpack(0))
  {
    if table.None? then Err(NoTable)
    else if refColumnName !in table.value.columns then Err(UnknownColumn(refColumnName))
    else
      var refs := ReferenceList(table.value, refColumnName);
      if refs != [] then
        NormaliseListSpec(dirty, refs, scorer, threshold);
        Ok(NormaliseList(dirty, refs, scorer, threshold))
      else if dirty == [] then Ok(Normalisation([], []))
      else Err(NothingToUnpack(0))
  }

  class Ccaa {
    /** `self.pd_table`: the table read from the page, or None when the request failed. */
    var pdTable: Option<Table>

    ghost predicate Valid()
      reads this
    {
      pdTable.Some? ==> WellFormed(pdTable.value)
    }

    /** The object as `fetch_data` leaves it just before cleaning: holding the table
        `read_html` produced, or none when the request failed. */
    constructor (fetched: Option<Table>)
      requires fetched.Some? ==> WellFormed(fetched.value)
      ensures pdTable == fetched && Valid()
    {
      pdTable := fetched;
    }

    /** `_clean_pd_table`. It raises before changing anything when custom names are
        given (line 77 reads an attribute that is never set) or when the table does not
        have as many columns as `DEFAULT_COLUMN_NAMES`; otherwise it leaves the cleaned
        table behind. */
    method CleanPdTable(customColumnNames: Option<seq<string>>) returns (outcome: Outcome)
      requires pdTable.Some? && Rectangular(pdTable.value)
      modifies this
      ensures customColumnNames.Some? ==>
        outcome == Fail(UndefinedAttribute("custom_column_names")) && pdTable == old(pdTable)
      ensures customColumnNames.None? && |old(pdTable).value.columns| != |DefaultColumnNames| ==>
        outcome == Fail(LengthMismatch(|old(pdTable).value.columns|, |DefaultColumnNames|)) && pdTable == old(pdTable)
      ensures outcome.Pass? <==> customColumnNames.None? && |old(pdTable).value.columns| == |DefaultColumnNames|
      ensures outcome.Pass? ==>
        && pdTable == Some(Cleaned(old(pdTable).value))
        && pdTable.value.columns == DefaultColumnNames
        && |pdTable.value.rows| == |FilterRows(old(pdTable).value.rows)|
        && Valid()
    {
      if customColumnNames.Some? {
        return Fail(UndefinedAttribute("custom_column_names"));
      }
      var table := pdTable.value;
      if |table.columns| != |DefaultColumnNames| {
        return Fail(LengthMismatch(|table.columns|, |DefaultColumnNames|));
      }
      pdTable := Some(Rename(table, DefaultColumnNames));
      pdTable := Some(DropKeywordRows(pdTable.value));
      var floatIdCols := FloatIdCols(pdTable.value);
      pdTable := Some(ReformatColumns(pdTable.value, floatIdCols));
      // The closing `astype(str)` changes nothing: every cell is text already.
      CleanedShape(table);
      return Pass;
    }

    /** `normalise_values`: the reference list is the column's distinct values; each
        dirty value is replaced by its best match when that scores at least
        `simThreshold`, and kept and reported otherwise. */
    method NormaliseValues(refColumnName: string, dirtyValues: seq<string>, scorer: Scorer,
                           simThreshold: int := DefaultThreshold)
      returns (result: Result<Normalisation>)
      requires Valid()
      ensures result == NormaliseSpec(pdTable, refColumnName, dirtyValues, scorer, simThreshold)
    {
      if pdTable.None? {
        return Err(NoTable);
      }
      var table := pdTable.value;
      if refColumnName !in table.columns {
        return Err(UnknownColumn(refColumnName));
      }
      var referenceList := ReferenceList(table, refColumnName);
      var cleanedValues: seq<string> := [];
      var unmatched: seq<nat> := [];
      for index := 0 to |dirtyValues|
        invariant referenceList != [] ==>
          Normalisation(cleanedValues, unmatched) == NormaliseList(dirtyValues[..index], referenceList, scorer, simThreshold)
        invariant referenceList == [] ==> index == 0 && cleanedValues == [] && unmatched == []
      {
        var value := dirtyValues[index];
        var found := ExtractOne(value, referenceList, scorer);
        if found.None? {
          return Err(NothingToUnpack(index));
        }
        assert dirtyValues[..index + 1][..index] == dirtyValues[..index];
        if found.value.score >= simThreshold {
          cleanedValues := cleanedValues + [found.value.choice];
        } else {
          unmatched := unmatched + [index];
          cleanedValues := cleanedValues + [value];
        }
      }
      assert dirtyValues[..|dirtyValues|] == dirtyValues;
      return Ok(Normalisation(cleanedValues, unmatched));
    }
  }
}

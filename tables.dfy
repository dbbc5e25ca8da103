/** The DataFrame as the cleaner and the matcher see it: column names and rows of
    text cells, every cell already in its `astype(str)` form. */
module Tables {

  type Row = seq<string>

  datatype Table = Table(columns: seq<string>, rows: seq<Row>)

  /** Every row has one cell per column. */
  ghost predicate Rectangular(t: Table) {
    forall r :: r in t.rows ==> |r| == |t.columns|
  }

  predicate Distinct<T(==)>(s: seq<T>) {
    forall i, j :: 0 <= i < j < |s| ==> s[i] != s[j]
  }

  ghost predicate WellFormed(t: Table) {
    Rectangular(t) && Distinct(t.columns)
  }

  /** The position of the first `x` in `s`. */
  function FirstIndex<T(==)>(s: seq<T>, x: T): (k: nat)
    requires x in s
    ensures k < |s| && s[k] == x
    ensures forall j :: 0 <= j < k ==> s[j] != x
  {
    if s[0] == x then 0 else 1 + FirstIndex(s[1..], x)
  }

  /** `df[name]` as a list of cells, top to bottom. */
  function ColumnValues(t: Table, j: nat): (col: seq<string>)
    requires Rectangular(t) && j < |t.columns|
    ensures |col| == |t.rows|
    ensures forall i :: 0 <= i < |t.rows| ==> col[i] == t.rows[i][j]
  {
    seq(|t.rows|, i requires 0 <= i < |t.rows| => t.rows[i][j])
  }

  /** `Series.unique().tolist()`: each value once, in the order first seen. */
  function Unique(s: seq<string>): (u: seq<string>)
    ensures |u| <= |s|
  {
    if s == [] then []
    else
      var u := Unique(s[..|s| - 1]);
      if s[|s| - 1] in u then u else u + [s[|s| - 1]]
  }

  lemma FirstIndexOfPrefix<T>(s: seq<T>, y: T, x: T)
    requires x in s
    ensures FirstIndex(s + [y], x) == FirstIndex(s, x)
  {
    var k, k' := FirstIndex(s, x), FirstIndex(s + [y], x);
    assert (s + [y])[k] == x;
  }

  lemma {:induction false} UniqueMembers(s: seq<string>)
    ensures forall x :: x in Unique(s) <==> x in s
    ensures Distinct(Unique(s))
  {
    if s != [] {
      UniqueMembers(s[..|s| - 1]);
      assert s == s[..|s| - 1] + [s[|s| - 1]];
    }
  }

  lemma {:induction false} UniqueFirstSeen(s: seq<string>)
    ensures forall x :: x in Unique(s) ==> x in s
    ensures forall i, j :: 0 <= i < j < |Unique(s)| ==>
      FirstIndex(s, Unique(s)[i]) < FirstIndex(s, Unique(s)[j])
  {
    UniqueMembers(s);
    if s != [] {
      var p, y := s[..|s| - 1], s[|s| - 1];
      UniqueFirstSeen(p);
      UniqueMembers(p);
      assert s == p + [y];
      var u := Unique(p);
      forall x | x in p
        ensures FirstIndex(s, x) == FirstIndex(p, x)
      {
        FirstIndexOfPrefix(p, y, x);
      }
      if y !in u {
        assert FirstIndex(s, y) == |p| by {
          assert s[|p|] == y;
        }
        forall i | 0 <= i < |u|
          ensures FirstIndex(s, u[i]) < FirstIndex(s, y)
        {
          assert u[i] in p;
        }
      }
    }
  }

  /** `Unique(s)` holds exactly the values of `s`, each once, ordered by where each
      value first appears in `s`. */
  lemma UniqueSpec(s: seq<string>)
    ensures forall x :: x in Unique(s) <==> x in s
    ensures Distinct(Unique(s))
    ensures forall i, j :: 0 <= i < j < |Unique(s)| ==>
      FirstIndex(s, Unique(s)[i]) < FirstIndex(s, Unique(s)[j])
  {
    UniqueMembers(s);
    UniqueFirstSeen(s);
  }

  /** Two tables with the same columns and the same cells are equal. */
  lemma SameCells(a: Table, b: Table)
    requires a.columns == b.columns && |a.rows| == |b.rows|
    requires forall i :: 0 <= i < |a.rows| ==> |a.rows[i]| == |b.rows[i]|
    requires forall i, j :: 0 <= i < |a.rows| && 0 <= j < |a.rows[i]| ==> a.rows[i][j] == b.rows[i][j]
    ensures a == b
  {
    forall i | 0 <= i < |a.rows|
      ensures a.rows[i] == b.rows[i]
    {
    }
  }
}

/** The value normalisation of `CCAA.normalise_values`: the reference list of a
    column, the best match `rapidfuzz.process.extractOne` picks, and the
    match-or-keep rule applied to every dirty value. */
module Matching {
  import opened Errors
  import opened Tables

  /** The similarity scorer, kept abstract: any function into 0..100. */
  type Scorer = f: (string, string) -> int | forall a, b :: 0 <= f(a, b) <= 100
    witness (a: string, b: string) => 0

  /** The default of `sim_threshold`. */
  const DefaultThreshold: int := 85

  datatype Match = Match(choice: string, score: int)

  /** The position of the first best-scoring choice for `query`. */
  function BestIndex(query: string, choices: seq<string>, scorer: Scorer): (k: nat)
    requires |choices| > 0
    ensures k < |choices|
    ensures forall j :: 0 <= j < |choices| ==> scorer(query, choices[j]) <= scorer(query, choices[k])
    ensures forall j :: 0 <= j < k ==> scorer(query, choices[j]) < scorer(query, choices[k])
  {
    if |choices| == 1 then 0
    else
      var k := BestIndex(query, choices[..|choices| - 1], scorer);
      if scorer(query, choices[|choices| - 1]) > scorer(query, choices[k]) then |choices| - 1 else k
  }

  /** `extractOne(query, choices)`: no match for an empty list, otherwise a choice
      scoring at least as high as every other, together with its score. */
  function ExtractOne(query: string, choices: seq<string>, scorer: Scorer): (r: Option<Match>)
    ensures r.None? <==> choices == []
    ensures r.Some? ==> r.value.choice in choices && r.value.score == scorer(query, r.value.choice)
    ensures r.Some? ==> forall c :: c in choices ==> scorer(query, c) <= r.value.score
  {
    if choices == [] then None
    else
      var k := BestIndex(query, choices, scorer);
      Some(Match(choices[k], scorer(query, choices[k])))
  }

  /** The value emitted for one dirty value: the best match when its score reaches the
      threshold, the dirty value itself otherwise. */
  function Replacement(value: string, refs: seq<string>, scorer: Scorer, threshold: int): (r: string)
    requires refs != []
    ensures (exists c :: c in refs && scorer(value, c) >= threshold) ==>
      r in refs && scorer(value, r) >= threshold && forall c :: c in refs ==> scorer(value, c) <= scorer(value, r)
    ensures (forall c :: c in refs ==> scorer(value, c) < threshold) ==> r == value
  {
    var m := ExtractOne(value, refs, scorer).value;
    if m.score >= threshold then m.choice else value
  }

  /** No reference value reaches the threshold for `value`: the case that is reported. */
  predicate Unmatched(value: string, refs: seq<string>, scorer: Scorer, threshold: int)
    requires refs != []
    ensures Unmatched(value, refs, scorer, threshold) <==> forall c :: c in refs ==> scorer(value, c) < threshold
  {
    ExtractOne(value, refs, scorer).value.score < threshold
  }

  /** The cleaned values and the positions reported as unmatched. */
  datatype Normalisation = Normalisation(values: seq<string>, unmatched: seq<nat>)

  /** The loop of `normalise_values` over the dirty values, against a non-empty
      reference list. */
  function NormaliseList(dirty: seq<string>, refs: seq<string>, scorer: Scorer, threshold: int): (n: Normalisation)
    requires refs != []
    ensures |n.values| == |dirty| && |n.unmatched| <= |dirty|
  {
    if dirty == [] then Normalisation([], [])
    else
      var n := NormaliseList(dirty[..|dirty| - 1], refs, scorer, threshold);
      var value := dirty[|dirty| - 1];
      var m := ExtractOne(value, refs, scorer).value;
      if m.score >= threshold then Normalisation(n.values + [m.choice], n.unmatched)
      else Normalisation(n.values + [value], n.unmatched + [|dirty| - 1])
  }

  lemma {:induction false} NormaliseListValues(dirty: seq<string>, refs: seq<string>, scorer: Scorer, threshold: int)
    requires refs != []
    ensures var n := NormaliseList(dirty, refs, scorer, threshold);
      && |n.values| == |dirty|
      && (forall i :: 0 <= i < |dirty| ==> n.values[i] == Replacement(dirty[i], refs, scorer, threshold))
  {
    if dirty != [] {
      var p := dirty[..|dirty| - 1];
      NormaliseListValues(p, refs, scorer, threshold);
      assert forall i :: 0 <= i < |p| ==> dirty[i] == p[i];
    }
  }

  lemma {:induction false} NormaliseListUnmatchedMembers(dirty: seq<string>, refs: seq<string>, scorer: Scorer, threshold: int)
    requires refs != []
    ensures var n := NormaliseList(dirty, refs, scorer, threshold);
      forall k: nat :: k in n.unmatched <==> k < |dirty| && Unmatched(dirty[k], refs, scorer, threshold)
  {
    if dirty != [] {
      var p := dirty[..|dirty| - 1];
      NormaliseListUnmatchedMembers(p, refs, scorer, threshold);
      assert forall i :: 0 <= i < |p| ==> dirty[i] == p[i];
    }
  }

  lemma {:induction false} NormaliseListUnmatchedIncreasing(dirty: seq<string>, refs: seq<string>, scorer: Scorer, threshold: int)
    requires refs != []
    ensures forall k :: 0 <= k < |NormaliseList(dirty, refs, scorer, threshold).unmatched| ==>
      NormaliseList(dirty, refs, scorer, threshold).unmatched[k] < |dirty|
    ensures forall k, l :: 0 <= k < l < |NormaliseList(dirty, refs, scorer, threshold).unmatched| ==>
      NormaliseList(dirty, refs, scorer, threshold).unmatched[k] < NormaliseList(dirty, refs, scorer, threshold).unmatched[l]
  {
    if dirty != [] {
      NormaliseListUnmatchedIncreasing(dirty[..|dirty| - 1], refs, scorer, threshold);
    }
  }

  lemma NormaliseListUnmatched(dirty: seq<string>, refs: seq<string>, scorer: Scorer, threshold: int)
    requires refs != []
    ensures var n := NormaliseList(dirty, refs, scorer, threshold);
      && (forall k: nat :: k in n.unmatched <==> k < |dirty| && Unmatched(dirty[k], refs, scorer, threshold))
      && (forall k, l :: 0 <= k < l < |n.unmatched| ==> n.unmatched[k] < n.unmatched[l])
  {
    NormaliseListUnmatchedMembers(dirty, refs, scorer, threshold);
    NormaliseListUnmatchedIncreasing(dirty, refs, scorer, threshold);
  }

  /** One output per input, in order; output `i` is the replacement of input `i`; the
      unmatched positions are exactly, and in increasing order, those where no
      reference value reaches the threshold. */
  lemma NormaliseListSpec(dirty: seq<string>, refs: seq<string>, scorer: Scorer, threshold: int)
    requires refs != []
    ensures var n := NormaliseList(dirty, refs, scorer, threshold);
      && |n.values| == |dirty|
      && (forall i :: 0 <= i < |dirty| ==> n.values[i] == Replacement(dirty[i], refs, scorer, threshold))
      && (forall k: nat :: k in n.unmatched <==> k < |dirty| && Unmatched(dirty[k], refs, scorer, threshold))
      && (forall k, l :: 0 <= k < l < |n.unmatched| ==> n.unmatched[k] < n.unmatched[l])
  {
    NormaliseListValues(dirty, refs, scorer, threshold);
    NormaliseListUnmatched(dirty, refs, scorer, threshold);
  }

  /** A threshold above 100 is never reached: every value is kept and reported. */
  lemma ThresholdAboveHundredKeepsAll(dirty: seq<string>, refs: seq<string>, scorer: Scorer, threshold: int)
    requires refs != [] && threshold > 100
    ensures NormaliseList(dirty, refs, scorer, threshold).values == dirty
    ensures forall k: nat :: k < |dirty| ==> k in NormaliseList(dirty, refs, scorer, threshold).unmatched
  {
    NormaliseListSpec(dirty, refs, scorer, threshold);
    var n := NormaliseList(dirty, refs, scorer, threshold);
    forall i | 0 <= i < |dirty|
      ensures n.values[i] == dirty[i]
    {
      assert forall c :: c in refs ==> scorer(dirty[i], c) < threshold;
    }
  }

  /** A threshold of 0 or less is always reached: every value becomes a reference value. */
  lemma {:induction false} ThresholdAtMostZeroReplacesAll(dirty: seq<string>, refs: seq<string>, scorer: Scorer, threshold: int)
    requires refs != [] && threshold <= 0
    ensures |NormaliseList(dirty, refs, scorer, threshold).values| == |dirty|
    ensures forall i :: 0 <= i < |dirty| ==> NormaliseList(dirty, refs, scorer, threshold).values[i] in refs
    ensures NormaliseList(dirty, refs, scorer, threshold).unmatched == []
  {
    NormaliseListSpec(dirty, refs, scorer, threshold);
    var n := NormaliseList(dirty, refs, scorer, threshold);
    forall i | 0 <= i < |dirty|
      ensures n.values[i] in refs
    {
      assert scorer(dirty[i], refs[0]) >= threshold;
    }
    if dirty != [] {
      ThresholdAtMostZeroReplacesAll(dirty[..|dirty| - 1], refs, scorer, threshold);
    }
  }

  /** If, as assumed of the scorer rather than known of it, a reference value scores 100
      against itself and every other reference value lower, then that value is kept as
      it is for any threshold up to 100. */
  lemma ExactValueKept(value: string, refs: seq<string>, scorer: Scorer, threshold: int)
    requires value in refs && scorer(value, value) == 100 && threshold <= 100
    requires forall c :: c in refs && c != value ==> scorer(value, c) < 100
    ensures Replacement(value, refs, scorer, threshold) == value
  {
  }

  /** The reference list of `normalise_values`: `df[name].unique().tolist()`. */
  function ReferenceList(t: Table, name: string): (refs: seq<string>)
    requires Rectangular(t) && name in t.columns
    ensures forall x :: x in refs <==>
      exists i :: 0 <= i < |t.rows| && t.rows[i][FirstIndex(t.columns, name)] == x
    ensures refs == [] <==> t.rows == []
    ensures Distinct(refs)
    ensures refs == Unique(ColumnValues(t, FirstIndex(t.columns, name)))
  {
    var column := ColumnValues(t, FirstIndex(t.columns, name));
    UniqueSpec(column);
    assert t.rows != [] ==> column[0] in column;
    Unique(column)
  }

  /** The reference list is ordered by where each value first appears in the column. */
  lemma ReferenceListFirstSeen(t: Table, name: string)
    requires Rectangular(t) && name in t.columns
    ensures var column := ColumnValues(t, FirstIndex(t.columns, name));
      var refs := ReferenceList(t, name);
      forall i, j :: 0 <= i < j < |refs| ==>
        refs[i] in column && refs[j] in column && FirstIndex(column, refs[i]) < FirstIndex(column, refs[j])
  {
    UniqueSpec(ColumnValues(t, FirstIndex(t.columns, name)));
  }
}

/** The Python string operations the table cleaner relies on: `str.lower`, the
    substring test, `str.replace(pat, '')` with a literal pattern and `str.zfill`. */
module Text {

  /** `str.lower` restricted to ASCII letters; every other character is kept. */
  function LowerChar(c: char): char {
    if 'A' <= c <= 'Z' then (c as int + 32) as char else c
  }

  /** Lower-casing keeps the length, maps each ASCII capital to its lower-case letter
      and leaves every other character alone. */
  function Lower(s: string): (r: string)
    ensures |r| == |s|
    ensures forall i :: 0 <= i < |s| && 'A' <= s[i] <= 'Z' ==> r[i] as int == s[i] as int + 32
    ensures forall i :: 0 <= i < |s| ==> !('A' <= r[i] <= 'Z')
    ensures forall i :: 0 <= i < |s| && !('A' <= s[i] <= 'Z') ==> r[i] == s[i]
  {
    seq(|s|, i requires 0 <= i < |s| => LowerChar(s[i]))
  }

  /** `pat` occurs in `s` starting at index `i`. */
  predicate OccursAt(s: string, pat: string, i: int) {
    0 <= i && i + |pat| <= |s| && s[i..i + |pat|] == pat
  }

  /** `pat in s`: a literal substring test. */
  predicate Contains(s: string, pat: string)
    ensures Contains(s, pat) ==> |pat| <= |s|
  {
    exists i :: 0 <= i <= |s| && OccursAt(s, pat, i)
  }

  predicate IsDigit(c: char) {
    '0' <= c <= '9'
  }

  predicate AllDigits(s: string) {
    forall i :: 0 <= i < |s| ==> IsDigit(s[i])
  }

  predicate DotFree(s: string) {
    forall i :: 0 <= i < |s| ==> s[i] != '.'
  }

  /** `s.replace(pat, '')` for a literal, non-empty `pat`: scanning from the left,
      every non-overlapping occurrence is dropped. */
  function RemoveAll(s: string, pat: string): (r: string)
    requires |pat| > 0
    ensures forall c :: c in r ==> c in s
    decreases |s|
  {
    if |s| == 0 then ""
    else if OccursAt(s, pat, 0) then RemoveAll(s[|pat|..], pat)
    else [s[0]] + RemoveAll(s[1..], pat)
  }

  /** `s.zfill(width)`: pads with '0' on the left up to `width` characters; a leading
      '+' or '-' stays in front of the padding. Strings already `width` long are kept. */
  function ZFill(s: string, width: nat): (r: string)
    ensures forall c :: c in r ==> c in s || c == '0'
  {
    if |s| >= width then s
    else
      var zeros := seq(width - |s|, _ => '0');
      if |s| > 0 && (s[0] == '+' || s[0] == '-') then [s[0]] + zeros + s[1..]
      else zeros + s
  }

  lemma ContainsTail(s: string, pat: string)
    requires |s| > 0 && Contains(s[1..], pat)
    ensures Contains(s, pat)
  {
    var i :| 0 <= i <= |s[1..]| && OccursAt(s[1..], pat, i);
    assert s[1..][i..i + |pat|] == s[i + 1..i + 1 + |pat|];
    assert OccursAt(s, pat, i + 1);
  }

  lemma ContainsNotAtHead(s: string, pat: string)
    requires |s| > 0 && Contains(s, pat) && !OccursAt(s, pat, 0)
    ensures Contains(s[1..], pat)
  {
    var i :| 0 <= i <= |s| && OccursAt(s, pat, i);
    assert i >= 1;
    assert s[1..][i - 1..i - 1 + |pat|] == s[i..i + |pat|];
    assert OccursAt(s[1..], pat, i - 1);
  }

  /** Replacing a pattern that does not occur changes nothing. */
  lemma {:induction false} RemoveAllAbsent(s: string, pat: string)
    requires |pat| > 0 && !Contains(s, pat)
    ensures RemoveAll(s, pat) == s
    decreases |s|
  {
    if |s| > 0 {
      assert !OccursAt(s, pat, 0);
      if Contains(s[1..], pat) {
        ContainsTail(s, pat);
      }
      RemoveAllAbsent(s[1..], pat);
      assert s == [s[0]] + s[1..];
    }
  }

  /** Removing never lengthens a string. */
  lemma {:induction false} RemoveAllNoLonger(s: string, pat: string)
    requires |pat| > 0
    ensures |RemoveAll(s, pat)| <= |s|
    decreases |s|
  {
    if |s| > 0 {
      if OccursAt(s, pat, 0) {
        RemoveAllNoLonger(s[|pat|..], pat);
      } else {
        RemoveAllNoLonger(s[1..], pat);
      }
    }
  }

  /** Removing a pattern that does occur makes the string strictly shorter. */
  lemma {:induction false} RemoveAllShorter(s: string, pat: string)
    requires |pat| > 0 && Contains(s, pat)
    ensures |RemoveAll(s, pat)| < |s|
    decreases |s|
  {
    if OccursAt(s, pat, 0) {
      RemoveAllNoLonger(s[|pat|..], pat);
    } else {
      ContainsNotAtHead(s, pat);
      RemoveAllShorter(s[1..], pat);
    }
  }

  /** A string is left alone by the replacement exactly when the pattern does not occur in it. */
  lemma RemoveAllFixedIff(s: string, pat: string)
    requires |pat| > 0
    ensures RemoveAll(s, pat) == s <==> !Contains(s, pat)
  {
    if Contains(s, pat) {
      RemoveAllShorter(s, pat);
    } else {
      RemoveAllAbsent(s, pat);
    }
  }

  lemma DotFreeHasNoDotZero(s: string)
    requires DotFree(s)
    ensures !Contains(s, ".0")
  {
    forall i | 0 <= i <= |s|
      ensures !OccursAt(s, ".0", i)
    {
      if i + 2 <= |s| {
        assert s[i..i + 2][0] == s[i];
      }
    }
  }

  /** A dot-free prefix passes through the removal of ".0" untouched. */
  lemma {:induction false} RemoveDotZeroAfterDotFree(d: string, x: string)
    requires DotFree(d)
    ensures RemoveAll(d + x, ".0") == d + RemoveAll(x, ".0")
    decreases |d|
  {
    if |d| > 0 {
      assert (d + x)[0] == d[0];
      assert !OccursAt(d + x, ".0", 0) by {
        assert |d + x| >= 2 ==> (d + x)[0..2][0] == d[0];
      }
      assert (d + x)[1..] == d[1..] + x;
      RemoveDotZeroAfterDotFree(d[1..], x);
      calc {
        RemoveAll(d + x, ".0");
        [d[0]] + RemoveAll(d[1..] + x, ".0");
        [d[0]] + (d[1..] + RemoveAll(x, ".0"));
        { assert d == [d[0]] + d[1..]; }
        d + RemoveAll(x, ".0");
      }
    } else {
      assert d + x == x;
    }
  }

  lemma ZFillFacts(s: string, width: nat)
    ensures |ZFill(s, width)| >= width && |ZFill(s, width)| >= |s|
    ensures DotFree(s) ==> DotFree(ZFill(s, width))
    ensures AllDigits(s) ==> AllDigits(ZFill(s, width))
    ensures |s| >= width ==> ZFill(s, width) == s
    ensures |s| < width ==> |ZFill(s, width)| == width
  {
  }

  lemma ShortHoldsNoWord(s: string, word: string)
    requires |s| < |word|
    ensures !Contains(s, word)
  {
  }

  /** A string of digits never holds a lower-cased word such as "ciudad". */
  lemma DigitsHoldNoWord(s: string, word: string)
    requires AllDigits(s) && |word| > 0 && !IsDigit(word[0])
    ensures !Contains(Lower(s), word)
  {
    forall i | 0 <= i <= |s|
      ensures !OccursAt(Lower(s), word, i)
    {
      if i + |word| <= |s| {
        assert Lower(s)[i..i + |word|][0] == LowerChar(s[i]) == s[i];
      }
    }
  }
}

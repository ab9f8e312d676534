/** The two string operations the upload classifier uses: Python's
    `str.lower()` (restricted to ASCII) and the substring test `needle in hay`. */
module Text {

  predicate IsUpper(c: char) {
    'A' <= c <= 'Z'
  }

  /** ASCII lower-casing of one character: upper-case letters move to their
      lower-case partner, every other character is left alone. */
  function LowerChar(c: char): (r: char)
    ensures !IsUpper(r)
    ensures !IsUpper(c) ==> r == c
    ensures IsUpper(c) ==> 'a' <= r <= 'z' && r as int - 'a' as int == c as int - 'A' as int
  {
    if IsUpper(c) then (c as int - 'A' as int + 'a' as int) as char else c
  }

  /** `s.lower()`: lower-cases every character, keeping length and position. */
  function Lower(s: string): (r: string)
    ensures |r| == |s|
    ensures forall i :: 0 <= i < |s| ==> r[i] == LowerChar(s[i])
  {
    if s == [] then [] else [LowerChar(s[0])] + Lower(s[1..])
  }

  /** Lower-casing commutes with taking a slice. */
  lemma LowerSlice(s: string, i: int, j: int)
    requires 0 <= i <= j <= |s|
    ensures Lower(s)[i..j] == Lower(s[i..j])
  {
  }

  /** `needle` occurs in `hay` starting at position `i`. */
  ghost predicate OccursAt(hay: string, needle: string, i: int) {
    0 <= i && i + |needle| <= |hay| && hay[i..i + |needle|] == needle
  }

  /** Python's `needle in hay` on strings, as a left-to-right scan. */
  function Contains(hay: string, needle: string): (b: bool)
    ensures b ==> |needle| <= |hay|
    ensures needle == [] ==> b
    decreases |hay|
  {
    if |needle| > |hay| then false
    else if hay[..|needle|] == needle then true
    else Contains(hay[1..], needle)
  }

  /** The scan finds `needle` exactly when it occurs somewhere in `hay`. */
  lemma {:induction false} ContainsIff(hay: string, needle: string)
    ensures Contains(hay, needle) <==> exists i :: OccursAt(hay, needle, i)
    decreases |hay|
  {
    if |needle| > |hay| {
    } else if hay[..|needle|] == needle {
      assert OccursAt(hay, needle, 0);
    } else {
      ContainsIff(hay[1..], needle);
      if i :| OccursAt(hay, needle, i) {
        assert i != 0;
        assert hay[1..][i - 1..i - 1 + |needle|] == hay[i..i + |needle|];
        assert OccursAt(hay[1..], needle, i - 1);
      }
      if j :| OccursAt(hay[1..], needle, j) {
        assert hay[1..][j..j + |needle|] == hay[j + 1..j + 1 + |needle|];
        assert OccursAt(hay, needle, j + 1);
      }
    }
  }

  /** The window of `s` at position `i` spells `needle` in some mix of cases. */
  ghost predicate OccursIgnoringCase(s: string, needle: string, i: int) {
    0 <= i && i + |needle| <= |s| && Lower(s[i..i + |needle|]) == needle
  }

  /** Testing the lower-cased string finds exactly the windows that spell
      `needle` in any case: "SRS", "Srs" and "srs" all match "srs". */
  lemma ContainsLowerIgnoresCase(s: string, needle: string)
    ensures Contains(Lower(s), needle) <==> exists i :: OccursIgnoringCase(s, needle, i)
  {
    ContainsIff(Lower(s), needle);
    if i :| OccursAt(Lower(s), needle, i) {
      LowerSlice(s, i, i + |needle|);
      assert OccursIgnoringCase(s, needle, i);
    }
    if i :| OccursIgnoringCase(s, needle, i) {
      LowerSlice(s, i, i + |needle|);
      assert OccursAt(Lower(s), needle, i);
    }
  }

  /** A window whose characters lower-case to `needle` is found by the test. */
  lemma ContainsLowerAt(s: string, needle: string, i: int)
    requires 0 <= i && i + |needle| <= |s|
    requires forall k :: 0 <= k < |needle| ==> LowerChar(s[i + k]) == needle[k]
    ensures Contains(Lower(s), needle)
  {
    assert OccursAt(Lower(s), needle, i);
    ContainsIff(Lower(s), needle);
  }

  /** A needle holding a lower-case letter that `s` has in neither case is
      not found in the lower-cased `s`. */
  lemma NotContainsLowerLetter(s: string, needle: string, c: char)
    requires 'a' <= c <= 'z' && c in needle
    requires c !in s && (c as int - 'a' as int + 'A' as int) as char !in s
    ensures !Contains(Lower(s), needle)
  {
    ContainsIff(Lower(s), needle);
  }
}

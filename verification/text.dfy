/**
 * Text operations the student store relies on: `str.lower()`, `str.upper()`
 * and the substring test `term in name`.  Case folding is modelled on the
 * ASCII letters only.
 */
module Text {

  predicate IsUpperChar(c: char) { 'A' <= c <= 'Z' }

  predicate IsLowerChar(c: char) { 'a' <= c <= 'z' }

  /** One character of `str.lower()`. */
  function LowerChar(c: char): char
  {
    if IsUpperChar(c) then (c as int + 32) as char else c
  }

  /** One character of `str.upper()`. */
  function UpperChar(c: char): char
  {
    if IsLowerChar(c) then (c as int - 32) as char else c
  }

  /**
   * `s.lower()`: same length, no upper-case letter left, each upper-case
   * letter replaced by the lower-case letter that `UpperChar` maps back to it,
   * and every other character kept.
   */
  function Lower(s: string): (r: string)
    ensures |r| == |s|
    ensures forall i {:trigger r[i]} | 0 <= i < |r| :: !IsUpperChar(r[i])
    ensures forall i {:trigger r[i]} | 0 <= i < |s| :: IsUpperChar(s[i]) ==> IsLowerChar(r[i]) && UpperChar(r[i]) == s[i]
    ensures forall i {:trigger r[i]} | 0 <= i < |s| :: !IsUpperChar(s[i]) ==> r[i] == s[i]
  {
    seq(|s|, i requires 0 <= i < |s| => LowerChar(s[i]))
  }

  /**
   * `s.upper()`: same length, no lower-case letter left, each lower-case
   * letter replaced by the upper-case letter that `LowerChar` maps back to it,
   * and every other character kept.
   */
  function Upper(s: string): (r: string)
    ensures |r| == |s|
    ensures forall i {:trigger r[i]} | 0 <= i < |r| :: !IsLowerChar(r[i])
    ensures forall i {:trigger r[i]} | 0 <= i < |s| :: IsLowerChar(s[i]) ==> IsUpperChar(r[i]) && LowerChar(r[i]) == s[i]
    ensures forall i {:trigger r[i]} | 0 <= i < |s| :: !IsLowerChar(s[i]) ==> r[i] == s[i]
  {
    seq(|s|, i requires 0 <= i < |s| => UpperChar(s[i]))
  }

  /** Lower-casing after upper-casing is lower-casing: the two foldings identify the same strings. */
  lemma LowerOfUpper(s: string)
    ensures Lower(Upper(s)) == Lower(s)
  {
  }

  /** Upper-casing after lower-casing is upper-casing. */
  lemma UpperOfLower(s: string)
    ensures Upper(Lower(s)) == Upper(s)
  {
  }

  /** Folding twice is folding once: a normalised grade key normalises to itself. */
  lemma UpperIdempotent(s: string)
    ensures Upper(Upper(s)) == Upper(s)
  {
  }

  /** `needle` occurs in `hay` starting at position `i`. */
  predicate OccursAt(hay: string, needle: string, i: int)
  {
    0 <= i && i + |needle| <= |hay| && hay[i..i + |needle|] == needle
  }

  /**
   * Python's `needle in hay` on strings, computed by trying each start
   * position in turn: true exactly when `needle` occurs at some position.
   */
  function Contains(hay: string, needle: string): (r: bool)
    ensures r <==> exists i :: OccursAt(hay, needle, i)
    ensures |needle| == 0 ==> r
    ensures r ==> |needle| <= |hay|
    ensures r && |needle| > 0 ==> exists i | 0 <= i < |hay| :: hay[i] == needle[0]
    decreases |hay|
  {
    if needle <= hay then
      assert OccursAt(hay, needle, 0);
      assert |needle| > 0 ==> hay[0] == needle[0];
      true
    else if |hay| == 0 then
      assert forall i :: !OccursAt(hay, needle, i);
      false
    else
      OccursShift(hay, needle);
      Contains(hay[1..], needle)
  }

  /**
   * When `needle` is not a prefix of `hay`, it occurs in `hay` exactly when it
   * occurs in `hay` without its first character.
   */
  lemma OccursShift(hay: string, needle: string)
    requires |hay| > 0 && !(needle <= hay)
    ensures (exists i :: OccursAt(hay, needle, i)) <==> exists j :: OccursAt(hay[1..], needle, j)
  {
    if i :| OccursAt(hay, needle, i) {
      assert i != 0;
      assert hay[1..][i - 1..i - 1 + |needle|] == hay[i..i + |needle|];
      assert OccursAt(hay[1..], needle, i - 1);
    }
    if j :| OccursAt(hay[1..], needle, j) {
      assert hay[1..][j..j + |needle|] == hay[j + 1..j + 1 + |needle|];
      assert OccursAt(hay, needle, j + 1);
    }
  }

  /** Every position the scan stops at really is an occurrence. */
  lemma {:induction false} ContainsSound(hay: string, needle: string)
    requires Contains(hay, needle)
    ensures exists i :: OccursAt(hay, needle, i)
    decreases |hay|
  {
    if needle <= hay {
      assert OccursAt(hay, needle, 0);
    } else {
      ContainsSound(hay[1..], needle);
      var j :| OccursAt(hay[1..], needle, j);
      assert hay[1..][j..j + |needle|] == hay[j + 1..j + 1 + |needle|];
      assert OccursAt(hay, needle, j + 1);
    }
  }

  /** The scan does not miss an occurrence. */
  lemma {:induction false} ContainsComplete(hay: string, needle: string, i: int)
    requires OccursAt(hay, needle, i)
    ensures Contains(hay, needle)
    decreases |hay|
  {
    if !(needle <= hay) {
      assert OccursAt(hay, needle, 0) ==> needle <= hay;
      assert hay[1..][i - 1..i - 1 + |needle|] == hay[i..i + |needle|];
      ContainsComplete(hay[1..], needle, i - 1);
    }
  }

  /** The scan answers `needle in hay` exactly: true iff some position holds an occurrence. */
  lemma ContainsIffOccurs(hay: string, needle: string)
    ensures Contains(hay, needle) <==> exists i :: OccursAt(hay, needle, i)
  {
    if Contains(hay, needle) {
      ContainsSound(hay, needle);
    }
    if exists i :: OccursAt(hay, needle, i) {
      var i :| OccursAt(hay, needle, i);
      ContainsComplete(hay, needle, i);
    }
  }

  /** The empty search term matches every name, as `'' in s` does in Python. */
  lemma EmptyTermOccurs(hay: string)
    ensures Contains(hay, "")
  {
  }
}

/** The two string primitives the search handler relies on: lower-casing and
    JavaScript's `String.prototype.includes`. Case mapping is ASCII only. */
module Text {

  /** Lower-case one character: `A`..`Z` map to `a`..`z`, everything else is kept. */
  function LowerChar(c: char): (r: char) {
    if 'A' <= c <= 'Z' then (c as int + 32) as char else c
  }

  /** `toLowerCase`, character by character. */
  function Lower(s: string): (r: string)
    ensures |r| == |s|
    ensures forall i :: 0 <= i < |s| ==> r[i] == LowerChar(s[i])
  {
    if |s| == 0 then "" else [LowerChar(s[0])] + Lower(s[1..])
  }

  /** `needle` sits in `hay` starting at index `i`. */
  ghost predicate OccursAt(hay: string, needle: string, i: int) {
    0 <= i && i + |needle| <= |hay| && hay[i..i + |needle|] == needle
  }

  /** `prefix` is an initial segment of `s`. */
  function StartsWith(s: string, prefix: string): (r: bool) {
    |prefix| <= |s| && s[..|prefix|] == prefix
  }

  /** Moving one character to the right in `hay` shifts every occurrence by one. */
  lemma LemmaOccursAtShift(hay: string, needle: string, i: int)
    requires |hay| > 0 && 0 <= i
    ensures OccursAt(hay[1..], needle, i) <==> OccursAt(hay, needle, i + 1)
  {
    if 0 <= i && i + |needle| <= |hay| - 1 {
      assert hay[1..][i..i + |needle|] == hay[i + 1..i + 1 + |needle|];
    }
  }

  /** When `needle` does not start a non-empty `hay`, it occurs in `hay`
      exactly when it occurs in `hay` without its first character. */
  lemma LemmaOccursInTail(hay: string, needle: string)
    requires |hay| > 0 && !StartsWith(hay, needle)
    ensures (exists i :: OccursAt(hay, needle, i)) <==> (exists i :: OccursAt(hay[1..], needle, i))
  {
    if exists i :: OccursAt(hay[1..], needle, i) {
      var i :| OccursAt(hay[1..], needle, i);
      LemmaOccursAtShift(hay, needle, i);
    }
    if exists i :: OccursAt(hay, needle, i) {
      var i :| OccursAt(hay, needle, i);
      assert i != 0;
      LemmaOccursAtShift(hay, needle, i - 1);
    }
  }

  /** `hay.includes(needle)`: scan from the left for a position where
      `needle` starts. It holds exactly when `needle` occurs somewhere. */
  function Includes(hay: string, needle: string): (r: bool)
    ensures r <==> exists i :: OccursAt(hay, needle, i)
    decreases |hay|
  {
    if StartsWith(hay, needle) then
      assert OccursAt(hay, needle, 0);
      true
    else if |hay| == 0 then
      assert !OccursAt(hay, needle, 0);
      false
    else
      LemmaOccursInTail(hay, needle);
      Includes(hay[1..], needle)
  }
}

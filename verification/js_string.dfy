/** A model of String.prototype.indexOf, comparing characters one by one:
    no case folding and no normalisation. Positions count characters (Unicode
    scalar values), not UTF-16 code units as in JavaScript. They agree on
    whether the result is -1, which is all the page asks. */
module JsString {

  /** pat occurs in s starting at position i. */
  predicate OccursAt(s: string, pat: string, i: int) {
    0 <= i && i + |pat| <= |s| && s[i..i + |pat|] == pat
  }

  /** pat is a contiguous substring of s. */
  ghost predicate Contains(s: string, pat: string) {
    exists i :: OccursAt(s, pat, i)
  }

  /** String.prototype.indexOf(pat): the first position where pat occurs in
      s, or -1 when it occurs nowhere. The empty pattern occurs at 0. */
  function IndexOf(s: string, pat: string): (r: int)
    ensures r == -1 <==> !Contains(s, pat)
    ensures r != -1 ==> OccursAt(s, pat, r) && forall j | 0 <= j < r :: !OccursAt(s, pat, j)
  {
    IndexOfFrom(s, pat, 0)
  }

  /** The search of IndexOf, started at position from. */
  function IndexOfFrom(s: string, pat: string, from: nat): (r: int)
    ensures r == -1 <==> forall j | from <= j :: !OccursAt(s, pat, j)
    ensures r != -1 ==> from <= r && OccursAt(s, pat, r)
    ensures r != -1 ==> forall j | from <= j < r :: !OccursAt(s, pat, j)
    decreases |s| - from
  {
    if from + |pat| > |s| then -1
    else if s[from..from + |pat|] == pat then
      assert OccursAt(s, pat, from);
      from
    else IndexOfFrom(s, pat, from + 1)
  }

  /** A pattern can only occur in a string that holds its first character. */
  lemma ContainsFirstChar(s: string, pat: string)
    requires |pat| > 0
    ensures Contains(s, pat) ==> pat[0] in s
  {
    if Contains(s, pat) {
      var i :| OccursAt(s, pat, i);
      assert s[i] == s[i..i + |pat|][0];
    }
  }
}

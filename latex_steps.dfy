/**
 * One round of each loop of `utils/latex_transform.py`: the match the
 * pattern finds, and the string with every copy of its text replaced by
 * the key.
 */
module LatexSteps {
  import opened Wrappers
  import opened Text
  import opened LatexBlocks
  import opened LatexRounds
  import U = Utils

  /**
   * Lines 25-31: `(string.replace(content, key), content)` for the text
   * `content` of the noformat match, or `None` when there is none.
   */
  function NoformatStep(s: string, k: string): (m: Option<(string, string)>)
    ensures m.None? <==> NoformatSearch(s).None?
    ensures Braces(k) == 0 && m.Some? ==> Braces(m.value.0) < Braces(s)
  {
    match NoformatSearch(s)
    case None => None
    case Some((a, b)) =>
      assert a < b + |U.NoFormat| <= |s| &&
             (Braces(k) == 0 ==> Braces(ReplaceAll(s, s[a..b + |U.NoFormat|], k)) < Braces(s)) by {
        NoformatLowers(s, a, b, k);
      }
      var content := s[a..b + |U.NoFormat|];
      Some((ReplaceAll(s, content, k), content))
  }

  /** Lines 65-71, for the listing pattern. */
  function ListingStep(s: string, k: string): (m: Option<(string, string)>)
    ensures m.None? <==> ListingSearch(s).None?
    ensures Braces(k) == 0 && m.Some? ==> Braces(m.value.0) < Braces(s)
  {
    match ListingSearch(s)
    case None => None
    case Some((a, e)) =>
      assert a < e + |U.Code| <= |s| &&
             (Braces(k) == 0 ==> Braces(ReplaceAll(s, s[a..e + |U.Code|], k)) < Braces(s)) by {
        ListingLowers(s, a, e, k);
      }
      var content := s[a..e + |U.Code|];
      Some((ReplaceAll(s, content, k), content))
  }

  lemma StepsLower()
    ensures Lowering(NoformatStep) && Lowering(ListingStep)
  {
  }
}

/**
 * The pieces `utils/latex_transform.py` is built from: the two block
 * patterns and how Python's `re.search` matches them, the rewriting of a
 * block into a LaTeX environment, the splitting of long listings into
 * lines, and the placeholder keys.
 */
module LatexBlocks {
  import opened Wrappers
  import opened Text
  import U = Utils

  // ---------------------------------------------------------------------
  // The noformat pattern: {noformat}((?s).*?){noformat}
  // ---------------------------------------------------------------------

  /** The pattern can match from `a`, with its closing marker at `b`. */
  ghost predicate NoformatMatch(s: string, a: nat, b: nat) {
    OccursAt(U.NoFormat, s, a) && a + |U.NoFormat| <= b && OccursAt(U.NoFormat, s, b)
  }

  /**
   * `pattern.search(s)`: the start of the match and of its closing marker.
   * The match is the leftmost one and, from there, the shortest.
   */
  function NoformatSearch(s: string): (m: Option<(nat, nat)>)
    ensures m.Some? ==> NoformatMatch(s, m.value.0, m.value.1)
    ensures m.Some? ==> forall a: nat, b: nat :: NoformatMatch(s, a, b) ==>
                          m.value.0 < a || (m.value.0 == a && m.value.1 <= b)
    ensures m.None? <==> forall a: nat, b: nat :: !NoformatMatch(s, a, b)
  {
    var a := Find(s, U.NoFormat);
    if a < 0 then None
    else
      var b := FindFrom(s, U.NoFormat, a + |U.NoFormat|);
      if b < 0 then None
      else
        assert NoformatMatch(s, a, b);
        Some((a, b))
  }

  /** Two `{noformat}` markers never overlap: `{` occurs only at the start of one. */
  lemma NoformatApart(s: string, k: nat, l: nat)
    requires OccursAt(U.NoFormat, s, k) && OccursAt(U.NoFormat, s, l) && k < l
    ensures k + |U.NoFormat| <= l
  {
    CharOfOccurrence(U.NoFormat, s, k, l);
    CharOfOccurrence(U.NoFormat, s, l, l);
  }

  /** The leftover text has at most one marker once the search finds nothing. */
  lemma NoSearchAtMostOne(s: string, k: nat, l: nat)
    requires NoformatSearch(s) == None && OccursAt(U.NoFormat, s, k) && OccursAt(U.NoFormat, s, l)
    ensures k == l
  {
    if k < l {
      NoformatApart(s, k, l);
      NoformatMatchIf(s, k, l);
    } else if l < k {
      NoformatApart(s, l, k);
      NoformatMatchIf(s, l, k);
    }
  }

  lemma NoformatMatchIf(s: string, a: nat, b: nat)
    ensures OccursAt(U.NoFormat, s, a) && a + |U.NoFormat| <= b && OccursAt(U.NoFormat, s, b) ==>
              NoformatMatch(s, a, b)
  {
  }

  /** A matched block: the two markers around a body that holds no marker. */
  lemma NoformatBlock(s: string, a: nat, b: nat)
    requires NoformatSearch(s) == Some((a, b))
    ensures s[a..b + |U.NoFormat|] == U.NoFormat + s[a + |U.NoFormat|..b] + U.NoFormat
    ensures !Occurs(U.NoFormat, s[a + |U.NoFormat|..b])
  {
    assert b == FindFrom(s, U.NoFormat, a + |U.NoFormat|);
    MarkedBlock(s, U.NoFormat, a, b);
  }

  /** Between a marker and the first marker after it lies a stretch free of the marker. */
  lemma MarkedBlock(s: string, p: string, a: nat, b: nat)
    requires |p| > 0 && OccursAt(p, s, a) && a + |p| <= b && b == FindFrom(s, p, a + |p|)
    ensures s[a..b + |p|] == p + s[a + |p|..b] + p
    ensures !Occurs(p, s[a + |p|..b])
  {
    assert OccursAt(p, s, b);
    var body := s[a + |p|..b];
    forall k: nat
      ensures OccursAt(p, body, k) ==> OccursAt(p, s, a + |p| + k) && a + |p| + k < b
    {
      if OccursAt(p, body, k) {
        OccursInSlice(p, s, a + |p|, b, k);
      }
    }
    SliceSplit(s, a, a + |p|, b);
    SliceSplit(s, a, b, b + |p|);
    assert s[a..a + |p|] == p && s[b..b + |p|] == p;
  }

  lemma SliceSplit(s: string, i: nat, j: nat, k: nat)
    requires i <= j <= k <= |s|
    ensures s[i..k] == s[i..j] + s[j..k]
  {
  }

  const SpverbatimBegin: string := "\\begin{spverbatim}"
  const SpverbatimEnd: string := "\\end{spverbatim}\\ "

  /** The `to_latex` rewriting of a noformat block: the first marker opens, the next one closes. */
  function NoformatToLatex(content: string): string {
    ReplaceFirst(ReplaceFirst(content, U.NoFormat, SpverbatimBegin), U.NoFormat, SpverbatimEnd)
  }

  lemma SpverbatimFacts()
    ensures U.NoFormat[0] !in U.NoFormat[1..]
    ensures !Occurs(U.NoFormat, SpverbatimBegin)
    ensures SpverbatimBegin[|SpverbatimBegin| - 1] !in U.NoFormat[..|U.NoFormat| - 1]
  {
    AbsentChar(U.NoFormat, SpverbatimBegin, 'o');
  }

  /** On a block the rewriting puts the body between the two delimiters. */
  lemma NoformatToLatexShape(body: string)
    requires !Occurs(U.NoFormat, body)
    ensures NoformatToLatex(U.NoFormat + body + U.NoFormat) == SpverbatimBegin + body + SpverbatimEnd
  {
    SpverbatimFacts();
    ReplaceFirstTwice(U.NoFormat, body, SpverbatimBegin, SpverbatimEnd);
  }

  // ---------------------------------------------------------------------
  // The listing pattern: (({code:((?s).*?)})|({code}))((?s).*?){code}
  // ---------------------------------------------------------------------

  const CodeOpen: string := "{code:"

  /**
   * The pattern can match from `a` with the closing `{code}` at `e`: either
   * `{code:`, a language up to some `}`, and the body; or `{code}` and the
   * body.
   */
  ghost predicate ListingMatch(s: string, a: nat, e: nat) {
    OccursAt(U.Code, s, e) &&
    ( || (OccursAt(CodeOpen, s, a) && exists c :: a + |CodeOpen| <= c < e && s[c] == '}')
      || (OccursAt(U.Code, s, a) && a + |U.Code| <= e))
  }

  lemma OpenersExclusive(s: string, a: nat)
    ensures !(OccursAt(CodeOpen, s, a) && OccursAt(U.Code, s, a))
  {
  }

  /** `"}"` occurs exactly where the character is `}`. */
  lemma BraceAt(s: string, c: nat)
    ensures OccursAt("}", s, c) <==> c < |s| && s[c] == '}'
  {
    if c < |s| {
      assert s[c..c + 1] == [s[c]];
    }
  }

  /**
   * The closing `{code}` of the match the engine makes from `a`: for
   * `{code:` the language stops at the first `}` and the closing marker is
   * the first `{code}` after it; for `{code}` it is the first `{code}` after
   * the opener.
   */
  function ListingAt(s: string, a: nat): (e: Option<nat>)
  {
    if OccursAt(CodeOpen, s, a) then
      var c := FindFrom(s, "}", a + |CodeOpen|);
      if c < 0 then None
      else
        var e := FindFrom(s, U.Code, c + 1);
        if e < 0 then None else Some(e)
    else if OccursAt(U.Code, s, a) then
      var e := FindFrom(s, U.Code, a + |U.Code|);
      if e < 0 then None else Some(e)
    else None
  }

  /** The match from `a` is a match, and the shortest one; none at all when it finds none. */
  lemma ListingAtShortest(s: string, a: nat)
    ensures ListingAt(s, a).Some? ==> ListingMatch(s, a, ListingAt(s, a).value)
    ensures ListingAt(s, a).Some? ==> forall e: nat :: ListingMatch(s, a, e) ==> ListingAt(s, a).value <= e
    ensures ListingAt(s, a).None? ==> forall e: nat :: !ListingMatch(s, a, e)
  {
    OpenersExclusive(s, a);
    if OccursAt(CodeOpen, s, a) {
      var c := FindFrom(s, "}", a + |CodeOpen|);
      forall c': nat | a + |CodeOpen| <= c' < |s| && s[c'] == '}'
        ensures c >= 0 && c <= c'
      {
        BraceAt(s, c');
      }
      if c >= 0 {
        BraceAt(s, c);
      }
    }
  }

  /** `pattern.search(s[from:])` shifted back: the leftmost match at or after `from`. */
  function ListingSearchFrom(s: string, from: nat): (m: Option<(nat, nat)>)
    requires from <= |s|
    decreases |s| - from
  {
    match ListingAt(s, from)
    case Some(e) => Some((from, e))
    case None => if from == |s| then None else ListingSearchFrom(s, from + 1)
  }

  /** No match can start at the very end of the text. */
  lemma NoListingAtEnd(s: string, a: nat, e: nat)
    requires |s| <= a
    ensures !ListingMatch(s, a, e)
  {
  }

  /**
   * `m` is what a leftmost search from `from` reports: a match at or after
   * `from` that no other match there starts before or ends before, or
   * nothing exactly when there is no match there.
   */
  ghost predicate Leftmost(s: string, from: nat, m: Option<(nat, nat)>) {
    && (m.Some? ==> from <= m.value.0 && ListingMatch(s, m.value.0, m.value.1))
    && (m.Some? ==> forall a: nat, e: nat :: from <= a && ListingMatch(s, a, e) ==>
                      m.value.0 < a || (m.value.0 == a && m.value.1 <= e))
    && (m.None? <==> forall a: nat, e: nat :: from <= a ==> !ListingMatch(s, a, e))
  }

  lemma {:induction false} ListingSearchFromLeftmost(s: string, from: nat)
    requires from <= |s|
    ensures Leftmost(s, from, ListingSearchFrom(s, from))
    decreases |s| - from
  {
    match ListingAt(s, from)
    case Some(e) =>
      LeftmostHere(s, from, e);
    case None =>
      if from == |s| {
        LeftmostAtEnd(s);
      } else {
        ListingSearchFromLeftmost(s, from + 1);
        LeftmostSkip(s, from, ListingSearchFrom(s, from + 1));
      }
  }

  lemma LeftmostHere(s: string, from: nat, e: nat)
    requires ListingAt(s, from) == Some(e)
    ensures Leftmost(s, from, Some((from, e)))
  {
    ListingAtShortest(s, from);
  }

  lemma LeftmostAtEnd(s: string)
    ensures Leftmost(s, |s|, None)
  {
    forall a: nat, e: nat | |s| <= a
      ensures !ListingMatch(s, a, e)
    {
      NoListingAtEnd(s, a, e);
    }
  }

  /** No match at `from` leaves the search from `from + 1` leftmost from `from` too. */
  lemma LeftmostSkip(s: string, from: nat, m: Option<(nat, nat)>)
    requires ListingAt(s, from).None? && Leftmost(s, from + 1, m)
    ensures Leftmost(s, from, m)
  {
    ListingAtShortest(s, from);
    assert forall e: nat :: !ListingMatch(s, from, e);
  }

  lemma {:induction false} ListingSearchFromAt(s: string, from: nat)
    requires from <= |s|
    ensures var m := ListingSearchFrom(s, from);
            m.Some? ==> ListingAt(s, m.value.0) == Some(m.value.1)
    decreases |s| - from
  {
    if ListingAt(s, from).None? && from < |s| {
      ListingSearchFromAt(s, from + 1);
    }
  }

  /** `pattern.search(s)`: the leftmost match and, from there, the shortest. */
  function ListingSearch(s: string): (m: Option<(nat, nat)>)
    ensures m.Some? ==> ListingMatch(s, m.value.0, m.value.1)
    ensures m.Some? ==> forall a: nat, e: nat :: ListingMatch(s, a, e) ==>
                          m.value.0 < a || (m.value.0 == a && m.value.1 <= e)
    ensures m.None? <==> forall a: nat, e: nat :: !ListingMatch(s, a, e)
  {
    ListingSearchFromLeftmost(s, 0);
    ListingSearchFrom(s, 0)
  }

  /** The first `{code}` from `i` leaves none in between. */
  lemma NoEarlierCode(s: string, i: nat, e: nat)
    requires i <= e && e == FindFrom(s, U.Code, i)
    ensures !Occurs(U.Code, s[i..e])
  {
    if k: nat :| OccursAt(U.Code, s[i..e], k) {
      OccursInSlice(U.Code, s, i, e, k);
    }
  }

  /** `{code:lang}body{code}`: the language holds no `}` and the body no `{code}`. */
  ghost predicate LanguageBlock(content: string, lang: string, body: string) {
    content == CodeOpen + lang + "}" + body + U.Code && '}' !in lang && !Occurs(U.Code, body)
  }

  /** `{code}body{code}`: the body holds no `{code}`. */
  ghost predicate PlainBlock(content: string, body: string) {
    content == U.Code + body + U.Code && !Occurs(U.Code, body)
  }

  /** The text of a listing match is one of the two block forms. */
  lemma ListingFoundShape(s: string, a: nat, e: nat) returns (lang: string, body: string)
    requires ListingAt(s, a) == Some(e)
    ensures a + |U.Code| <= e && e + |U.Code| <= |s|
    ensures OccursAt(CodeOpen, s, a) ==> LanguageBlock(s[a..e + |U.Code|], lang, body)
    ensures !OccursAt(CodeOpen, s, a) ==> PlainBlock(s[a..e + |U.Code|], body)
  {
    if OccursAt(CodeOpen, s, a) {
      lang, body := LanguageFound(s, a, e);
    } else {
      lang := [];
      body := PlainFound(s, a, e);
    }
  }

  lemma LanguageFound(s: string, a: nat, e: nat) returns (lang: string, body: string)
    requires ListingAt(s, a) == Some(e) && OccursAt(CodeOpen, s, a)
    ensures a + |U.Code| <= e && e + |U.Code| <= |s|
    ensures LanguageBlock(s[a..e + |U.Code|], lang, body)
  {
    var c := LanguageBrace(s, a, e);
    lang, body := s[a + |CodeOpen|..c], s[c + 1..e];
    NoEarlierCode(s, c + 1, e);
    LanguageAround(s, a, c, e);
  }

  /** The `}` that ends the language of a match from `a`. */
  lemma LanguageBrace(s: string, a: nat, e: nat) returns (c: nat)
    requires ListingAt(s, a) == Some(e) && OccursAt(CodeOpen, s, a)
    ensures OccursAt(U.Code, s, e) && a + |CodeOpen| <= c < e && s[c] == '}'
    ensures e == FindFrom(s, U.Code, c + 1) && '}' !in s[a + |CodeOpen|..c]
  {
    var f := FindFrom(s, "}", a + |CodeOpen|);
    BraceWhere(s, f, a + |CodeOpen|);
    c := f;
    NoBraceBefore(s, a + |CodeOpen|, c);
  }

  lemma LanguageAround(s: string, a: nat, c: nat, e: nat)
    requires OccursAt(CodeOpen, s, a) && OccursAt(U.Code, s, e) && a + |CodeOpen| <= c < e && s[c] == '}'
    requires '}' !in s[a + |CodeOpen|..c] && !Occurs(U.Code, s[c + 1..e])
    ensures a + |U.Code| <= e && e + |U.Code| <= |s|
    ensures LanguageBlock(s[a..e + |U.Code|], s[a + |CodeOpen|..c], s[c + 1..e])
  {
    LanguagePieces(s, a, c, e);
  }

  /** The stretch before the first `}` holds none. */
  lemma NoBraceBefore(s: string, from: nat, c: nat)
    requires from <= c <= |s|
    requires forall i: nat :: from <= i < |s| && s[i] == '}' ==> c <= i
    ensures '}' !in s[from..c]
  {
    forall i | 0 <= i < c - from
      ensures s[from..c][i] != '}'
    {
      assert s[from..c][i] == s[from + i];
    }
  }

  lemma LanguagePieces(s: string, a: nat, c: nat, e: nat)
    requires OccursAt(CodeOpen, s, a) && a + |CodeOpen| <= c < e && OccursAt(U.Code, s, e) && s[c] == '}'
    ensures s[a..e + |U.Code|] == CodeOpen + s[a + |CodeOpen|..c] + "}" + s[c + 1..e] + U.Code
  {
    assert s[c..c + 1] == "}";
    SliceFour(s, a, a + |CodeOpen|, c, c + 1, e, e + |U.Code|);
  }

  lemma SliceFour(s: string, i: nat, j: nat, k: nat, l: nat, m: nat, n: nat)
    requires i <= j <= k <= l <= m <= n <= |s|
    ensures s[i..n] == s[i..j] + s[j..k] + s[k..l] + s[l..m] + s[m..n]
  {
    SliceSplit(s, i, m, n);
    SliceSplit(s, i, l, m);
    SliceSplit(s, i, k, l);
    SliceSplit(s, i, j, k);
  }

  lemma PlainFound(s: string, a: nat, e: nat) returns (body: string)
    requires ListingAt(s, a) == Some(e) && !OccursAt(CodeOpen, s, a)
    ensures a + |U.Code| <= e && e + |U.Code| <= |s|
    ensures PlainBlock(s[a..e + |U.Code|], body)
  {
    body := s[a + |U.Code|..e];
    SliceSplit(s, a, a + |U.Code|, e);
    SliceSplit(s, a, e, e + |U.Code|);
    NoEarlierCode(s, a + |U.Code|, e);
  }

  // ---------------------------------------------------------------------
  // The to_latex rewriting of a listing
  // ---------------------------------------------------------------------

  const LanguagePrefix: string := "\\begin{lstlisting}[language="
  const ListingEnd: string := "\\end{lstlisting}\\ "

  function LanguageOpener(lang: string): string {
    LanguagePrefix + lang + "]"
  }

  /** `{code:` at `p` with the first `}` after it at `c`. */
  ghost predicate LanguageMatch(t: string, p: nat, c: nat) {
    OccursAt(CodeOpen, t, p) && p + |CodeOpen| <= c < |t| && t[c] == '}'
  }

  /** `re.search(r"{code:((?s).*?)}", t)`: the leftmost match, and the shortest from there. */
  function LanguageSearch(t: string): (m: Option<(nat, nat)>)
    ensures m.Some? ==> LanguageMatch(t, m.value.0, m.value.1)
    ensures m.Some? ==> forall p: nat, c: nat :: LanguageMatch(t, p, c) ==>
                          m.value.0 < p || (m.value.0 == p && m.value.1 <= c)
    ensures m.None? <==> forall p: nat, c: nat :: !LanguageMatch(t, p, c)
  {
    var p := Find(t, CodeOpen);
    if p < 0 then None
    else
      var c := FindFrom(t, "}", p + |CodeOpen|);
      BraceWhere(t, c, p + |CodeOpen|);
      if c < 0 then None
      else
        assert LanguageMatch(t, p, c);
        Some((p, c))
  }

  /** Where the search for `}` from `from` stops. */
  lemma BraceWhere(t: string, c: int, from: nat)
    requires c == FindFrom(t, "}", from)
    ensures c >= 0 ==> c < |t| && t[c] == '}'
    ensures forall i: nat :: from <= i < |t| && t[i] == '}' ==> 0 <= c <= i
  {
    if c >= 0 {
      BraceAt(t, c);
    }
    forall i: nat | from <= i < |t| && t[i] == '}'
      ensures 0 <= c <= i
    {
      BraceAt(t, i);
    }
  }

  /** `{code:lang}` replaced by the opener with the language, as the code does. */
  function WithLanguage(content: string, p: nat, c: nat): string
    requires p + |CodeOpen| <= c < |content|
  {
    var section := content[p..c + 1];
    var lang := content[p + |CodeOpen|..c];
    ReplaceFirst(ReplaceFirst(content, section, LanguageOpener(lang)), U.Code, ListingEnd)
  }

  /** The first `{code}` opens a plain listing and the next one closes it. */
  function WithoutLanguage(content: string): string {
    ReplaceFirst(ReplaceFirst(content, U.Code, U.BeginListing), U.Code, ListingEnd)
  }

  /**
   * Lines 79-86 as written: the language is searched anywhere in the text
   * of the match, also after a plain `{code}` opener.
   */
  function ListingToLatexAsWritten(content: string): string {
    match LanguageSearch(content)
    case Some((p, c)) => WithLanguage(content, p, c)
    case None => WithoutLanguage(content)
  }

  /** The rewriting the comments at lines 73-77 describe: the language only from the opener. */
  function ListingToLatex(content: string): string {
    if StartsWith(content, CodeOpen) then ListingToLatexAsWritten(content)
    else WithoutLanguage(content)
  }

  lemma ListingDelimiterFacts()
    ensures !Occurs(U.Code, LanguagePrefix) && !Occurs(U.Code, U.BeginListing)
    ensures U.Code[0] !in U.Code[1..]
    ensures LanguagePrefix[|LanguagePrefix| - 1] !in U.Code[..|U.Code| - 1]
    ensures U.BeginListing[|U.BeginListing| - 1] !in U.Code[..|U.Code| - 1]
    ensures "]"[0] !in U.Code[1..] && ']' !in U.Code[..|U.Code| - 1]
    ensures !Occurs(U.Code, "]")
  {
    AbsentChar(U.Code, LanguagePrefix, 'c');
    AbsentChar(U.Code, U.BeginListing, 'c');
    AbsentChar(U.Code, "]", 'c');
  }

  /** The opener with a language holds no `{code}`. */
  lemma LanguageOpenerClear(lang: string)
    requires '}' !in lang
    ensures !Occurs(U.Code, LanguageOpener(lang))
    ensures LanguageOpener(lang)[|LanguageOpener(lang)| - 1] == ']'
  {
    ListingDelimiterFacts();
    AbsentChar(U.Code, lang, '}');
    NoOccursConcatRight(U.Code, LanguagePrefix, lang);
    NoOccursConcatLeft(U.Code, LanguagePrefix + lang, "]");
  }

  /** Closing a listing whose opener has already been rewritten. */
  lemma CloseListing(opener: string, body: string)
    requires |opener| > 0 && !Occurs(U.Code, opener) && !Occurs(U.Code, body)
    requires opener[|opener| - 1] !in U.Code[..|U.Code| - 1]
    ensures ReplaceFirst(opener + body + U.Code, U.Code, ListingEnd) == opener + body + ListingEnd
  {
    ListingDelimiterFacts();
    NoOccursConcatRight(U.Code, opener, body);
    ReplaceFirstAt(opener + body, U.Code, [], ListingEnd);
    assert opener + body + U.Code + [] == opener + body + U.Code;
    assert opener + body + ListingEnd + [] == opener + body + ListingEnd;
  }

  /** The language search stops at the first `}` after a leading `{code:`. */
  lemma LanguageSearchAt(t: string, c: nat)
    requires OccursAt(CodeOpen, t, 0) && |CodeOpen| <= c < |t| && t[c] == '}'
    requires forall i: nat :: |CodeOpen| <= i < c ==> t[i] != '}'
    ensures LanguageSearch(t) == Some((0, c))
  {
    assert LanguageMatch(t, 0, c);
  }

  /** The language search on a `{code:lang}` block finds its opener. */
  lemma LanguageSearchOpener(content: string, lang: string, body: string)
    requires LanguageBlock(content, lang, body)
    ensures LanguageSearch(content) == Some((0, |CodeOpen| + |lang|))
  {
    var c := |CodeOpen| + |lang|;
    var head := CodeOpen + lang + "}";
    assert content == head + (body + U.Code);
    assert content[..|head|] == head;
    assert head[..|CodeOpen|] == CodeOpen;
    assert content[0..|CodeOpen|] == CodeOpen;
    assert content[c] == head[c] == '}';
    forall i: nat | |CodeOpen| <= i < c
      ensures content[i] != '}'
    {
      assert content[i] == head[i] == lang[i - |CodeOpen|];
    }
    LanguageSearchAt(content, c);
  }

  /** A `{code:lang}` block becomes a listing in that language. */
  lemma LanguageBlockToLatex(content: string, lang: string, body: string)
    requires LanguageBlock(content, lang, body)
    ensures ListingToLatex(content) == LanguageOpener(lang) + body + ListingEnd
  {
    LanguageSearchOpener(content, lang, body);
    var section := LanguageSection(content, lang, body);
    ReplaceFirstPrefix(section, body + U.Code, LanguageOpener(lang));
    LanguageOpenerClear(lang);
    assert LanguageOpener(lang) + (body + U.Code) == LanguageOpener(lang) + body + U.Code;
    CloseListing(LanguageOpener(lang), body);
  }

  /** The section and the language the code cuts out of a `{code:lang}` block. */
  lemma LanguageSection(content: string, lang: string, body: string) returns (section: string)
    requires LanguageBlock(content, lang, body)
    ensures section == CodeOpen + lang + "}" && content == section + (body + U.Code)
    ensures content[0..|CodeOpen| + |lang| + 1] == section
    ensures content[|CodeOpen|..|CodeOpen| + |lang|] == lang
    ensures StartsWith(content, CodeOpen)
  {
    section := CodeOpen + lang + "}";
    assert content == section + (body + U.Code);
    assert content[..|section|] == section;
    assert section[..|CodeOpen|] == CodeOpen;
    assert section[|CodeOpen|..|CodeOpen| + |lang|] == lang;
  }

  /** A `{code}` block becomes a plain listing. */
  lemma PlainBlockToLatex(content: string, body: string)
    requires PlainBlock(content, body)
    ensures ListingToLatex(content) == U.BeginListing + body + ListingEnd
  {
    assert content[5] == '}';
    assert !StartsWith(content, CodeOpen);
    assert content == U.Code + (body + U.Code);
    ReplaceFirstPrefix(U.Code, body + U.Code, U.BeginListing);
    ListingDelimiterFacts();
    assert U.BeginListing + (body + U.Code) == U.BeginListing + body + U.Code;
    CloseListing(U.BeginListing, body);
  }

  /** A listing text whose only `{code:`, if it has one, is its opener. */
  predicate LanguageFromOpener(content: string) {
    StartsWith(content, CodeOpen) || !Occurs(CodeOpen, content)
  }

  /** The two rewritings differ only on a text with `{code:` after a plain opener. */
  lemma ListingToLatexAgrees(content: string)
    requires LanguageFromOpener(content)
    ensures ListingToLatexAsWritten(content) == ListingToLatex(content)
  {
    if !StartsWith(content, CodeOpen) {
      assert LanguageSearch(content) == None;
    }
  }

  /** A plain listing has its language from the opener exactly when its body holds no `{code:`. */
  lemma PlainBlockOpener(content: string, body: string)
    requires PlainBlock(content, body)
    ensures LanguageFromOpener(content) <==> !Occurs(CodeOpen, body)
  {
    assert content[5] == '}' && CodeOpen[5] == ':';
    assert !StartsWith(content, CodeOpen);
    if k: nat :| OccursAt(CodeOpen, body, k) {
      OccursAtRight(CodeOpen, U.Code, body, k);
      OccursAtLeft(CodeOpen, U.Code + body, U.Code, |U.Code| + k);
    } else {
      assert !Occurs(CodeOpen, U.Code) by {
        assert |U.Code| == |CodeOpen|;
        assert U.Code[5] != CodeOpen[5];
      }
      NoOccursConcatRight(CodeOpen, U.Code, body);
      NoOccursConcatLeft(CodeOpen, U.Code + body, U.Code);
    }
  }

  // ---------------------------------------------------------------------
  // A plain listing whose body names a language
  // ---------------------------------------------------------------------

  /** A `{code}` block whose body holds a `{code:y}` opener. */
  const FindingInput: string := "{code}x{code:y}z{code}"

  /** The only `{` in the input are at 0, 7 and 16. */
  lemma FindingBraces(i: nat)
    requires i < |FindingInput| && FindingInput[i] == '{'
    ensures i == 0 || i == 7 || i == 16
  {
  }

  /** The engine takes the whole input as one `{code}` block. */
  lemma FindingSearch()
    ensures ListingSearch(FindingInput) == Some((0, 16))
  {
    var s := FindingInput;
    assert s[0..6] == U.Code && s[16..22] == U.Code;
    assert ListingMatch(s, 0, 16);
    var m := ListingSearch(s);
    assert m.Some? && m.value.0 == 0;
    CharOfOccurrence(U.Code, s, m.value.1, m.value.1);
    CharOfOccurrence(U.Code, s, m.value.1, m.value.1 + 5);
    FindingBraces(m.value.1);
  }

  /** Replacing the first `p` when it follows a stretch `u` free of it. */
  lemma ReplaceInside(u: string, p: string, w: string, n: string)
    requires |p| > 0 && !Occurs(p, u) && (u == [] || u[|u| - 1] !in p[..|p| - 1])
    ensures ReplaceFirst(u + (p + w), p, n) == u + (n + w)
  {
    ReplaceFirstConcat(u, p + w, p, n);
    ReplaceFirstPrefix(p, w, n);
  }

  /** The input cut where the inner opener starts. */
  lemma FindingSplit()
    ensures FindingInput == "{code}x" + ("{code:y}" + "z{code}")
    ensures "{code:y}" == CodeOpen + "y}"
    ensures !Occurs(CodeOpen, "{code}x") && !Occurs("{code:y}", "{code}x")
    ensures 'x' !in CodeOpen[..|CodeOpen| - 1] && 'x' !in "{code:y}"[..7]
  {
    AbsentChar(CodeOpen, "{code}x", ':');
    AbsentChar("{code:y}", "{code}x", ':');
  }

  /** The language search finds the inner `{code:y}`. */
  lemma FindingLanguage()
    ensures LanguageSearch(FindingInput) == Some((7, 14))
  {
    var s := FindingInput;
    FindingSplit();
    var v := "{code:y}" + "z{code}";
    assert v == CodeOpen + ("y}" + "z{code}");
    ReplaceFirstPrefix(CodeOpen, "y}" + "z{code}", []);
    assert Find(v, CodeOpen) == 0;
    FindConcat("{code}x", v, CodeOpen);
    BraceAt(s, 13);
    BraceAt(s, 14);
    assert FindFrom(s, "}", 13) == 14;
  }

  /** The first replacement: `{code:y}` becomes the opener with language `y`. */
  lemma FindingOpened()
    ensures WithLanguage(FindingInput, 7, 14) ==
            ReplaceFirst("{code}x" + (LanguageOpener("y") + "z{code}"), U.Code, ListingEnd)
  {
    var s := FindingInput;
    FindingSplit();
    assert s[7..15] == "{code:y}" && s[13..14] == "y";
    ReplaceInside("{code}x", "{code:y}", "z{code}", LanguageOpener("y"));
  }

  lemma Regroup3(a: string, b: string, c: string)
    ensures (a + b) + c == a + (b + c)
  {
  }

  /**
   * As written, the rewriting closes the listing where it opens, opens a
   * second one in the middle, and leaves the closing `{code}` in place.
   */
  lemma FindingAsWritten()
    ensures ListingToLatexAsWritten(FindingInput) == ListingEnd + "x" + LanguageOpener("y") + "z{code}"
  {
    FindingLanguage();
    FindingOpened();
    var rest := LanguageOpener("y") + "z{code}";
    assert "{code}x" == U.Code + "x";
    Regroup3(U.Code, "x", rest);
    ReplaceFirstPrefix(U.Code, "x" + rest, ListingEnd);
    Regroup3(ListingEnd, "x", rest);
    Regroup3(ListingEnd + "x", LanguageOpener("y"), "z{code}");
  }

  /** The corrected rewriting makes one plain listing of the whole block. */
  lemma FindingCorrected()
    ensures ListingToLatex(FindingInput) == U.BeginListing + "x{code:y}z" + ListingEnd
  {
    var body := "x{code:y}z";
    forall k: nat | OccursAt(U.Code, body, k)
      ensures false
    {
      CharOfOccurrence(U.Code, body, k, k);
      CharOfOccurrence(U.Code, body, k, k + 5);
    }
    assert FindingInput == U.Code + body + U.Code;
    PlainBlockToLatex(FindingInput, body);
  }

  // ---------------------------------------------------------------------
  // Splitting long listings into lines
  // ---------------------------------------------------------------------

  /** A listing longer than this is cut into lines of this many characters. */
  const ChunkSize: nat := 400

  /** `[c[i:i + 400] for i in range(0, len(c), 400)]`. */
  function Chunks(c: string): seq<string>
    decreases |c|
  {
    if |c| <= ChunkSize then (if c == [] then [] else [c])
    else [c[..ChunkSize]] + Chunks(c[ChunkSize..])
  }

  /** Gluing the pieces back together gives the text. */
  lemma {:induction false} ChunksConcat(c: string)
    ensures Concat(Chunks(c)) == c
    decreases |c|
  {
    if |c| > ChunkSize {
      ChunksConcat(c[ChunkSize..]);
      ConcatCons(c[..ChunkSize], Chunks(c[ChunkSize..]));
      assert c == c[..ChunkSize] + c[ChunkSize..];
    } else if c != [] {
      ConcatCons(c, []);
      assert c + [] == c;
    }
  }

  /** One piece per started block of 400; each piece 400 long except a shorter, non-empty last one. */
  lemma {:induction false} ChunksSizes(c: string, k: nat)
    requires k < |Chunks(c)|
    ensures 0 < |Chunks(c)[k]| <= ChunkSize
    ensures k < |Chunks(c)| - 1 ==> |Chunks(c)[k]| == ChunkSize
    decreases |c|
  {
    if |c| > ChunkSize && k > 0 {
      ChunksSizes(c[ChunkSize..], k - 1);
    }
  }

  lemma {:induction false} ChunksCount(c: string)
    ensures |Chunks(c)| == (|c| + ChunkSize - 1) / ChunkSize
    decreases |c|
  {
    if |c| > ChunkSize {
      ChunksCount(c[ChunkSize..]);
    }
  }

  /** Lines 87-91: the content, with a newline after every 400 characters when it is longer. */
  function Wrapped(c: string): string {
    if |c| > ChunkSize then Join(Chunks(c), '\n') else c
  }

  /** A text of at most 400 characters is left as it is. */
  lemma WrappedShort(c: string)
    requires |c| <= ChunkSize
    ensures Wrapped(c) == c
  {
  }

  /** Past the first 400 characters the pieces are those of the rest. */
  lemma JoinChunksStep(c: string)
    requires |c| > ChunkSize
    ensures Join(Chunks(c), '\n') == c[..ChunkSize] + ['\n'] + Join(Chunks(c[ChunkSize..]), '\n')
  {
    var rest := c[ChunkSize..];
    assert Chunks(rest) != [] by {
      if |rest| <= ChunkSize {
        assert Chunks(rest) == [rest];
      }
    }
    assert Chunks(c)[1..] == Chunks(rest);
  }

  /** Character `k` of the text moves right by the number of newlines before it. */
  lemma {:induction false} JoinChunksAt(c: string, k: nat)
    requires k < |c|
    ensures k + k / ChunkSize < |Join(Chunks(c), '\n')|
    ensures Join(Chunks(c), '\n')[k + k / ChunkSize] == c[k]
    decreases |c|
  {
    if |c| > ChunkSize {
      JoinChunksStep(c);
      if k >= ChunkSize {
        JoinChunksAt(c[ChunkSize..], k - ChunkSize);
        assert (k - ChunkSize) / ChunkSize == k / ChunkSize - 1;
      }
    }
  }

  /** A newline follows every full line but the last. */
  lemma {:induction false} JoinChunksNewline(c: string, j: nat)
    requires j < |Chunks(c)| - 1
    ensures j * (ChunkSize + 1) + ChunkSize < |Join(Chunks(c), '\n')|
    ensures Join(Chunks(c), '\n')[j * (ChunkSize + 1) + ChunkSize] == '\n'
    decreases |c|
  {
    JoinChunksStep(c);
    if j > 0 {
      JoinChunksNewline(c[ChunkSize..], j - 1);
      assert j * (ChunkSize + 1) + ChunkSize == ChunkSize + 1 + ((j - 1) * (ChunkSize + 1) + ChunkSize);
    }
  }

  /** The newlines add one character per line but the last. */
  lemma {:induction false} JoinChunksLength(c: string)
    requires c != []
    ensures |Join(Chunks(c), '\n')| == |c| + |Chunks(c)| - 1
    decreases |c|
  {
    if |c| > ChunkSize {
      JoinChunksStep(c);
      JoinChunksLength(c[ChunkSize..]);
    }
  }

  /** Wrapping adds (|c| - 1) / 400 newlines to a text longer than 400 characters. */
  lemma WrappedLength(c: string)
    ensures |Wrapped(c)| == |c| + (if |c| > ChunkSize then (|c| - 1) / ChunkSize else 0)
  {
    if |c| > ChunkSize {
      JoinChunksLength(c);
      ChunksCount(c);
    }
  }

  // ---------------------------------------------------------------------
  // Placeholder keys
  // ---------------------------------------------------------------------

  const NoformatKeyPrefix: string := "<<!PDFGENNOFORMAT"
  const ListingKeyPrefix: string := "<<!PDFGENCODE"
  const KeySuffix: string := "!>>"

  /** `"<<!PDFGENNOFORMAT{}!>>".format(n)`. */
  function NoformatKey(n: nat): string {
    NoformatKeyPrefix + DecimalString(n) + KeySuffix
  }

  /** `"<<!PDFGENCODE{}!>>".format(n)`. */
  function ListingKey(n: nat): string {
    ListingKeyPrefix + DecimalString(n) + KeySuffix
  }

  /** Different numbers give different keys. */
  lemma KeyInjective(prefix: string, a: nat, b: nat)
    requires prefix + DecimalString(a) + KeySuffix == prefix + DecimalString(b) + KeySuffix
    ensures a == b
  {
    var x, y := prefix + DecimalString(a) + KeySuffix, prefix + DecimalString(b) + KeySuffix;
    assert |DecimalString(a)| == |DecimalString(b)|;
    assert x[|prefix|..|prefix| + |DecimalString(a)|] == DecimalString(a);
    assert y[|prefix|..|prefix| + |DecimalString(b)|] == DecimalString(b);
    DecimalStringInjective(a, b);
  }

  lemma NoformatKeyInjective(a: nat, b: nat)
    ensures NoformatKey(a) == NoformatKey(b) <==> a == b
  {
    if NoformatKey(a) == NoformatKey(b) {
      KeyInjective(NoformatKeyPrefix, a, b);
    }
  }

  lemma ListingKeyInjective(a: nat, b: nat)
    ensures ListingKey(a) == ListingKey(b) <==> a == b
  {
    if ListingKey(a) == ListingKey(b) {
      KeyInjective(ListingKeyPrefix, a, b);
    }
  }

  /** No key holds a `{`, so no key can start a block. */
  lemma KeysHaveNoBrace(n: nat)
    ensures Braces(NoformatKey(n)) == 0 && Braces(ListingKey(n)) == 0
  {
    PrefixesHaveNoBrace();
    KeyHasNoBrace(NoformatKeyPrefix, n);
    KeyHasNoBrace(ListingKeyPrefix, n);
  }

  lemma PrefixesHaveNoBrace()
    ensures '{' !in NoformatKeyPrefix && '{' !in ListingKeyPrefix
  {
  }

  lemma KeyHasNoBrace(prefix: string, n: nat)
    ensures '{' !in prefix ==> Braces(prefix + DecimalString(n) + KeySuffix) == 0
  {
    var d := DecimalString(n);
    assert '{' !in d by {
      forall i | 0 <= i < |d|
        ensures d[i] != '{'
      {
        assert IsDigit(d[i]);
      }
    }
    BracesConcat(prefix, d);
    BracesConcat(prefix + d, KeySuffix);
    NoBraceCount(prefix);
    NoBraceCount(d);
    NoBraceCount(KeySuffix);
  }

  lemma BracesConcat(x: string, y: string)
    ensures Braces(x + y) == Braces(x) + Braces(y)
  {
    assert multiset(x + y) == multiset(x) + multiset(y);
  }

  lemma NoBraceCount(x: string)
    ensures '{' !in x ==> Braces(x) == 0
  {
  }

  /** Cutting out a noformat match lowers the count of `{`, whatever `{`-free key replaces it. */
  lemma NoformatLowers(s: string, a: nat, b: nat, k: string)
    requires NoformatMatch(s, a, b)
    ensures a < b + |U.NoFormat| <= |s|
    ensures Braces(k) == 0 ==> Braces(ReplaceAll(s, s[a..b + |U.NoFormat|], k)) < Braces(s)
  {
    CharOfOccurrence(U.NoFormat, s, a, a);
    CharOfOccurrence(U.NoFormat, s, b, b);
    if Braces(k) == 0 {
      ReplaceLowersBraces(s, a, b + |U.NoFormat|, k);
    }
  }

  /** So does cutting out a listing match. */
  lemma ListingLowers(s: string, a: nat, e: nat, k: string)
    requires ListingSearch(s) == Some((a, e))
    ensures a < e + |U.Code| <= |s|
    ensures Braces(k) == 0 ==> Braces(ReplaceAll(s, s[a..e + |U.Code|], k)) < Braces(s)
  {
    assert a < e + |U.Code| <= |s| && s[a] == '{' by {
      ListingSearchFromAt(s, 0);
      var _, _ := ListingFoundShape(s, a, e);
      if OccursAt(CodeOpen, s, a) {
        CharOfOccurrence(CodeOpen, s, a, a);
      } else {
        CharOfOccurrence(U.Code, s, a, a);
      }
    }
    if Braces(k) == 0 {
      ReplaceLowersBraces(s, a, e + |U.Code|, k);
    }
  }

  /** The number of `{` characters, which every round of both loops lowers. */
  function Braces(s: string): nat {
    multiset(s)['{']
  }

  /** Replacing a text that starts with `{` by a key lowers the count. */
  lemma ReplaceLowersBraces(s: string, a: nat, b: nat, key: string)
    requires a < b <= |s| && s[a] == '{' && Braces(key) == 0
    ensures Braces(ReplaceAll(s, s[a..b], key)) < Braces(s)
  {
    var content := s[a..b];
    assert OccursAt(content, s, a);
    assert content[0] == '{';
    ReplaceAllCount(s, content, key, '{');
  }
}

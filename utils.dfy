/**
 * The helpers of `utils/__init__.py` that work on text: the SVN revision
 * URL, the two URL filters and the conversion of Atlassian code markup to
 * LaTeX listings.
 */
module Utils {
  import opened Wrappers
  import opened Text
  import opened RefRegex

  // ---------------------------------------------------------------------
  // construct_svn_revision_url
  // ---------------------------------------------------------------------

  predicate HasDigit(s: string) {
    exists k :: 0 <= k < |s| && IsDigit(s[k])
  }

  /** The digits `s` starts with. */
  function TakeDigits(s: string): (r: string)
    ensures |r| <= |s|
  {
    if s != [] && IsDigit(s[0]) then [s[0]] + TakeDigits(s[1..]) else []
  }

  /** `s` from its first digit on. */
  function DropNonDigits(s: string): (r: string)
    ensures |r| <= |s|
  {
    if s != [] && !IsDigit(s[0]) then DropNonDigits(s[1..]) else s
  }

  /** The first run of digits in `s`, read off the text directly. */
  function FirstNumber(s: string): string {
    TakeDigits(DropNonDigits(s))
  }

  lemma {:induction false} TakeDigitsRun(s: string, i: nat)
    requires i <= |s|
    ensures TakeDigits(s[i..]) == s[i..i + Run(DigitClass, s, i)]
    decreases |s| - i
  {
    if i < |s| && IsDigit(s[i]) {
      TakeDigitsRun(s, i + 1);
      assert s[i..][1..] == s[i + 1..];
      assert s[i..i + Run(DigitClass, s, i)] == [s[i]] + s[i + 1..i + 1 + Run(DigitClass, s, i + 1)];
    }
  }

  lemma HasDigitSkip(s: string, i: nat)
    requires i < |s| && !IsDigit(s[i])
    ensures HasDigit(s[i..]) <==> HasDigit(s[i + 1..])
  {
    if HasDigit(s[i..]) {
      var k :| 0 <= k < |s[i..]| && IsDigit(s[i..][k]);
      assert k > 0 && s[i + 1..][k - 1] == s[i..][k];
    }
    if HasDigit(s[i + 1..]) {
      var k :| 0 <= k < |s[i + 1..]| && IsDigit(s[i + 1..][k]);
      assert s[i..][k + 1] == s[i + 1..][k];
    }
  }

  /** A digit at `i`: the scan's first match is the run there, which is the first number of `s[i..]`. */
  lemma FirstNumberHere(s: string, i: nat)
    requires i < |s| && IsDigit(s[i])
    ensures Inside(s, Scan(MatchLengths(Numbers, s), i)) && Scan(MatchLengths(Numbers, s), i) != []
    ensures HasDigit(s[i..])
    ensures Texts(s, Scan(MatchLengths(Numbers, s), i))[0] == FirstNumber(s[i..])
  {
    var ml := MatchLengths(Numbers, s);
    MatchLengthsAt(Numbers, s, i);
    assert ml[i] == Run(DigitClass, s, i);
    ScanFirstText(ml, s, i);
    var t := Texts(s, Scan(ml, i))[0];
    assert t == s[i..i + ml[i]];
    FirstNumberAtDigit(s, i);
    assert t == FirstNumber(s[i..]);
  }

  lemma FirstNumberAtDigit(s: string, i: nat)
    requires i < |s| && IsDigit(s[i])
    ensures HasDigit(s[i..]) && FirstNumber(s[i..]) == s[i..i + Run(DigitClass, s, i)]
  {
    TakeDigitsRun(s, i);
    assert s[i..][0] == s[i];
  }

  /** The scan of `\d+` from `i` on finds nothing exactly when no digit is left, else first the first run. */
  lemma {:induction false} FirstNumberScan(s: string, i: nat)
    requires i <= |s|
    ensures Inside(s, Scan(MatchLengths(Numbers, s), i))
    ensures Scan(MatchLengths(Numbers, s), i) == [] <==> !HasDigit(s[i..])
    ensures Scan(MatchLengths(Numbers, s), i) != [] ==>
              Texts(s, Scan(MatchLengths(Numbers, s), i))[0] == FirstNumber(s[i..])
    decreases |s| - i
  {
    var ml := MatchLengths(Numbers, s);
    ScanInside(ml, s, i);
    if i < |s| {
      if IsDigit(s[i]) {
        FirstNumberHere(s, i);
      } else {
        MatchLengthsAt(Numbers, s, i);
        assert Scan(ml, i) == Scan(ml, i + 1);
        FirstNumberScan(s, i + 1);
        HasDigitSkip(s, i);
        assert s[i..][1..] == s[i + 1..];
      }
    }
  }

  /** `extract_numbers(s)` is empty exactly when `s` has no digit; otherwise its head is the first run. */
  lemma FirstExtractedNumber(s: string)
    ensures ExtractNumbers(s) == [] <==> !HasDigit(s)
    ensures ExtractNumbers(s) != [] ==> ExtractNumbers(s)[0] == FirstNumber(s)
  {
    FirstNumberScan(s, 0);
    assert s[0..] == s;
  }

  const SvnRevisionPrefix: string := "https://svn.apache.org/r"

  /**
   * `construct_svn_revision_url`: the prefix followed by the first number in
   * the revision text; `None` where `extract_numbers(revision)[0]` raises,
   * that is, when the text has no digit.
   */
  function ConstructSvnRevisionUrl(revision: string): (r: Option<string>)
    ensures r.None? <==> !HasDigit(revision)
    ensures r.Some? ==> r.value == SvnRevisionPrefix + FirstNumber(revision)
  {
    FirstExtractedNumber(revision);
    var numbers := ExtractNumbers(revision);
    if |numbers| == 0 then None else Some(SvnRevisionPrefix + numbers[0])
  }

  /** The revision number in the URL is a non-empty run of digits. */
  lemma {:induction false} FirstNumberIsDecimal(s: string)
    requires HasDigit(s)
    ensures IsDecimal(FirstNumber(s))
    decreases |s|
  {
    if !IsDigit(s[0]) {
      var k :| 0 <= k < |s| && IsDigit(s[k]);
      assert s[1..][k - 1] == s[k];
      FirstNumberIsDecimal(s[1..]);
    } else {
      TakeDigitsAll(s);
    }
  }

  lemma {:induction false} TakeDigitsAll(s: string)
    ensures AllDigits(TakeDigits(s))
    decreases |s|
  {
    if s != [] && IsDigit(s[0]) {
      TakeDigitsAll(s[1..]);
    }
  }

  // ---------------------------------------------------------------------
  // filter_pdf_document_urls
  // ---------------------------------------------------------------------

  /** `set([url for url in urls if url.endswith(".pdf")])`. */
  function FilterPdfDocumentUrls(urls: set<string>): (r: set<string>)
    ensures r <= urls
    ensures forall u :: u in urls ==> (u in r <==> EndsWith(u, ".pdf"))
  {
    set u | u in urls && EndsWith(u, ".pdf")
  }

  /** The kept URLs and the dropped URLs split the input. */
  lemma PdfPartition(urls: set<string>)
    ensures FilterPdfDocumentUrls(urls) + (urls - FilterPdfDocumentUrls(urls)) == urls
    ensures forall u :: u in urls - FilterPdfDocumentUrls(urls) ==> !EndsWith(u, ".pdf")
  {
  }

  lemma PdfIdempotent(urls: set<string>)
    ensures FilterPdfDocumentUrls(FilterPdfDocumentUrls(urls)) == FilterPdfDocumentUrls(urls)
  {
  }

  /** Filtering two sets of URLs together is filtering each of them. */
  lemma PdfUnion(a: set<string>, b: set<string>)
    ensures FilterPdfDocumentUrls(a + b) == FilterPdfDocumentUrls(a) + FilterPdfDocumentUrls(b)
  {
  }

  // ---------------------------------------------------------------------
  // filter_mailing_list_urls
  // ---------------------------------------------------------------------

  const DefaultMailingListKeys: seq<string> := ["mail-archives", "markmail"]

  /** `if not mailing_list_keys`: both `None` and the empty list fall back to the defaults. */
  function MailingListKeys(keys: Option<seq<string>>): (ks: seq<string>)
    ensures ks != []
    ensures keys == None || keys == Some([]) ==> ks == DefaultMailingListKeys
    ensures keys.Some? && keys.value != [] ==> ks == keys.value
  {
    if keys.None? || keys.value == [] then DefaultMailingListKeys else keys.value
  }

  /** `any(key in url for key in keys)`. */
  predicate ContainsAnyKey(url: string, keys: seq<string>) {
    exists j :: 0 <= j < |keys| && Occurs(keys[j], url)
  }

  /** `filter_mailing_list_urls`: the URLs that contain one of the keys. */
  function FilterMailingListUrls(urls: set<string>, keys: Option<seq<string>>): (r: set<string>)
    ensures r <= urls
    ensures forall u :: u in urls ==> (u in r <==> ContainsAnyKey(u, MailingListKeys(keys)))
  {
    set u | u in urls && ContainsAnyKey(u, MailingListKeys(keys))
  }

  /** Leaving the keys out, or passing an empty list, is passing the two default keys. */
  lemma MailingListDefaults(urls: set<string>)
    ensures FilterMailingListUrls(urls, None) == FilterMailingListUrls(urls, Some(DefaultMailingListKeys))
    ensures FilterMailingListUrls(urls, Some([])) == FilterMailingListUrls(urls, Some(DefaultMailingListKeys))
  {
  }

  /** With the defaults, a URL is kept exactly when it mentions `mail-archives` or `markmail`. */
  lemma MailingListDefaultKeys(urls: set<string>, u: string)
    requires u in urls
    ensures u in FilterMailingListUrls(urls, None) <==> Occurs("mail-archives", u) || Occurs("markmail", u)
  {
    var ks := DefaultMailingListKeys;
    if Occurs("mail-archives", u) {
      assert Occurs(ks[0], u);
    } else if Occurs("markmail", u) {
      assert Occurs(ks[1], u);
    }
  }

  lemma MailingListIdempotent(urls: set<string>, keys: Option<seq<string>>)
    ensures FilterMailingListUrls(FilterMailingListUrls(urls, keys), keys) == FilterMailingListUrls(urls, keys)
  {
  }

  /** More keys keep more URLs. */
  lemma MailingListMoreKeys(urls: set<string>, ks: seq<string>, more: seq<string>)
    requires ks != []
    ensures FilterMailingListUrls(urls, Some(ks)) <= FilterMailingListUrls(urls, Some(ks + more))
  {
    forall u | u in FilterMailingListUrls(urls, Some(ks))
      ensures u in FilterMailingListUrls(urls, Some(ks + more))
    {
      var j :| 0 <= j < |ks| && Occurs(ks[j], u);
      assert (ks + more)[j] == ks[j];
    }
  }

  // ---------------------------------------------------------------------
  // atlassian_code_format_to_listing
  // ---------------------------------------------------------------------

  const CodeJava: string := "{code:java}"
  const Code: string := "{code}"
  const NoFormat: string := "{noformat}"
  const BeginJavaListing: string := "\\begin{lstlisting}[language=Java]"
  const BeginListing: string := "\\begin{lstlisting}"
  const EndListing: string := "\\end{lstlisting}"

  /**
   * The `{noformat}` markers of `s` turned into listing delimiters in turn:
   * the first, third, ... into `\begin{lstlisting}`, the second, fourth, ...
   * into `\end{lstlisting}`.
   */
  function Alternate(s: string): string
    decreases |s|
  {
    var i := Find(s, NoFormat);
    if i < 0 then s
    else
      var rest := s[i + |NoFormat|..];
      var j := Find(rest, NoFormat);
      if j < 0 then s[..i] + BeginListing + rest
      else s[..i] + BeginListing + rest[..j] + EndListing + Alternate(rest[j + |NoFormat|..])
  }

  /** The markers the listing delimiters cannot run into. */
  lemma DelimiterFacts()
    ensures !Occurs(NoFormat, BeginListing) && !Occurs(NoFormat, EndListing)
    ensures BeginListing[0] !in NoFormat[1..] && EndListing[0] !in NoFormat[1..]
    ensures '}' !in NoFormat[..|NoFormat| - 1]
  {
    AbsentChar(NoFormat, BeginListing, 'm');
    AbsentChar(NoFormat, EndListing, 'm');
  }

  /** Text free of `{noformat}` that ends with `}` (or is empty) can be followed by anything. */
  ghost predicate Settled(done: string) {
    !Occurs(NoFormat, done) && (done == [] || done[|done| - 1] == '}')
  }

  lemma SettledThen(done: string, x: string, d: string)
    requires Settled(done) && !Occurs(NoFormat, x)
    requires d == BeginListing || d == EndListing
    ensures Settled(done + x + d)
  {
    DelimiterFacts();
    if done != [] {
      NoOccursConcatRight(NoFormat, done, x);
    } else {
      assert done + x == x;
    }
    NoOccursConcatLeft(NoFormat, done + x, d);
    assert (done + x + d)[|done + x + d| - 1] == d[|d| - 1];
  }

  /** The Java opener and the listing delimiters carry no `{code:java}` and no `{code}`. */
  lemma CodeFacts()
    ensures !Occurs(CodeJava, BeginJavaListing) && !Occurs(Code, EndListing)
    ensures !Occurs(CodeJava, EndListing) && !Occurs(CodeJava, BeginListing) && !Occurs(Code, BeginListing)
  {
    AbsentChar(CodeJava, BeginJavaListing, 'j');
    AbsentChar(Code, EndListing, 'c');
    AbsentChar(CodeJava, EndListing, 'c');
    AbsentChar(CodeJava, BeginListing, 'c');
    AbsentChar(Code, BeginListing, 'c');
  }

  /** The two `replace` calls before the loop. */
  function CodeToListing(s: string): string {
    ReplaceAll(ReplaceAll(s, CodeJava, BeginJavaListing), Code, EndListing)
  }

  /** After the two `replace` calls neither `{code:java}` nor `{code}` is left. */
  lemma CodeToListingRemoves(s: string)
    ensures !Occurs(CodeJava, CodeToListing(s)) && !Occurs(Code, CodeToListing(s))
  {
    CodeFacts();
    ReplaceAllRemoves(s, CodeJava, BeginJavaListing);
    ReplaceAllKeepsAbsent(ReplaceAll(s, CodeJava, BeginJavaListing), Code, EndListing, CodeJava);
    ReplaceAllRemoves(ReplaceAll(s, CodeJava, BeginJavaListing), Code, EndListing);
  }

  /** One replacement by a listing delimiter brings no `{code:java}` and no `{code}` back. */
  lemma DelimiterKeepsCodeAbsent(s: string, n: string)
    requires n == BeginListing || n == EndListing
    requires !Occurs(CodeJava, s) && !Occurs(Code, s)
    ensures !Occurs(CodeJava, ReplaceFirst(s, NoFormat, n)) && !Occurs(Code, ReplaceFirst(s, NoFormat, n))
  {
    CodeFacts();
    ReplaceFirstKeepsAbsent(s, NoFormat, n, CodeJava);
    ReplaceFirstKeepsAbsent(s, NoFormat, n, Code);
  }

  /** `Alternate` unfolded once, given where its two markers are. */
  lemma AlternateAt(t: string, i: int, j: int)
    requires i == Find(t, NoFormat) && i >= 0 && j == Find(t[i + |NoFormat|..], NoFormat)
    ensures j < 0 ==> Alternate(t) == t[..i] + BeginListing + t[i + |NoFormat|..]
    ensures j >= 0 ==>
              && j + |NoFormat| <= |t[i + |NoFormat|..]|
              && Alternate(t) == t[..i] + BeginListing + t[i + |NoFormat|..][..j] + EndListing
                                 + Alternate(t[i + |NoFormat|..][j + |NoFormat|..])
  {
    if j < 0 {
      AlternateAtLast(t, i);
    } else {
      AlternateAtPair(t, i, j);
    }
  }

  lemma AlternateAtLast(t: string, i: int)
    requires i == Find(t, NoFormat) && i >= 0 && Find(t[i + |NoFormat|..], NoFormat) < 0
    ensures Alternate(t) == t[..i] + BeginListing + t[i + |NoFormat|..]
  {
  }

  lemma AlternateAtPair(t: string, i: int, j: int)
    requires i == Find(t, NoFormat) && i >= 0 && j == Find(t[i + |NoFormat|..], NoFormat) && j >= 0
    ensures j + |NoFormat| <= |t[i + |NoFormat|..]|
    ensures Alternate(t) == t[..i] + BeginListing + t[i + |NoFormat|..][..j] + EndListing
                            + Alternate(t[i + |NoFormat|..][j + |NoFormat|..])
  {
    FindBound(t[i + |NoFormat|..], NoFormat);
    AlternateUnfoldPair(t, i, j);
  }

  lemma AlternateUnfoldPair(t: string, i: int, j: int)
    requires i == Find(t, NoFormat) && i >= 0 && j == Find(t[i + |NoFormat|..], NoFormat) && j >= 0
    requires j + |NoFormat| <= |t[i + |NoFormat|..]|
    ensures Alternate(t) == t[..i] + BeginListing + t[i + |NoFormat|..][..j] + EndListing
                            + Alternate(t[i + |NoFormat|..][j + |NoFormat|..])
  {
  }

  lemma Regroup(a: string, b: string, c: string, d: string)
    ensures a + (b + c + d) == a + b + c + d
  {
  }

  lemma Regroup5(a: string, b: string, c: string, d: string, e: string, f: string)
    ensures a + (b + c + d + e + f) == a + b + c + d + e + f
  {
  }

  /**
   * One pass of the loop: the first `{noformat}` of the unsettled part `t`
   * becomes the opener and the next one the closer; the settled part grows
   * by what `Alternate` makes of that stretch.
   */
  lemma AlternateStep(done: string, t: string) returns (done': string, t': string)
    requires Settled(done) && Find(done + t, NoFormat) != -1
    ensures ReplaceFirst(ReplaceFirst(done + t, NoFormat, BeginListing), NoFormat, EndListing) == done' + t'
    ensures Settled(done') && done' + Alternate(t') == done + Alternate(t) && |t'| < |t|
  {
    DelimiterFacts();
    FindConcat(done, t, NoFormat);
    var i := Find(t, NoFormat);
    var rest := t[i + |NoFormat|..];
    FindPrefixClear(t, NoFormat);
    ReplaceFirstConcat(done, t, NoFormat, BeginListing);
    ReplaceFirstFound(t, NoFormat, BeginListing, i);
    var front := done + t[..i] + BeginListing;
    SettledThen(done, t[..i], BeginListing);
    Regroup(done, t[..i], BeginListing, rest);
    var once := ReplaceFirst(done + t, NoFormat, BeginListing);
    assert once == front + rest;
    var j := Find(rest, NoFormat);
    ReplaceFirstConcat(front, rest, NoFormat, EndListing);
    ReplaceFirstFound(rest, NoFormat, EndListing, j);
    AlternateAt(t, i, j);
    if j < 0 {
      done', t' := front, rest;
      assert Alternate(t) == t[..i] + BeginListing + rest;
      Regroup(done, t[..i], BeginListing, rest);
    } else {
      FindPrefixClear(rest, NoFormat);
      SettledThen(front, rest[..j], EndListing);
      var after := rest[j + |NoFormat|..];
      done', t' := front + rest[..j] + EndListing, after;
      Regroup(front, rest[..j], EndListing, after);
      assert ReplaceFirst(once, NoFormat, EndListing) == done' + t';
      var tail := Alternate(after);
      assert Alternate(t) == t[..i] + BeginListing + rest[..j] + EndListing + tail;
      Regroup5(done, t[..i], BeginListing, rest[..j], EndListing, tail);
    }
  }

  /**
   * `atlassian_code_format_to_listing`: the two `replace` calls, then
   * `{noformat}` markers replaced in pairs, first by the opener and then by
   * the closer, until none is left.
   */
  method AtlassianCodeFormatToListing(str: string) returns (r: string)
    ensures r == Alternate(CodeToListing(str))
    ensures !Occurs(NoFormat, r) && !Occurs(CodeJava, r) && !Occurs(Code, r)
  {
    r := ReplaceAll(str, CodeJava, BeginJavaListing);
    r := ReplaceAll(r, Code, EndListing);
    CodeToListingRemoves(str);
    ghost var done: string := [];
    ghost var t := r;
    while Find(r, NoFormat) != -1
      invariant r == done + t && Settled(done)
      invariant done + Alternate(t) == Alternate(CodeToListing(str))
      invariant !Occurs(CodeJava, r) && !Occurs(Code, r)
      decreases |t|
    {
      done, t := AlternateStep(done, t);
      DelimiterKeepsCodeAbsent(r, BeginListing);
      r := ReplaceFirst(r, NoFormat, BeginListing);
      DelimiterKeepsCodeAbsent(r, EndListing);
      r := ReplaceFirst(r, NoFormat, EndListing);
    }
    FindConcat(done, t, NoFormat);
  }

  /** The conversion leaves no `{noformat}` behind. */
  lemma {:induction false} AlternateRemoves(s: string)
    ensures !Occurs(NoFormat, Alternate(s))
    decreases |s|
  {
    var i := Find(s, NoFormat);
    if i >= 0 {
      var rest := s[i + |NoFormat|..];
      var j := Find(rest, NoFormat);
      AlternateAt(s, i, j);
      if j < 0 {
        LastMarkerRemoved(s, i);
      } else {
        AlternateRemoves(rest[j + |NoFormat|..]);
        PairRemoved(s, i, j, Alternate(rest[j + |NoFormat|..]));
      }
    }
  }

  /** A lone last marker, once it is the opener, leaves none. */
  lemma LastMarkerRemoved(s: string, i: int)
    requires i == Find(s, NoFormat) && i >= 0 && Find(s[i + |NoFormat|..], NoFormat) < 0
    ensures !Occurs(NoFormat, s[..i] + BeginListing + s[i + |NoFormat|..])
  {
    DelimiterFacts();
    FindPrefixClear(s, NoFormat);
    SettledThen([], s[..i], BeginListing);
    assert [] + s[..i] + BeginListing == s[..i] + BeginListing;
    NoOccursConcatRight(NoFormat, s[..i] + BeginListing, s[i + |NoFormat|..]);
  }

  /** A pair of markers, once opener and closer, leaves none before a clear tail. */
  lemma PairRemoved(s: string, i: int, j: int, tail: string)
    requires i == Find(s, NoFormat) && i >= 0
    requires j == Find(s[i + |NoFormat|..], NoFormat) && j >= 0 && !Occurs(NoFormat, tail)
    ensures j <= |s[i + |NoFormat|..]|
    ensures !Occurs(NoFormat, s[..i] + BeginListing + s[i + |NoFormat|..][..j] + EndListing + tail)
  {
    DelimiterFacts();
    var rest := s[i + |NoFormat|..];
    FindPrefixClear(s, NoFormat);
    FindPrefixClear(rest, NoFormat);
    SettledThen([], s[..i], BeginListing);
    assert [] + s[..i] + BeginListing == s[..i] + BeginListing;
    SettledThen(s[..i] + BeginListing, rest[..j], EndListing);
    var front := s[..i] + BeginListing + rest[..j] + EndListing;
    if tail != [] {
      NoOccursConcatRight(NoFormat, front, tail);
    } else {
      assert front + [] == front;
    }
  }

  /** Text without `{noformat}` is left as it is. */
  lemma AlternateIdentity(s: string)
    requires !Occurs(NoFormat, s)
    ensures Alternate(s) == s
  {
  }
}

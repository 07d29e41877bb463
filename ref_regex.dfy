/**
 * The reference matchers of `utils/ref_regex.py`: the four regular
 * expressions (numbers, issue keys, revision mentions, URLs) written out as
 * hand-made scanners with Python's `findall` search order, and the
 * character clean-up `clean_text` that runs before the URL search.
 */
module RefRegex {
  import opened Text

  // ---------------------------------------------------------------------
  // Character classes and maximal runs
  // ---------------------------------------------------------------------

  /**
   * The URL character class, alternative by alternative as the pattern
   * spells it: `[\~\#a-zA-Z]`, `[0-9]`, `[$-_@.&+]`, `[!*\(\),]`.  The
   * `%XX` alternative adds nothing, since `%` and the hex digits are
   * already in the class.
   */
  predicate IsUrlChar(c: char) {
    || c == '~' || c == '#' || ('a' <= c <= 'z') || ('A' <= c <= 'Z')
    || ('0' <= c <= '9')
    || ('$' <= c <= '_') || c == '@' || c == '.' || c == '&' || c == '+'
    || c == '!' || c == '*' || c == '(' || c == ')' || c == ','
  }

  /** The URL class is printable ASCII without `"`, `` ` ``, `{`, `|` and `}`. */
  lemma UrlCharClass(c: char)
    ensures IsUrlChar(c) <==> ('!' <= c <= '~' && c != '"' && c != '`' && c != '{' && c != '|' && c != '}')
  {
  }

  datatype CharClass = DigitClass | UrlClass

  predicate InClass(cls: CharClass, c: char) {
    match cls
    case DigitClass => IsDigit(c)
    case UrlClass => IsUrlChar(c)
  }

  /** Length of the longest run of `cls` characters starting at `i` (a greedy `+`/`*`). */
  function Run(cls: CharClass, s: string, i: nat): (n: nat)
    requires i <= |s|
    ensures i + n <= |s|
    ensures forall k :: i <= k < i + n ==> InClass(cls, s[k])
    ensures i + n == |s| || !InClass(cls, s[i + n])
    decreases |s| - i
  {
    if i < |s| && InClass(cls, s[i]) then 1 + Run(cls, s, i + 1) else 0
  }

  // ---------------------------------------------------------------------
  // The patterns and the length of the match each one makes at an index
  // ---------------------------------------------------------------------

  /** `\d+`, `PROJECT-\d+`, the revision pattern and the URL pattern. */
  datatype Pattern = Numbers | Issues(project: string) | Revisions | Urls

  /** The alternatives of `(?:r|[Rr]ev. |[Rr]evision |[Cc]ommit )`, in the order the engine tries them. */
  datatype Marker = LetterR | RevAny | RevisionWord | CommitWord {
    function Len(): nat {
      match this
      case LetterR => 1
      case RevAny => 5
      case RevisionWord => 9
      case CommitWord => 7
    }
  }

  /** The marker matches at `i`; the `.` of `[Rr]ev. ` is any character but a newline. */
  predicate MarkerAt(m: Marker, s: string, i: nat) {
    i + m.Len() <= |s| &&
    match m
    case LetterR => s[i] == 'r'
    case RevAny => (s[i] == 'R' || s[i] == 'r') && s[i + 1..i + 3] == "ev" && s[i + 3] != '\n' && s[i + 4] == ' '
    case RevisionWord => (s[i] == 'R' || s[i] == 'r') && s[i + 1..i + 9] == "evision "
    case CommitWord => (s[i] == 'C' || s[i] == 'c') && s[i + 1..i + 7] == "ommit "
  }

  /** The match `marker[0-9]+` makes at `i` with this one alternative, 0 for none. */
  function MarkerMatch(m: Marker, s: string, i: nat): (n: nat)
    requires i <= |s|
    ensures i + n <= |s|
  {
    if MarkerAt(m, s, i) && Run(DigitClass, s, i + m.Len()) > 0
    then m.Len() + Run(DigitClass, s, i + m.Len())
    else 0
  }

  /** The first alternative that leads to a match wins, as with backtracking. */
  function RevisionMatch(s: string, i: nat): (n: nat)
    requires i <= |s|
    ensures i + n <= |s|
  {
    if MarkerMatch(LetterR, s, i) > 0 then MarkerMatch(LetterR, s, i)
    else if MarkerMatch(RevAny, s, i) > 0 then MarkerMatch(RevAny, s, i)
    else if MarkerMatch(RevisionWord, s, i) > 0 then MarkerMatch(RevisionWord, s, i)
    else MarkerMatch(CommitWord, s, i)
  }

  /** `http[s]?://` followed by a greedy run of URL characters. */
  function UrlMatch(s: string, i: nat): (n: nat)
    requires i <= |s|
    ensures i + n <= |s|
  {
    if OccursAt("https://", s, i) && Run(UrlClass, s, i + 8) > 0 then 8 + Run(UrlClass, s, i + 8)
    else if OccursAt("http://", s, i) && Run(UrlClass, s, i + 7) > 0 then 7 + Run(UrlClass, s, i + 7)
    else 0
  }

  /** The length of the match `pat` makes starting exactly at `i`; 0 when there is none. */
  function MatchLength(pat: Pattern, s: string, i: nat): (n: nat)
    requires i <= |s|
    ensures i + n <= |s|
  {
    match pat
    case Numbers => Run(DigitClass, s, i)
    case Issues(project) =>
      var key := project + "-";
      if OccursAt(key, s, i) && Run(DigitClass, s, i + |key|) > 0
      then |key| + Run(DigitClass, s, i + |key|)
      else 0
    case Revisions => RevisionMatch(s, i)
    case Urls => UrlMatch(s, i)
  }

  /** The match length at every index of `s`. */
  function MatchLengths(pat: Pattern, s: string): (ml: seq<nat>)
    ensures |ml| == |s| && Fits(ml)
  {
    var ml := seq(|s|, i requires 0 <= i < |s| => MatchLength(pat, s, i));
    assert Fits(ml) by {
      forall i | 0 <= i < |s|
        ensures i + ml[i] <= |s|
      {
        assert ml[i] == MatchLength(pat, s, i);
      }
    }
    ml
  }

  /** The entry at `i` is the length of the match at `i`. */
  lemma MatchLengthsAt(pat: Pattern, s: string, i: nat)
    requires i < |s|
    ensures MatchLengths(pat, s)[i] == MatchLength(pat, s, i)
  {
  }

  // ---------------------------------------------------------------------
  // findall, over the match lengths at each index
  // ---------------------------------------------------------------------

  /** Every match ends inside the text. */
  predicate Fits(ml: seq<nat>) {
    forall i :: 0 <= i < |ml| ==> i + ml[i] <= |ml|
  }

  datatype Span = Span(start: nat, len: nat)

  /** Each span is a match at its start, inside the text. */
  predicate Matches(ml: seq<nat>, spans: seq<Span>) {
    forall k :: 0 <= k < |spans| ==>
      spans[k].start < |ml| && spans[k].len == ml[spans[k].start] > 0 && spans[k].start + spans[k].len <= |ml|
  }

  /**
   * `findall` from index `i`: take the match at `i` if there is one and go on
   * after it, otherwise try the next index.
   */
  function Scan(ml: seq<nat>, i: nat): (spans: seq<Span>)
    requires Fits(ml) && i <= |ml|
    ensures Matches(ml, spans)
    ensures forall k :: 0 <= k < |spans| ==> i <= spans[k].start
    decreases |ml| - i
  {
    if i == |ml| then []
    else if ml[i] > 0 then [Span(i, ml[i])] + Scan(ml, i + ml[i])
    else Scan(ml, i + 1)
  }

  /** Index `j` lies inside one of the spans. */
  ghost predicate Covered(spans: seq<Span>, j: int) {
    exists k :: 0 <= k < |spans| && spans[k].start <= j < spans[k].start + spans[k].len
  }

  /** The spans run left to right without overlapping. */
  predicate Ordered(spans: seq<Span>) {
    forall k, l :: 0 <= k < l < |spans| ==> spans[k].start + spans[k].len <= spans[l].start
  }

  /** No match starts at an index from `i` on that no span covers. */
  ghost predicate NoMissed(ml: seq<nat>, i: nat, spans: seq<Span>) {
    forall j {:trigger Covered(spans, j)} :: i <= j < |ml| && !Covered(spans, j) ==> ml[j] == 0
  }

  /**
   * What `findall` returns, stated without saying how it searches: matches
   * from `i` on, left to right without overlap, and no match starting at any
   * index outside them.
   */
  ghost predicate IsFindAll(ml: seq<nat>, i: nat, spans: seq<Span>) {
    && Matches(ml, spans)
    && (forall k :: 0 <= k < |spans| ==> i <= spans[k].start)
    && Ordered(spans)
    && NoMissed(ml, i, spans)
  }

  lemma CoveredHead(spans: seq<Span>, j: int)
    ensures spans != [] && spans[0].start <= j < spans[0].start + spans[0].len ==> Covered(spans, j)
  {
  }

  lemma CoveredTail(sp: Span, rest: seq<Span>, j: int)
    ensures Covered(rest, j) ==> Covered([sp] + rest, j)
  {
    if Covered(rest, j) {
      var k :| 0 <= k < |rest| && rest[k].start <= j < rest[k].start + rest[k].len;
      assert ([sp] + rest)[k + 1] == rest[k];
    }
  }

  lemma CoveredDrop(spans: seq<Span>, j: int)
    requires spans != [] && j >= spans[0].start + spans[0].len
    ensures Covered(spans, j) ==> Covered(spans[1..], j)
  {
    if Covered(spans, j) {
      var k :| 0 <= k < |spans| && spans[k].start <= j < spans[k].start + spans[k].len;
      assert k != 0;
      assert spans[1..][k - 1] == spans[k];
    }
  }

  lemma {:induction false} ScanOrdered(ml: seq<nat>, i: nat)
    requires Fits(ml) && i <= |ml|
    ensures Ordered(Scan(ml, i))
    decreases |ml| - i
  {
    if i < |ml| {
      var m := ml[i];
      if m > 0 {
        ScanOrdered(ml, i + m);
        var rest := Scan(ml, i + m);
        var spans := [Span(i, m)] + rest;
        assert spans == Scan(ml, i);
        forall k, l | 0 <= k < l < |spans|
          ensures spans[k].start + spans[k].len <= spans[l].start
        {
          assert spans[l] == rest[l - 1];
          if k > 0 {
            assert spans[k] == rest[k - 1];
          }
        }
      } else {
        ScanOrdered(ml, i + 1);
      }
    }
  }

  lemma {:induction false} ScanNoMissed(ml: seq<nat>, i: nat)
    requires Fits(ml) && i <= |ml|
    ensures NoMissed(ml, i, Scan(ml, i))
    decreases |ml| - i
  {
    if i < |ml| {
      var m := ml[i];
      if m > 0 {
        ScanNoMissed(ml, i + m);
        var rest := Scan(ml, i + m);
        var spans := [Span(i, m)] + rest;
        assert spans == Scan(ml, i);
        forall j | i <= j < |ml| && !Covered(spans, j)
          ensures ml[j] == 0
        {
          CoveredHead(spans, j);
          CoveredTail(Span(i, m), rest, j);
        }
      } else {
        ScanNoMissed(ml, i + 1);
      }
    }
  }

  /** The scan finds exactly what `findall` promises. */
  lemma ScanIsFindAll(ml: seq<nat>, i: nat)
    requires Fits(ml) && i <= |ml|
    ensures IsFindAll(ml, i, Scan(ml, i))
  {
    ScanOrdered(ml, i);
    ScanNoMissed(ml, i);
  }

  lemma AtEnd(ml: seq<nat>, spans: seq<Span>)
    requires IsFindAll(ml, |ml|, spans)
    ensures spans == []
  {
    FirstSpan(ml, |ml|, spans);
  }

  lemma FirstSpan(ml: seq<nat>, i: nat, spans: seq<Span>)
    requires IsFindAll(ml, i, spans)
    ensures spans != [] ==> i <= spans[0].start < |ml| && spans[0].len > 0
  {
    if spans != [] {
      assert spans[0].len > 0;
    }
  }

  lemma HeadAt(ml: seq<nat>, i: nat, spans: seq<Span>)
    requires IsFindAll(ml, i, spans) && i < |ml| && ml[i] > 0
    ensures spans != [] && spans[0] == Span(i, ml[i])
  {
    assert Covered(spans, i);
    var k :| 0 <= k < |spans| && spans[k].start <= i < spans[k].start + spans[k].len;
    FirstSpan(ml, i, spans);
    OrderedPair(spans, 0, k);
  }

  lemma DropHead(ml: seq<nat>, i: nat, spans: seq<Span>)
    requires IsFindAll(ml, i, spans) && spans != []
    ensures IsFindAll(ml, spans[0].start + spans[0].len, spans[1..])
  {
    var rest := spans[1..];
    var e := spans[0].start + spans[0].len;
    forall j | e <= j < |ml| && !Covered(rest, j)
      ensures ml[j] == 0
    {
      CoveredDrop(spans, j);
    }
    forall k, l | 0 <= k < l < |rest|
      ensures rest[k].start + rest[k].len <= rest[l].start
    {
      assert rest[k] == spans[k + 1] && rest[l] == spans[l + 1];
    }
    forall k | 0 <= k < |rest|
      ensures e <= rest[k].start
    {
      assert rest[k] == spans[k + 1];
    }
  }

  lemma SkipIndex(ml: seq<nat>, i: nat, spans: seq<Span>)
    requires IsFindAll(ml, i, spans) && i < |ml| && ml[i] == 0
    ensures IsFindAll(ml, i + 1, spans)
  {
    forall k | 0 <= k < |spans|
      ensures i + 1 <= spans[k].start
    {
    }
  }

  lemma ScanStep(ml: seq<nat>, i: nat)
    requires Fits(ml) && i < |ml| && ml[i] > 0
    ensures Scan(ml, i) == [Span(i, ml[i])] + Scan(ml, i + ml[i])
  {
  }

  /** Pairs of spans in order do not overlap. */
  lemma OrderedPair(spans: seq<Span>, k: int, l: int)
    ensures Ordered(spans) && 0 <= k < l < |spans| ==> spans[k].start + spans[k].len <= spans[l].start
  {
  }

  /** Only the scan meets that description: `findall`'s answer is unique. */
  lemma {:induction false} FindAllUnique(ml: seq<nat>, i: nat, spans: seq<Span>)
    requires Fits(ml) && i <= |ml| && IsFindAll(ml, i, spans)
    ensures spans == Scan(ml, i)
    decreases |ml| - i
  {
    if i == |ml| {
      AtEnd(ml, spans);
    } else if ml[i] > 0 {
      HeadAt(ml, i, spans);
      DropHead(ml, i, spans);
      FindAllUnique(ml, i + ml[i], spans[1..]);
      assert Scan(ml, i) == [Span(i, ml[i])] + Scan(ml, i + ml[i]);
      assert spans == [spans[0]] + spans[1..];
    } else {
      SkipIndex(ml, i, spans);
      FindAllUnique(ml, i + 1, spans);
    }
  }

  /** Every span lies inside `s`. */
  predicate Inside(s: string, spans: seq<Span>) {
    forall k :: 0 <= k < |spans| ==> spans[k].start + spans[k].len <= |s|
  }

  /** The matched substrings, in order. */
  function Texts(s: string, spans: seq<Span>): (r: seq<string>)
    requires Inside(s, spans)
    ensures |r| == |spans|
  {
    if spans == [] then []
    else [s[spans[0].start..spans[0].start + spans[0].len]] + Texts(s, spans[1..])
  }

  lemma {:induction false} TextsAt(s: string, spans: seq<Span>, k: nat)
    requires Inside(s, spans) && k < |spans|
    ensures Texts(s, spans)[k] == s[spans[k].start..spans[k].start + spans[k].len]
  {
    if k > 0 {
      TextsAt(s, spans[1..], k - 1);
    }
  }

  /** The spans of `pattern.findall(s)`. */
  function Found(pat: Pattern, s: string): (spans: seq<Span>)
    ensures Inside(s, spans) && Matches(MatchLengths(pat, s), spans)
  {
    Scan(MatchLengths(pat, s), 0)
  }

  /**
   * The `k`-th match: where it is, that it is what the pattern matches
   * there, and that it is the text of that stretch.
   */
  lemma FoundAt(pat: Pattern, s: string, k: nat) returns (sp: Span)
    requires k < |FindAll(pat, s)|
    ensures sp == Found(pat, s)[k]
    ensures sp.start + sp.len <= |s| && sp.len == MatchLength(pat, s, sp.start) > 0
    ensures FindAll(pat, s)[k] == s[sp.start..sp.start + sp.len]
  {
    var spans := Found(pat, s);
    sp := spans[k];
    MatchLengthsAt(pat, s, sp.start);
    TextsAt(s, spans, k);
  }

  /** `pattern.findall(s)`. */
  function FindAll(pat: Pattern, s: string): (r: seq<string>)
    ensures |r| == |Found(pat, s)|
  {
    Texts(s, Found(pat, s))
  }

  /** No match is empty. */
  lemma FindAllNonEmpty(pat: Pattern, s: string, k: nat)
    requires k < |FindAll(pat, s)|
    ensures |FindAll(pat, s)[k]| > 0
  {
    var sp := FoundAt(pat, s, k);
  }

  // ---------------------------------------------------------------------
  // extract_numbers
  // ---------------------------------------------------------------------

  /** `re.findall(r'\d+', text)`. */
  function ExtractNumbers(text: string): (r: seq<string>)
    ensures forall k :: 0 <= k < |r| ==> IsDecimal(r[k])
  {
    NumbersAreDecimal(text);
    FindAll(Numbers, text)
  }

  lemma NumbersAreDecimal(text: string)
    ensures forall k :: 0 <= k < |FindAll(Numbers, text)| ==> IsDecimal(FindAll(Numbers, text)[k])
  {
    forall k | 0 <= k < |FindAll(Numbers, text)|
      ensures IsDecimal(FindAll(Numbers, text)[k])
    {
      var sp := FoundAt(Numbers, text, k);
    }
  }

  /** What the match lengths of `\d+` say about each index. */
  ghost predicate DigitRuns(ml: seq<nat>, s: string) {
    |ml| == |s| && Fits(ml) &&
    forall j {:trigger ml[j]} :: 0 <= j < |s| ==> (ml[j] == 0 <==> !IsDigit(s[j])) && AllDigits(s[j..j + ml[j]])
  }

  lemma NumberLengths(s: string)
    ensures DigitRuns(MatchLengths(Numbers, s), s)
  {
    var ml := MatchLengths(Numbers, s);
    forall j | 0 <= j < |s|
      ensures (ml[j] == 0 <==> !IsDigit(s[j])) && AllDigits(s[j..j + ml[j]])
    {
      MatchLengthsAt(Numbers, s, j);
    }
  }

  lemma TextsCons(s: string, sp: Span, rest: seq<Span>)
    requires sp.start + sp.len <= |s| && Inside(s, rest)
    ensures Texts(s, [sp] + rest) == [s[sp.start..sp.start + sp.len]] + Texts(s, rest)
  {
    assert ([sp] + rest)[1..] == rest;
  }

  lemma ScanInside(ml: seq<nat>, s: string, i: nat)
    requires Fits(ml) && |ml| == |s| && i <= |ml|
    ensures Inside(s, Scan(ml, i))
  {
  }

  /** A match at `i` is the scan's first one. */
  lemma ScanFirstText(ml: seq<nat>, s: string, i: nat)
    requires Fits(ml) && |ml| == |s| && i < |s| && ml[i] > 0
    ensures Inside(s, Scan(ml, i)) && Scan(ml, i) != []
    ensures Texts(s, Scan(ml, i))[0] == s[i..i + ml[i]]
  {
    ScanInside(ml, s, i);
    ScanStep(ml, i);
    TextsAt(s, Scan(ml, i), 0);
  }

  lemma DigitRunAt(ml: seq<nat>, s: string, i: nat)
    requires DigitRuns(ml, s) && i < |s|
    ensures i + ml[i] <= |s| && (ml[i] == 0 <==> !IsDigit(s[i])) && AllDigits(s[i..i + ml[i]])
  {
  }

  /** A matched run, then the rest of the scan. */
  lemma TextsStep(ml: seq<nat>, s: string, i: nat)
    requires Fits(ml) && |ml| == |s| && i < |s| && ml[i] > 0
    ensures Inside(s, Scan(ml, i)) && Inside(s, Scan(ml, i + ml[i]))
    ensures Concat(Texts(s, Scan(ml, i))) == s[i..i + ml[i]] + Concat(Texts(s, Scan(ml, i + ml[i])))
  {
    var rest := Scan(ml, i + ml[i]);
    ScanStep(ml, i);
    ScanInside(ml, s, i);
    ScanInside(ml, s, i + ml[i]);
    TextsCons(s, Span(i, ml[i]), rest);
    ConcatCons(s[i..i + ml[i]], Texts(s, rest));
  }

  lemma DigitsOfRun(s: string, i: nat, m: nat)
    requires i + m <= |s| && AllDigits(s[i..i + m])
    ensures DigitsOf(s[i..]) == s[i..i + m] + DigitsOf(s[i + m..])
  {
    assert s[i..] == s[i..i + m] + s[i + m..];
    DigitsOfConcat(s[i..i + m], s[i + m..]);
    DigitsOfAllDigits(s[i..i + m]);
  }

  lemma DigitsOfSkip(s: string, i: nat)
    requires i < |s| && !IsDigit(s[i])
    ensures DigitsOf(s[i..]) == DigitsOf(s[i + 1..])
  {
    assert s[i..][1..] == s[i + 1..];
  }

  lemma {:induction false} ScanDigits(ml: seq<nat>, s: string, i: nat)
    requires DigitRuns(ml, s) && i <= |s|
    ensures Concat(Texts(s, Scan(ml, i))) == DigitsOf(s[i..])
    decreases |s| - i
  {
    if i < |s| {
      DigitRunAt(ml, s, i);
      if ml[i] > 0 {
        ScanDigits(ml, s, i + ml[i]);
        ScanDigitsRun(ml, s, i);
      } else {
        ScanDigits(ml, s, i + 1);
        ScanDigitsSkip(ml, s, i);
      }
    }
  }

  lemma ScanDigitsRun(ml: seq<nat>, s: string, i: nat)
    requires Fits(ml) && |ml| == |s| && i < |s| && ml[i] > 0 && AllDigits(s[i..i + ml[i]])
    requires Concat(Texts(s, Scan(ml, i + ml[i]))) == DigitsOf(s[i + ml[i]..])
    ensures Concat(Texts(s, Scan(ml, i))) == DigitsOf(s[i..])
  {
    TextsStep(ml, s, i);
    DigitsOfRun(s, i, ml[i]);
  }

  lemma ScanDigitsSkip(ml: seq<nat>, s: string, i: nat)
    requires Fits(ml) && |ml| == |s| && i < |s| && ml[i] == 0 && !IsDigit(s[i])
    requires Concat(Texts(s, Scan(ml, i + 1))) == DigitsOf(s[i + 1..])
    ensures Concat(Texts(s, Scan(ml, i))) == DigitsOf(s[i..])
  {
    assert Scan(ml, i) == Scan(ml, i + 1);
    DigitsOfSkip(s, i);
  }

  /** The numbers, read one after the other, are exactly the digits of the text. */
  lemma NumbersAreAllDigits(text: string)
    ensures Concat(ExtractNumbers(text)) == DigitsOf(text)
  {
    NumberLengths(text);
    ScanDigits(MatchLengths(Numbers, text), text, 0);
    assert text[0..] == text;
  }

  /** A match right before a span means an earlier span ends exactly where it starts. */
  lemma PrecedingSpan(ml: seq<nat>, spans: seq<Span>, k: nat) returns (l: nat)
    requires IsFindAll(ml, 0, spans) && k < |spans| && 0 < spans[k].start <= |ml|
    requires ml[spans[k].start - 1] > 0
    ensures l < k && spans[l].start + spans[l].len == spans[k].start
  {
    var j := spans[k].start - 1;
    assert Covered(spans, j);
    l :| 0 <= l < |spans| && spans[l].start <= j < spans[l].start + spans[l].len;
    OrderedPair(spans, l, k);
    OrderedPair(spans, k, l);
  }

  /** Each number is a maximal digit run: no digit right before or right after it. */
  lemma NumbersMaximal(text: string, k: nat)
    requires k < |Found(Numbers, text)|
    ensures var sp := Found(Numbers, text)[k];
            (sp.start == 0 || !IsDigit(text[sp.start - 1])) &&
            (sp.start + sp.len == |text| || !IsDigit(text[sp.start + sp.len]))
  {
    var ml := MatchLengths(Numbers, text);
    var spans := Found(Numbers, text);
    ScanIsFindAll(ml, 0);
    var sp := spans[k];
    MatchLengthsAt(Numbers, text, sp.start);
    if sp.start > 0 && IsDigit(text[sp.start - 1]) {
      MatchLengthsAt(Numbers, text, sp.start - 1);
      var l := PrecedingSpan(ml, spans, k);
      MatchLengthsAt(Numbers, text, spans[l].start);
    }
  }

  /**
   * The digit runs of `s` from `i` on, read off the text directly: skip a
   * non-digit, otherwise take the whole run of digits and go on after it.
   */
  function DigitRunsFrom(s: string, i: nat): (r: seq<string>)
    requires i <= |s|
    ensures forall k :: 0 <= k < |r| ==> |r[k]| > 0
    decreases |s| - i
  {
    if i == |s| then []
    else if !IsDigit(s[i]) then DigitRunsFrom(s, i + 1)
    else [s[i..i + Run(DigitClass, s, i)]] + DigitRunsFrom(s, i + Run(DigitClass, s, i))
  }

  /** The scanner for `\d+` finds exactly the direct digit runs. */
  lemma {:induction false} ScanRuns(s: string, i: nat)
    requires i <= |s|
    ensures Inside(s, Scan(MatchLengths(Numbers, s), i))
    ensures Texts(s, Scan(MatchLengths(Numbers, s), i)) == DigitRunsFrom(s, i)
    decreases |s| - i
  {
    var ml := MatchLengths(Numbers, s);
    ScanInside(ml, s, i);
    if i < |s| {
      MatchLengthsAt(Numbers, s, i);
      var n := Run(DigitClass, s, i);
      if IsDigit(s[i]) {
        assert n > 0;
        ScanRuns(s, i + n);
        ScanStep(ml, i);
        TextsCons(s, Span(i, n), Scan(ml, i + n));
      } else {
        assert n == 0;
        ScanRuns(s, i + 1);
      }
    }
  }

  /** `extract_numbers` agrees with the direct reading of the digit runs. */
  lemma NumbersAreRuns(text: string)
    ensures ExtractNumbers(text) == DigitRunsFrom(text, 0)
  {
    ScanRuns(text, 0);
  }

  predicate NoDigit(t: string) {
    forall k :: 0 <= k < |t| ==> !IsDigit(t[k])
  }

  /** A stretch without digits adds no run. */
  lemma {:induction false} RunsSkip(s: string, i: nat, j: nat)
    requires i <= j <= |s| && NoDigit(s[i..j])
    ensures DigitRunsFrom(s, i) == DigitRunsFrom(s, j)
    decreases j - i
  {
    if i < j {
      assert s[i..j][0] == s[i];
      assert s[i + 1..j] == s[i..j][1..];
      RunsSkip(s, i + 1, j);
    }
  }

  /** A stretch of digits that ends before a non-digit is one run. */
  lemma RunsTake(s: string, i: nat, j: nat)
    requires i < j <= |s| && AllDigits(s[i..j]) && (j == |s| || !IsDigit(s[j]))
    ensures DigitRunsFrom(s, i) == [s[i..j]] + DigitRunsFrom(s, j)
  {
    DigitRunLength(s, i, j);
    assert s[i..j][0] == s[i];
  }

  /** The greedy digit run from `i` ends at the first non-digit. */
  lemma DigitRunLength(s: string, i: nat, j: nat)
    requires i <= j <= |s| && AllDigits(s[i..j]) && (j == |s| || !IsDigit(s[j]))
    ensures Run(DigitClass, s, i) == j - i
  {
    assert forall k :: 0 <= k < j - i ==> s[i..j][k] == s[i + k];
  }

  // ---------------------------------------------------------------------
  // extract_issues
  // ---------------------------------------------------------------------

  predicate IsAlnum(c: char) {
    ('0' <= c <= '9') || ('a' <= c <= 'z') || ('A' <= c <= 'Z')
  }

  /** A project code in which no character means anything special to a regex. */
  predicate IsProjectCode(project: string) {
    forall k :: 0 <= k < |project| ==> IsAlnum(project[k])
  }

  /** An issue key: the project code, a dash, then at least one digit. */
  predicate IssueShape(project: string, t: string) {
    |t| > |project| + 1 && t[..|project| + 1] == project + "-" && IsDecimal(t[|project| + 1..])
  }

  /** `re.compile(project + "-" + r'\d+').findall(text)`. */
  function ExtractIssues(text: string, project: string): (r: seq<string>)
    requires IsProjectCode(project)
    ensures forall k :: 0 <= k < |r| ==> IssueShape(project, r[k])
  {
    IssueMatchesShape(text, project);
    FindAll(Issues(project), text)
  }

  /** The match of the issue pattern at `i` is a key whose digits run to the end of the digits. */
  lemma IssueMatchShape(s: string, project: string, i: nat)
    requires i <= |s| && MatchLength(Issues(project), s, i) > 0
    ensures var n := MatchLength(Issues(project), s, i);
            IssueShape(project, s[i..i + n]) &&
            (i + n == |s| || !IsDigit(s[i + n]))
  {
    var key := project + "-";
    var n := MatchLength(Issues(project), s, i);
    var t := s[i..i + n];
    assert t[..|key|] == s[i..i + |key|];
    assert t[|key|..] == s[i + |key|..i + n];
  }

  lemma IssueFoundShape(text: string, project: string, k: nat)
    requires k < |FindAll(Issues(project), text)|
    ensures IssueShape(project, FindAll(Issues(project), text)[k])
  {
    var sp := FoundAt(Issues(project), text, k);
    IssueMatchShape(text, project, sp.start);
  }

  lemma IssueMatchesShape(text: string, project: string)
    ensures forall k :: 0 <= k < |FindAll(Issues(project), text)| ==>
              IssueShape(project, FindAll(Issues(project), text)[k])
  {
    forall k | 0 <= k < |FindAll(Issues(project), text)|
      ensures IssueShape(project, FindAll(Issues(project), text)[k])
    {
      IssueFoundShape(text, project, k);
    }
  }

  // ---------------------------------------------------------------------
  // extract_revisions
  // ---------------------------------------------------------------------

  /** A revision mention: one of the four markers, then at least one digit. */
  predicate RevisionShape(t: string) {
    || (|t| > 1 && t[0] == 'r' && IsDecimal(t[1..]))
    || (|t| > 5 && (t[0] == 'R' || t[0] == 'r') && t[1..3] == "ev" && t[3] != '\n' && t[4] == ' ' && IsDecimal(t[5..]))
    || (|t| > 9 && (t[0] == 'R' || t[0] == 'r') && t[1..9] == "evision " && IsDecimal(t[9..]))
    || (|t| > 7 && (t[0] == 'C' || t[0] == 'c') && t[1..7] == "ommit " && IsDecimal(t[7..]))
  }

  lemma MarkerMatchShape(m: Marker, s: string, i: nat)
    requires i <= |s| && MarkerMatch(m, s, i) > 0
    ensures RevisionShape(s[i..i + MarkerMatch(m, s, i)])
  {
    var n := MarkerMatch(m, s, i);
    var t := s[i..i + n];
    assert forall j :: 0 <= j < |t| ==> t[j] == s[i + j];
    assert t[m.Len()..] == s[i + m.Len()..i + n];
    match m
    case LetterR =>
    case RevAny =>
      assert t[1..3] == s[i + 1..i + 3];
      assert t[3] == s[i + 3] && t[4] == s[i + 4];
    case RevisionWord =>
      assert t[1..9] == s[i + 1..i + 9];
    case CommitWord =>
      assert t[1..7] == s[i + 1..i + 7];
  }

  lemma RevisionMatchShape(s: string, i: nat)
    requires i <= |s| && RevisionMatch(s, i) > 0
    ensures RevisionShape(s[i..i + RevisionMatch(s, i)])
  {
    if MarkerMatch(LetterR, s, i) > 0 {
      MarkerMatchShape(LetterR, s, i);
    } else if MarkerMatch(RevAny, s, i) > 0 {
      MarkerMatchShape(RevAny, s, i);
    } else if MarkerMatch(RevisionWord, s, i) > 0 {
      MarkerMatchShape(RevisionWord, s, i);
    } else {
      MarkerMatchShape(CommitWord, s, i);
    }
  }

  lemma RevisionFoundShape(text: string, k: nat)
    requires k < |FindAll(Revisions, text)|
    ensures RevisionShape(FindAll(Revisions, text)[k])
  {
    var sp := FoundAt(Revisions, text, k);
    RevisionMatchShape(text, sp.start);
  }

  lemma RevisionMatchesShape(text: string)
    ensures forall k :: 0 <= k < |FindAll(Revisions, text)| ==> RevisionShape(FindAll(Revisions, text)[k])
  {
    forall k | 0 <= k < |FindAll(Revisions, text)|
      ensures RevisionShape(FindAll(Revisions, text)[k])
    {
      RevisionFoundShape(text, k);
    }
  }

  /** `revision_matcher.findall(text)`. */
  function ExtractRevisions(text: string): (r: seq<string>)
    ensures forall k :: 0 <= k < |r| ==> RevisionShape(r[k])
  {
    RevisionMatchesShape(text);
    FindAll(Revisions, text)
  }

  // ---------------------------------------------------------------------
  // clean_text
  // ---------------------------------------------------------------------

  /** The single characters `clean_text` turns into spaces. */
  const CleanedChars: string := "()[]<>\\"

  /**
   * The cleaned text in one left-to-right pass: a backslash followed by `n`
   * (two characters) becomes one space, every other listed character becomes
   * a space in place.
   */
  function Cleaned(t: string): (r: string)
    ensures |r| <= |t|
    ensures forall k :: 0 <= k < |r| ==> r[k] !in CleanedChars
  {
    if |t| >= 2 && t[0] == '\\' && t[1] == 'n' then " " + Cleaned(t[2..])
    else if t == [] then []
    else [if t[0] in CleanedChars then ' ' else t[0]] + Cleaned(t[1..])
  }

  /** Every character of `cs` replaced by a space. */
  function Blank(s: string, cs: string): (r: string)
    ensures |r| == |s|
    ensures forall k :: 0 <= k < |s| ==> r[k] == if s[k] in cs then ' ' else s[k]
  {
    seq(|s|, k requires 0 <= k < |s| => if s[k] in cs then ' ' else s[k])
  }

  lemma {:induction false} ReplaceAllChar(s: string, c: char)
    ensures ReplaceAll(s, [c], " ") == Blank(s, [c])
    decreases |s|
  {
    if s != [] {
      ReplaceAllChar(s[1..], c);
      assert s[..1] == [s[0]];
      assert Blank(s, [c]) == Blank([s[0]], [c]) + Blank(s[1..], [c]);
    }
  }

  lemma BlankTwice(s: string, a: string, c: char)
    ensures Blank(Blank(s, a), [c]) == Blank(s, a + [c])
  {
  }

  lemma {:induction false} CleanedInTwoSteps(t: string)
    ensures Cleaned(t) == Blank(ReplaceAll(t, "\\n", " "), CleanedChars)
    decreases |t|
  {
    if |t| >= 2 && t[0] == '\\' && t[1] == 'n' {
      CleanedInTwoSteps(t[2..]);
      CleanedNewline(t);
    } else if |t| == 1 {
      assert Cleaned(t) == [if t[0] in CleanedChars then ' ' else t[0]] + Cleaned([]);
    } else if t != [] {
      CleanedInTwoSteps(t[1..]);
      CleanedOther(t);
    }
  }

  lemma BlankConcat(x: string, y: string, cs: string)
    ensures Blank(x + y, cs) == Blank(x, cs) + Blank(y, cs)
  {
  }

  /** A backslash and `n` become one space in both readings. */
  lemma CleanedNewline(t: string)
    requires |t| >= 2 && t[0] == '\\' && t[1] == 'n'
    requires Cleaned(t[2..]) == Blank(ReplaceAll(t[2..], "\\n", " "), CleanedChars)
    ensures Cleaned(t) == Blank(ReplaceAll(t, "\\n", " "), CleanedChars)
  {
    var p := "\\n";
    assert t[..2] == p;
    assert ReplaceAll(t, p, " ") == " " + ReplaceAll(t[2..], p, " ");
    BlankConcat(" ", ReplaceAll(t[2..], p, " "), CleanedChars);
  }

  /** Any other first character is blanked or kept in both readings. */
  lemma CleanedOther(t: string)
    requires |t| >= 2 && !(t[0] == '\\' && t[1] == 'n')
    requires Cleaned(t[1..]) == Blank(ReplaceAll(t[1..], "\\n", " "), CleanedChars)
    ensures Cleaned(t) == Blank(ReplaceAll(t, "\\n", " "), CleanedChars)
  {
    var p := "\\n";
    var c := if t[0] in CleanedChars then ' ' else t[0];
    var rest := ReplaceAll(t[1..], p, " ");
    assert p[0] == '\\' && p[1] == 'n';
    ReplaceAllOther(t, p);
    BlankConcat([t[0]], rest, CleanedChars);
    calc {
      Cleaned(t);
      [c] + Cleaned(t[1..]);
      [c] + Blank(rest, CleanedChars);
      { BlankOne(t[0], CleanedChars); }
      Blank([t[0]], CleanedChars) + Blank(rest, CleanedChars);
      Blank([t[0]] + rest, CleanedChars);
      Blank(ReplaceAll(t, p, " "), CleanedChars);
    }
  }

  lemma BlankOne(x: char, cs: string)
    ensures Blank([x], cs) == [if x in cs then ' ' else x]
  {
  }

  /** A text that does not start with `p` keeps its first character. */
  lemma ReplaceAllOther(t: string, p: string)
    requires |p| == 2 && |t| >= 2 && !(t[0] == p[0] && t[1] == p[1])
    ensures ReplaceAll(t, p, " ") == [t[0]] + ReplaceAll(t[1..], p, " ")
  {
    assert t[..2][0] == t[0] && t[..2][1] == t[1];
    assert t[..2] != p;
  }

  /** One single-character pattern per character of `cs`. */
  function Singletons(cs: string): (ps: seq<string>)
    ensures |ps| == |cs| && forall k :: 0 <= k < |cs| ==> ps[k] == [cs[k]]
  {
    seq(|cs|, k requires 0 <= k < |cs| => [cs[k]])
  }

  /**
   * `clean_text`: one `replace(pattern, ' ')` per entry of the list, in
   * order; the list is the two-character backslash-n followed by each of the
   * seven single characters.
   */
  method CleanText(text: string) returns (r: string)
    ensures r == Cleaned(text)
  {
    var charsToRemove := ["\\n"] + Singletons(CleanedChars);
    var afterNewlines := ReplaceAll(text, "\\n", " ");
    r := text;
    for i := 0 to |charsToRemove|
      invariant i == 0 ==> r == text
      invariant i > 0 ==> r == Blank(afterNewlines, CleanedChars[..i - 1])
    {
      if i > 0 {
        var c := CleanedChars[i - 1];
        assert charsToRemove[i] == [c];
        ReplaceAllChar(r, c);
        BlankTwice(afterNewlines, CleanedChars[..i - 1], c);
        assert CleanedChars[..i - 1] + [c] == CleanedChars[..i];
      } else {
        assert Blank(afterNewlines, []) == afterNewlines;
      }
      r := ReplaceAll(r, charsToRemove[i], " ");
    }
    assert CleanedChars[..7] == CleanedChars;
    CleanedInTwoSteps(text);
  }

  /** Text with none of the listed characters comes back unchanged, and only such text. */
  lemma {:induction false} CleanedIdentity(t: string)
    ensures Cleaned(t) == t <==> forall k :: 0 <= k < |t| ==> t[k] !in CleanedChars
    decreases |t|
  {
    if t != [] && forall k :: 0 <= k < |t| ==> t[k] !in CleanedChars {
      assert t[0] != '\\';
      CleanedIdentity(t[1..]);
      assert forall k :: 0 <= k < |t[1..]| ==> t[1..][k] == t[k + 1];
    }
  }

  lemma CleanedIdempotent(t: string)
    ensures Cleaned(Cleaned(t)) == Cleaned(t)
  {
    CleanedIdentity(Cleaned(t));
  }

  /** Without a backslash-n pair the length is kept: each removed character leaves a space. */
  lemma {:induction false} CleanedKeepsLength(t: string)
    requires !Occurs("\\n", t)
    ensures Cleaned(t) == Blank(t, CleanedChars)
  {
    CleanedInTwoSteps(t);
    ReplaceAllNoOccurrence(t, "\\n", " ");
  }

  // ---------------------------------------------------------------------
  // The URL computation inside extract_urls
  // ---------------------------------------------------------------------

  /** `url[:-1] if url[-1] in ['.', '\\', '?'] else url`. */
  function StripTrailing(u: string): (r: string)
    ensures r == u || (u != [] && r == u[..|u| - 1] && u[|u| - 1] in {'.', '\\', '?'})
    ensures u != [] && u[|u| - 1] in {'.', '\\', '?'} ==> |r| == |u| - 1
  {
    if u != [] && u[|u| - 1] in {'.', '\\', '?'} then u[..|u| - 1] else u
  }

  /**
   * The URLs of one text: `findall` over the cleaned text, then the
   * one-character strip. Each is a scheme followed by URL characters, none
   * of them a character `clean_text` removes, and it lost at most one
   * trailing `.` or `?` of its match (a backslash cannot survive the clean-up).
   */
  function ExtractUrls(text: string): (r: seq<string>)
    ensures |r| == |FindAll(Urls, Cleaned(text))|
    ensures forall k :: 0 <= k < |r| ==> r[k] == StripTrailing(FindAll(Urls, Cleaned(text))[k])
    ensures forall k :: 0 <= k < |r| ==>
              (StartsWith(r[k], "http://") || StartsWith(r[k], "https://")) &&
              forall j :: 0 <= j < |r[k]| ==> r[k][j] !in CleanedChars
    ensures forall k :: 0 <= k < |r| ==>
              var raw := FindAll(Urls, Cleaned(text))[k];
              UrlShape(raw) && (r[k] == raw || (r[k] + [raw[|raw| - 1]] == raw && raw[|raw| - 1] in ".?"))
  {
    var found := FindAll(Urls, Cleaned(text));
    assert forall k :: 0 <= k < |found| ==> ExtractedUrl(found[k], StripTrailing(found[k])) by {
      forall k | 0 <= k < |found|
        ensures ExtractedUrl(found[k], StripTrailing(found[k]))
      {
        ExtractedUrlShape(text, k);
      }
    }
    seq(|found|, k requires 0 <= k < |found| => StripTrailing(found[k]))
  }

  /** `u` is what the strip leaves of the URL match `raw`. */
  predicate ExtractedUrl(raw: string, u: string) {
    (StartsWith(u, "http://") || StartsWith(u, "https://")) &&
    (forall j :: 0 <= j < |u| ==> u[j] !in CleanedChars) &&
    UrlShape(raw) && (u == raw || (u + [raw[|raw| - 1]] == raw && raw[|raw| - 1] in ".?"))
  }

  /** The length of the scheme a URL starts with. */
  function SchemeLen(t: string): nat {
    if StartsWith(t, "https://") then 8 else 7
  }

  /** A URL match: a scheme, then only URL characters, at least one of them. */
  predicate UrlShape(t: string) {
    (StartsWith(t, "http://") || StartsWith(t, "https://")) &&
    |t| > SchemeLen(t) &&
    forall k :: SchemeLen(t) <= k < |t| ==> IsUrlChar(t[k])
  }

  lemma UrlMatchShape(s: string, i: nat)
    requires i <= |s| && UrlMatch(s, i) > 0
    ensures UrlShape(s[i..i + UrlMatch(s, i)])
    ensures i + UrlMatch(s, i) == |s| || !IsUrlChar(s[i + UrlMatch(s, i)])
  {
    var n := UrlMatch(s, i);
    var t := s[i..i + n];
    assert forall k :: 0 <= k < |t| ==> t[k] == s[i + k];
    if OccursAt("https://", s, i) && Run(UrlClass, s, i + 8) > 0 {
      assert t[..8] == s[i..i + 8];
      assert SchemeLen(t) == 8;
    } else {
      assert t[..7] == s[i..i + 7];
      assert t[4] == ':';
      assert SchemeLen(t) == 7;
    }
  }

  lemma FoundUrlAt(s: string, k: nat)
    requires k < |FindAll(Urls, s)|
    ensures UrlShape(FindAll(Urls, s)[k])
  {
    var sp := FoundAt(Urls, s, k);
    UrlMatchText(s, sp.start, sp.len, FindAll(Urls, s)[k]);
  }

  lemma UrlMatchText(s: string, i: nat, n: nat, t: string)
    requires i + n <= |s| && n == MatchLength(Urls, s, i) > 0 && t == s[i..i + n]
    ensures UrlShape(t)
  {
    UrlMatchShape(s, i);
  }

  /** Every match of the URL pattern has the URL shape. */
  lemma FoundUrlShape(s: string)
    ensures forall k :: 0 <= k < |FindAll(Urls, s)| ==> UrlShape(FindAll(Urls, s)[k])
  {
    forall k | 0 <= k < |FindAll(Urls, s)|
      ensures UrlShape(FindAll(Urls, s)[k])
    {
      FoundUrlAt(s, k);
    }
  }

  /** Every match is a piece of the text it was found in. */
  lemma FoundInText(pat: Pattern, s: string, k: nat)
    requires k < |FindAll(pat, s)|
    ensures forall j :: 0 <= j < |FindAll(pat, s)[k]| ==> FindAll(pat, s)[k][j] in s
  {
    var sp := FoundAt(pat, s, k);
    SliceInText(s, sp.start, sp.start + sp.len, FindAll(pat, s)[k]);
  }

  /** Every character of a slice is a character of the text. */
  lemma SliceInText(s: string, i: nat, j: nat, t: string)
    requires i <= j <= |s| && t == s[i..j]
    ensures forall k :: 0 <= k < |t| ==> t[k] in s
  {
    forall k | 0 <= k < |t|
      ensures t[k] in s
    {
      assert t[k] == s[i + k];
    }
  }

  /** The `k`-th URL match of the cleaned text, stripped, is an extracted URL. */
  lemma ExtractedUrlShape(text: string, k: nat)
    requires k < |FindAll(Urls, Cleaned(text))|
    ensures var raw := FindAll(Urls, Cleaned(text))[k]; ExtractedUrl(raw, StripTrailing(raw))
  {
    var s := Cleaned(text);
    FoundUrlShape(s);
    FoundInText(Urls, s, k);
    var raw := FindAll(Urls, s)[k];
    forall j | 0 <= j < |raw|
      ensures raw[j] !in CleanedChars
    {
      assert raw[j] in s;
    }
    StrippedUrl(raw);
  }

  /** The strip takes at most a trailing `.` or `?` off a URL free of the cleaned characters. */
  lemma StrippedUrl(raw: string)
    requires UrlShape(raw) && forall j :: 0 <= j < |raw| ==> raw[j] !in CleanedChars
    ensures var u := StripTrailing(raw);
            (StartsWith(u, "http://") || StartsWith(u, "https://")) &&
            (forall j :: 0 <= j < |u| ==> u[j] !in CleanedChars) &&
            (u == raw || (u + [raw[|raw| - 1]] == raw && raw[|raw| - 1] in ".?"))
  {
    var u := StripTrailing(raw);
    if u != raw {
      assert u == raw[..|raw| - 1];
      assert raw[|raw| - 1] != '\\';
      PrefixKept(raw, |raw| - 1, SchemeLen(raw));
      assert u + [raw[|raw| - 1]] == raw;
    }
  }

  /** A cut that keeps the first `n` characters keeps every prefix of length `n`. */
  lemma PrefixKept(t: string, m: nat, n: nat)
    requires n <= m <= |t|
    ensures t[..m][..n] == t[..n]
  {
  }

}

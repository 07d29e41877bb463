/**
 * `utils/latex_transform.py`: Atlassian `{noformat}` blocks and `{code}`
 * listings are cut out of a text and replaced by numbered placeholder keys,
 * so that LaTeX escaping can later skip them; each cut-out block is kept,
 * optionally rewritten into a LaTeX environment.
 */
module LatexTransform {
  import opened Wrappers
  import opened Text
  import opened LatexBlocks
  import opened LatexRounds
  import opened LatexSteps
  import U = Utils

  lemma KeyFormatsBraceFree()
    ensures BraceFree(NoformatKey) && BraceFree(ListingKey)
  {
    forall n: nat
      ensures Braces(NoformatKey(n)) == 0 && Braces(ListingKey(n)) == 0
    {
      KeysHaveNoBrace(n);
    }
  }

  /** Distinct rounds get distinct keys, so the kept blocks form a dictionary. */
  lemma KeysDistinct(blocks: seq<(string, string)>, key: nat -> string)
    requires forall k :: 0 <= k < |blocks| ==> blocks[k].0 == key(k + 1)
    requires forall m: nat, n: nat :: key(m) == key(n) ==> m == n
    ensures forall i, j :: 0 <= i < j < |blocks| ==> blocks[i].0 != blocks[j].0
  {
  }

  lemma KeyFormatsInjective()
    ensures forall m: nat, n: nat :: NoformatKey(m) == NoformatKey(n) ==> m == n
    ensures forall m: nat, n: nat :: ListingKey(m) == ListingKey(n) ==> m == n
  {
    forall m: nat, n: nat
      ensures (NoformatKey(m) == NoformatKey(n) ==> m == n) && (ListingKey(m) == ListingKey(n) ==> m == n)
    {
      NoformatKeyInjective(m, n);
      ListingKeyInjective(m, n);
    }
  }

  lemma AppendAssoc<T>(x: seq<T>, y: seq<T>, z: seq<T>)
    ensures x + (y + z) == (x + y) + z
  {
  }

  // ---------------------------------------------------------------------
  // escape_noformat
  // ---------------------------------------------------------------------

  /** Lines 33-35: the content kept for a noformat match. */
  function NoformatKept(c: string, toLatex: bool): string {
    if toLatex then NoformatToLatex(c) else c
  }

  /** The rounds still to come from `r` on, numbered from `index`. */
  function NoformatRest(r: string, index: nat): (string, seq<string>)
  {
    KeyFormatsBraceFree();
    StepsLower();
    Rounds(r, index, NoformatKey, NoformatStep)
  }

  /** The loop of lines 24-37, with the numbering the source uses. */
  function NoformatLoop(s: string): (string, seq<string>)
  {
    NoformatRest(s, 1)
  }


  /** The content kept for a key: a block around `body`, or its `spverbatim` rewriting. */
  ghost predicate NoformatOf(c: string, body: string, toLatex: bool) {
    !Occurs(U.NoFormat, body) &&
    c == if toLatex then SpverbatimBegin + body + SpverbatimEnd else U.NoFormat + body + U.NoFormat
  }

  ghost predicate NoformatForm(c: string, toLatex: bool) {
    exists body :: NoformatOf(c, body, toLatex)
  }

  /** Given the match, the round the method takes is the one `NoformatStep` describes. */
  lemma NoformatStepCuts(s: string, a: nat, b: nat, k: string)
    requires NoformatSearch(s) == Some((a, b))
    ensures b + |U.NoFormat| <= |s| && NoformatStep(s, k).Some?
    ensures NoformatStep(s, k).value.1 == s[a..b + |U.NoFormat|]
    ensures NoformatStep(s, k).value.0 == ReplaceAll(s, s[a..b + |U.NoFormat|], k)
  {
    var (next, c) := NoformatStep(s, k).value;
    NoformatStepText(s, next, c, k);
    NoformatStepReplaces(s, next, c, k);
  }

  lemma NoformatStepText(s: string, next: string, c: string, k: string)
    requires NoformatStep(s, k) == Some((next, c))
    ensures NoformatSearch(s).Some?
    ensures var (a, b) := NoformatSearch(s).value; b + |U.NoFormat| <= |s| && c == s[a..b + |U.NoFormat|]
  {
    var (a, b) := NoformatSearch(s).value;
    NoformatLowers(s, a, b, k);
  }

  lemma NoformatStepReplaces(s: string, next: string, c: string, k: string)
    requires NoformatStep(s, k) == Some((next, c))
    ensures next == ReplaceAll(s, c, k)
  {
  }

  /** What a round cuts out is a whole block... */
  lemma NoformatStepBody(s: string, next: string, c: string, k: string) returns (body: string)
    requires NoformatStep(s, k) == Some((next, c))
    ensures c == U.NoFormat + body + U.NoFormat && !Occurs(U.NoFormat, body)
  {
    NoformatStepText(s, next, c, k);
    var (a, b) := NoformatSearch(s).value;
    NoformatBlock(s, a, b);
    body := s[a + |U.NoFormat|..b];
  }

  /** ...and what is kept of it has the form `toLatex` asks for. */
  lemma NoformatStepForm(s: string, next: string, c: string, k: string, toLatex: bool)
    requires NoformatStep(s, k) == Some((next, c))
    ensures NoformatForm(NoformatKept(c, toLatex), toLatex)
  {
    var body := NoformatStepBody(s, next, c, k);
    if toLatex {
      NoformatToLatexShape(body);
    }
    assert NoformatOf(NoformatKept(c, toLatex), body, toLatex);
  }

  /** Every text the loop keeps is a whole block, rewritten when `toLatex` holds. */
  lemma NoformatLoopForm(s: string, toLatex: bool, k: nat)
    requires k < |NoformatLoop(s).1|
    ensures NoformatForm(NoformatKept(NoformatLoop(s).1[k], toLatex), toLatex)
  {
    KeyFormatsBraceFree();
    StepsLower();
    RoundsAt(s, 1, NoformatKey, NoformatStep, k);
    var t := After(s, 1, NoformatKey, NoformatStep, k);
    var (next, c) := NoformatStep(t, NoformatKey(1 + k)).value;
    NoformatStepForm(t, next, c, NoformatKey(1 + k), toLatex);
  }

  /** The loop stops only when no block is left. */
  lemma NoformatLoopDone(s: string)
    ensures NoformatSearch(NoformatLoop(s).0) == None
  {
    KeyFormatsBraceFree();
    StepsLower();
    RoundsDone(s, 1, NoformatKey, NoformatStep);
  }

  /** One more round keeps the kept blocks numbered and in step with the cut-out texts. */
  lemma NoformatAppend(blocks: seq<(string, string)>, cut: seq<string>, k: string, c: string, v: string, toLatex: bool)
    requires |blocks| == |cut| && k == NoformatKey(|blocks| + 1) && v == NoformatKept(c, toLatex)
    requires forall i :: 0 <= i < |blocks| ==> blocks[i].0 == NoformatKey(i + 1)
    requires forall i :: 0 <= i < |blocks| ==> blocks[i].1 == NoformatKept(cut[i], toLatex)
    ensures forall i :: 0 <= i < |blocks| + 1 ==> (blocks + [(k, v)])[i].0 == NoformatKey(i + 1)
    ensures forall i :: 0 <= i < |blocks| + 1 ==> (blocks + [(k, v)])[i].1 == NoformatKept((cut + [c])[i], toLatex)
  {
  }

  /**
   * One pass of the loop body, lines 25-37: search, build the key, replace
   * every copy of the match's text, and rewrite the text when `toLatex`.
   */
  method NoformatRound(s: string, index: nat, toLatex: bool)
    returns (found: bool, next: string, key: string, content: string, ghost raw: string)
    ensures found <==> NoformatStep(s, NoformatKey(index)).Some?
    ensures found ==> NoformatStep(s, NoformatKey(index)) == Some((next, raw))
    ensures key == NoformatKey(index) && content == NoformatKept(raw, toLatex)
  {
    key := NoformatKey(index);
    var m := NoformatSearch(s);
    if m.None? {
      found, next, content, raw := false, s, [], [];
      return;
    }
    var a, b := m.value.0, m.value.1;
    NoformatStepCuts(s, a, b, key);
    found := true;
    content := s[a..b + |U.NoFormat|];
    next := s;
    next := ReplaceAll(s, content, key);
    raw := content;
    if toLatex {
      content := NoformatToLatex(content);
    }
  }

  /**
   * What `EscapeNoformat`'s loop keeps: the rounds taken so far (`cut`)
   * followed by the rounds still to come are the rounds of the whole loop,
   * and `blocks` holds the keys and kept texts of the rounds taken.
   */
  ghost predicate NoformatInv(str: string, toLatex: bool, r: string, index: nat,
                              cut: seq<string>, blocks: seq<(string, string)>)
  {
    index == |blocks| + 1 && |cut| == |blocks| &&
    NoformatRest(r, index).0 == NoformatLoop(str).0 &&
    cut + NoformatRest(r, index).1 == NoformatLoop(str).1 &&
    (forall k :: 0 <= k < |blocks| ==> blocks[k].0 == NoformatKey(k + 1)) &&
    (forall k :: 0 <= k < |blocks| ==> blocks[k].1 == NoformatKept(cut[k], toLatex))
  }

  lemma NoformatInvStart(str: string, toLatex: bool)
    ensures NoformatInv(str, toLatex, str, 1, [], [])
  {
  }

  lemma NoformatInvStep(str: string, toLatex: bool, r: string, index: nat,
                        cut: seq<string>, blocks: seq<(string, string)>,
                        next: string, key: string, raw: string, content: string)
    requires NoformatInv(str, toLatex, r, index, cut, blocks)
    requires NoformatStep(r, NoformatKey(index)) == Some((next, raw))
    requires key == NoformatKey(index) && content == NoformatKept(raw, toLatex)
    ensures Braces(next) < Braces(r)
    ensures NoformatInv(str, toLatex, next, index + 1, cut + [raw], blocks + [(key, content)])
  {
    KeysHaveNoBrace(index);
    KeyFormatsBraceFree();
    StepsLower();
    RoundsOnce(r, next, raw, index, NoformatKey, NoformatStep);
    AppendAssoc(cut, [raw], NoformatRest(next, index + 1).1);
    NoformatAppend(blocks, cut, key, raw, content, toLatex);
  }

  lemma NoformatInvExit(str: string, toLatex: bool, r: string, index: nat,
                        cut: seq<string>, blocks: seq<(string, string)>)
    requires NoformatInv(str, toLatex, r, index, cut, blocks)
    requires NoformatStep(r, NoformatKey(index)).None?
    ensures r == NoformatLoop(str).0 && |blocks| == |NoformatLoop(str).1|
    ensures forall k :: 0 <= k < |blocks| ==> blocks[k].0 == NoformatKey(k + 1)
    ensures forall k :: 0 <= k < |blocks| ==> blocks[k].1 == NoformatKept(NoformatLoop(str).1[k], toLatex)
    ensures NoformatSearch(r) == None
    ensures forall k :: 0 <= k < |blocks| ==> NoformatForm(blocks[k].1, toLatex)
    ensures forall i, j :: 0 <= i < j < |blocks| ==> blocks[i].0 != blocks[j].0
  {
    KeyFormatsBraceFree();
    StepsLower();
    RoundsNone(r, index, NoformatKey, NoformatStep);
    NoformatLoopDone(str);
    NoformatBlocksForm(str, blocks, toLatex);
  }

  /**
   * `escape_noformat`: every noformat block is replaced by a numbered key
   * and kept, with the key, in `blocks`.
   */
  method EscapeNoformat(str: string, toLatex: bool) returns (r: string, blocks: seq<(string, string)>)
    ensures r == NoformatLoop(str).0 && |blocks| == |NoformatLoop(str).1|
    ensures forall k :: 0 <= k < |blocks| ==> blocks[k].0 == NoformatKey(k + 1)
    ensures forall k :: 0 <= k < |blocks| ==> blocks[k].1 == NoformatKept(NoformatLoop(str).1[k], toLatex)
    ensures NoformatSearch(r) == None
    ensures forall k :: 0 <= k < |blocks| ==> NoformatForm(blocks[k].1, toLatex)
    ensures forall i, j :: 0 <= i < j < |blocks| ==> blocks[i].0 != blocks[j].0
  {
    r, blocks := str, [];
    var index := 1;
    ghost var cut: seq<string> := [];
    NoformatInvStart(str, toLatex);
    while true
      invariant NoformatInv(str, toLatex, r, index, cut, blocks)
      decreases Braces(r)
    {
      var found, next, key, content, raw := NoformatRound(r, index, toLatex);
      if !found {
        NoformatInvExit(str, toLatex, r, index, cut, blocks);
        break;
      }
      NoformatInvStep(str, toLatex, r, index, cut, blocks, next, key, raw, content);
      r := next;
      cut := cut + [raw];
      blocks := blocks + [(key, content)];
      index := index + 1;
    }
  }

  /** What the method's loop establishes gives the forms and the distinct keys. */
  lemma NoformatBlocksForm(str: string, blocks: seq<(string, string)>, toLatex: bool)
    requires |blocks| == |NoformatLoop(str).1|
    requires forall k :: 0 <= k < |blocks| ==> blocks[k].0 == NoformatKey(k + 1)
    requires forall k :: 0 <= k < |blocks| ==> blocks[k].1 == NoformatKept(NoformatLoop(str).1[k], toLatex)
    ensures forall k :: 0 <= k < |blocks| ==> NoformatForm(blocks[k].1, toLatex)
    ensures forall i, j :: 0 <= i < j < |blocks| ==> blocks[i].0 != blocks[j].0
  {
    forall k | 0 <= k < |blocks|
      ensures NoformatForm(blocks[k].1, toLatex)
    {
      NoformatLoopForm(str, toLatex, k);
    }
    KeyFormatsInjective();
    KeysDistinct(blocks, NoformatKey);
  }

  // ---------------------------------------------------------------------
  // escape_listings
  // ---------------------------------------------------------------------

  /** Lines 72-91: the content kept for a listing match, rewritten as lines 79-86 do, cut into lines when long. */
  function ListingKept(c: string, toLatex: bool): string {
    Wrapped(if toLatex then ListingToLatexAsWritten(c) else c)
  }

  /** The rounds of the listing loop still to come from `r` on, numbered from `index`. */
  function ListingRest(r: string, index: nat): (string, seq<string>)
  {
    KeyFormatsBraceFree();
    StepsLower();
    Rounds(r, index, ListingKey, ListingStep)
  }

  /** The loop of lines 63-92, with the numbering the source uses. */
  function ListingLoop(s: string): (string, seq<string>)
  {
    ListingRest(s, 1)
  }

  /**
   * The content kept for a key: a listing with language `lang` (or none)
   * around `body`, or its `lstlisting` rewriting, cut into lines.
   */
  ghost predicate ListingOf(c: string, lang: Option<string>, body: string, toLatex: bool) {
    !Occurs(U.Code, body) && (lang.Some? ==> '}' !in lang.value) &&
    c == Wrapped(
      match lang
      case Some(l) =>
        if toLatex then LanguageOpener(l) + body + ListingEnd else CodeOpen + l + "}" + body + U.Code
      case None =>
        if toLatex then U.BeginListing + body + ListingEnd else U.Code + body + U.Code)
  }

  ghost predicate ListingForm(c: string, toLatex: bool) {
    exists lang, body :: ListingOf(c, lang, body, toLatex)
  }

  /** Given the match, the round the method takes is the one `ListingStep` describes. */
  lemma ListingStepCuts(s: string, a: nat, e: nat, k: string)
    requires ListingSearch(s) == Some((a, e))
    ensures e + |U.Code| <= |s| && ListingStep(s, k).Some?
    ensures ListingStep(s, k).value.1 == s[a..e + |U.Code|]
    ensures ListingStep(s, k).value.0 == ReplaceAll(s, s[a..e + |U.Code|], k)
  {
    var (next, c) := ListingStep(s, k).value;
    ListingStepText(s, next, c, k);
    ListingStepReplaces(s, next, c, k);
  }

  lemma ListingStepText(s: string, next: string, c: string, k: string)
    requires ListingStep(s, k) == Some((next, c))
    ensures ListingSearch(s).Some?
    ensures var (a, e) := ListingSearch(s).value; e + |U.Code| <= |s| && c == s[a..e + |U.Code|]
  {
    var (a, e) := ListingSearch(s).value;
    ListingLowers(s, a, e, k);
  }

  lemma ListingStepReplaces(s: string, next: string, c: string, k: string)
    requires ListingStep(s, k) == Some((next, c))
    ensures next == ReplaceAll(s, c, k)
  {
  }

  /** What a round cuts out is a whole listing, with or without a language... */
  lemma ListingStepBody(s: string, next: string, c: string, k: string) returns (lang: Option<string>, body: string)
    requires ListingStep(s, k) == Some((next, c))
    ensures lang.Some? ==> LanguageBlock(c, lang.value, body)
    ensures lang.None? ==> PlainBlock(c, body)
  {
    ListingStepText(s, next, c, k);
    var (a, e) := ListingSearch(s).value;
    ListingSearchFromAt(s, 0);
    var l, b := ListingFoundShape(s, a, e);
    lang := if OccursAt(CodeOpen, s, a) then Some(l) else None;
    body := b;
  }

  /**
   * ...and what is kept of it has the form `toLatex` asks for, unless the
   * rewriting reads a language from a `{code:` inside a plain listing.
   */
  lemma ListingStepForm(s: string, next: string, c: string, k: string, toLatex: bool)
    requires ListingStep(s, k) == Some((next, c))
    ensures !toLatex || LanguageFromOpener(c) ==> ListingForm(ListingKept(c, toLatex), toLatex)
  {
    var lang, body := ListingStepBody(s, next, c, k);
    if !toLatex || LanguageFromOpener(c) {
      if toLatex {
        ListingToLatexAgrees(c);
        if lang.Some? {
          LanguageBlockToLatex(c, lang.value, body);
        } else {
          PlainBlockToLatex(c, body);
        }
      }
      assert ListingOf(ListingKept(c, toLatex), lang, body, toLatex);
    }
  }

  /** Every text the loop keeps is a whole listing, rewritten when `toLatex` holds. */
  lemma ListingLoopForm(s: string, toLatex: bool, k: nat)
    requires k < |ListingLoop(s).1|
    ensures !toLatex || LanguageFromOpener(ListingLoop(s).1[k]) ==>
              ListingForm(ListingKept(ListingLoop(s).1[k], toLatex), toLatex)
  {
    KeyFormatsBraceFree();
    StepsLower();
    RoundsAt(s, 1, ListingKey, ListingStep, k);
    var t := After(s, 1, ListingKey, ListingStep, k);
    var (next, c) := ListingStep(t, ListingKey(1 + k)).value;
    ListingStepForm(t, next, c, ListingKey(1 + k), toLatex);
  }

  /** The loop stops only when no listing is left. */
  lemma ListingLoopDone(s: string)
    ensures ListingSearch(ListingLoop(s).0) == None
  {
    KeyFormatsBraceFree();
    StepsLower();
    RoundsDone(s, 1, ListingKey, ListingStep);
  }

  lemma ListingAppend(blocks: seq<(string, string)>, cut: seq<string>, k: string, c: string, v: string, toLatex: bool)
    requires |blocks| == |cut| && k == ListingKey(|blocks| + 1) && v == ListingKept(c, toLatex)
    requires forall i :: 0 <= i < |blocks| ==> blocks[i].0 == ListingKey(i + 1)
    requires forall i :: 0 <= i < |blocks| ==> blocks[i].1 == ListingKept(cut[i], toLatex)
    ensures forall i :: 0 <= i < |blocks| + 1 ==> (blocks + [(k, v)])[i].0 == ListingKey(i + 1)
    ensures forall i :: 0 <= i < |blocks| + 1 ==> (blocks + [(k, v)])[i].1 == ListingKept((cut + [c])[i], toLatex)
  {
  }


  /**
   * One pass of the loop body, lines 64-92: search, build the key, replace
   * every copy of the match's text, rewrite it when `toLatex`, and cut it
   * into lines when it is long.
   */
  method ListingRound(s: string, index: nat, toLatex: bool)
    returns (found: bool, next: string, key: string, content: string, ghost raw: string)
    ensures found <==> ListingStep(s, ListingKey(index)).Some?
    ensures found ==> ListingStep(s, ListingKey(index)) == Some((next, raw))
    ensures key == ListingKey(index) && content == ListingKept(raw, toLatex)
  {
    key := ListingKey(index);
    var m := ListingSearch(s);
    if m.None? {
      found, next, content, raw := false, s, Wrapped([]), [];
      return;
    }
    var a, e := m.value.0, m.value.1;
    ListingStepCuts(s, a, e, key);
    found := true;
    content := s[a..e + |U.Code|];
    next := ReplaceAll(s, content, key);
    raw := content;
    if toLatex {
      content := ListingToLatexAsWritten(content);
    }
    content := Wrapped(content);
  }

  /** What `EscapeListings`'s loop keeps, as `NoformatInv` does for noformat blocks. */
  ghost predicate ListingInv(str: string, toLatex: bool, r: string, index: nat,
                             cut: seq<string>, blocks: seq<(string, string)>)
  {
    index == |blocks| + 1 && |cut| == |blocks| &&
    ListingRest(r, index).0 == ListingLoop(str).0 &&
    cut + ListingRest(r, index).1 == ListingLoop(str).1 &&
    (forall k :: 0 <= k < |blocks| ==> blocks[k].0 == ListingKey(k + 1)) &&
    (forall k :: 0 <= k < |blocks| ==> blocks[k].1 == ListingKept(cut[k], toLatex))
  }

  lemma ListingInvStart(str: string, toLatex: bool)
    ensures ListingInv(str, toLatex, str, 1, [], [])
  {
  }

  lemma ListingInvStep(str: string, toLatex: bool, r: string, index: nat,
                       cut: seq<string>, blocks: seq<(string, string)>,
                       next: string, key: string, raw: string, content: string)
    requires ListingInv(str, toLatex, r, index, cut, blocks)
    requires ListingStep(r, ListingKey(index)) == Some((next, raw))
    requires key == ListingKey(index) && content == ListingKept(raw, toLatex)
    ensures Braces(next) < Braces(r)
    ensures ListingInv(str, toLatex, next, index + 1, cut + [raw], blocks + [(key, content)])
  {
    KeysHaveNoBrace(index);
    KeyFormatsBraceFree();
    StepsLower();
    RoundsOnce(r, next, raw, index, ListingKey, ListingStep);
    AppendAssoc(cut, [raw], ListingRest(next, index + 1).1);
    ListingAppend(blocks, cut, key, raw, content, toLatex);
  }

  lemma ListingInvExit(str: string, toLatex: bool, r: string, index: nat,
                       cut: seq<string>, blocks: seq<(string, string)>)
    requires ListingInv(str, toLatex, r, index, cut, blocks)
    requires ListingStep(r, ListingKey(index)).None?
    ensures r == ListingLoop(str).0 && |blocks| == |ListingLoop(str).1|
    ensures forall k :: 0 <= k < |blocks| ==> blocks[k].0 == ListingKey(k + 1)
    ensures forall k :: 0 <= k < |blocks| ==> blocks[k].1 == ListingKept(ListingLoop(str).1[k], toLatex)
    ensures ListingSearch(r) == None
    ensures forall k :: 0 <= k < |blocks| && (!toLatex || LanguageFromOpener(ListingLoop(str).1[k])) ==>
              ListingForm(blocks[k].1, toLatex)
    ensures forall i, j :: 0 <= i < j < |blocks| ==> blocks[i].0 != blocks[j].0
  {
    KeyFormatsBraceFree();
    StepsLower();
    RoundsNone(r, index, ListingKey, ListingStep);
    ListingLoopDone(str);
    ListingBlocksForm(str, blocks, toLatex);
  }

  /**
   * `escape_listings`: every code listing is replaced by a numbered key and
   * kept, with the key, in `blocks`.
   */
  method EscapeListings(str: string, toLatex: bool) returns (r: string, blocks: seq<(string, string)>)
    ensures r == ListingLoop(str).0 && |blocks| == |ListingLoop(str).1|
    ensures forall k :: 0 <= k < |blocks| ==> blocks[k].0 == ListingKey(k + 1)
    ensures forall k :: 0 <= k < |blocks| ==> blocks[k].1 == ListingKept(ListingLoop(str).1[k], toLatex)
    ensures ListingSearch(r) == None
    ensures forall k :: 0 <= k < |blocks| && (!toLatex || LanguageFromOpener(ListingLoop(str).1[k])) ==>
              ListingForm(blocks[k].1, toLatex)
    ensures forall i, j :: 0 <= i < j < |blocks| ==> blocks[i].0 != blocks[j].0
  {
    r, blocks := str, [];
    var index := 1;
    ghost var cut: seq<string> := [];
    ListingInvStart(str, toLatex);
    while true
      invariant ListingInv(str, toLatex, r, index, cut, blocks)
      decreases Braces(r)
    {
      var found, next, key, content, raw := ListingRound(r, index, toLatex);
      if !found {
        ListingInvExit(str, toLatex, r, index, cut, blocks);
        break;
      }
      ListingInvStep(str, toLatex, r, index, cut, blocks, next, key, raw, content);
      r := next;
      cut := cut + [raw];
      blocks := blocks + [(key, content)];
      index := index + 1;
    }
  }

  lemma ListingBlocksForm(str: string, blocks: seq<(string, string)>, toLatex: bool)
    requires |blocks| == |ListingLoop(str).1|
    requires forall k :: 0 <= k < |blocks| ==> blocks[k].0 == ListingKey(k + 1)
    requires forall k :: 0 <= k < |blocks| ==> blocks[k].1 == ListingKept(ListingLoop(str).1[k], toLatex)
    ensures forall k :: 0 <= k < |blocks| && (!toLatex || LanguageFromOpener(ListingLoop(str).1[k])) ==>
              ListingForm(blocks[k].1, toLatex)
    ensures forall i, j :: 0 <= i < j < |blocks| ==> blocks[i].0 != blocks[j].0
  {
    forall k | 0 <= k < |blocks| && (!toLatex || LanguageFromOpener(ListingLoop(str).1[k]))
      ensures ListingForm(blocks[k].1, toLatex)
    {
      ListingLoopForm(str, toLatex, k);
    }
    KeyFormatsInjective();
    KeysDistinct(blocks, ListingKey);
  }
}

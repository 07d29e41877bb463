/**
 * The inputs `test.py` feeds to the extractors, worked out on the model:
 * the digit runs of its number text, an issue key found inside a longer
 * token, and the revision marker that needs a space after `Rev.`.
 */
module RegexExamples {
  import opened Text
  import opened RefRegex

  /** The text of `test_first_number_extraction`, cut where runs start and end. */
  const NumbersText: string := "jnfgjkn   7 12355123nvj6453kjdgf99"

  lemma NumbersTextPieces()
    ensures NumbersText == "jnfgjkn   " + "7" + " " + "12355123" + "nvj" + "6453" + "kjdgf" + "99"
  {
  }

  lemma SkipFrom0(s: string)
    requires s == "jnfgjkn   " + "7" + " " + "12355123" + "nvj" + "6453" + "kjdgf" + "99"
    ensures DigitRunsFrom(s, 0) == DigitRunsFrom(s, 10)
  {
    assert s[0..10] == "jnfgjkn   ";
    RunsSkip(s, 0, 10);
  }

  lemma TakeFrom10(s: string)
    requires s == "jnfgjkn   " + "7" + " " + "12355123" + "nvj" + "6453" + "kjdgf" + "99"
    ensures DigitRunsFrom(s, 10) == ["7"] + DigitRunsFrom(s, 11)
  {
    assert s[10..11] == "7";
    RunsTake(s, 10, 11);
  }

  lemma SkipFrom11(s: string)
    requires s == "jnfgjkn   " + "7" + " " + "12355123" + "nvj" + "6453" + "kjdgf" + "99"
    ensures DigitRunsFrom(s, 11) == DigitRunsFrom(s, 12)
  {
    assert s[11..12] == " ";
    RunsSkip(s, 11, 12);
  }

  lemma TakeFrom12(s: string)
    requires s == "jnfgjkn   " + "7" + " " + "12355123" + "nvj" + "6453" + "kjdgf" + "99"
    ensures DigitRunsFrom(s, 12) == ["12355123"] + DigitRunsFrom(s, 20)
  {
    assert s[12..20] == "12355123";
    RunsTake(s, 12, 20);
  }

  lemma SkipFrom20(s: string)
    requires s == "jnfgjkn   " + "7" + " " + "12355123" + "nvj" + "6453" + "kjdgf" + "99"
    ensures DigitRunsFrom(s, 20) == DigitRunsFrom(s, 23)
  {
    assert s[20..23] == "nvj";
    RunsSkip(s, 20, 23);
  }

  lemma TakeFrom23(s: string)
    requires s == "jnfgjkn   " + "7" + " " + "12355123" + "nvj" + "6453" + "kjdgf" + "99"
    ensures DigitRunsFrom(s, 23) == ["6453"] + DigitRunsFrom(s, 27)
  {
    assert s[23..27] == "6453";
    RunsTake(s, 23, 27);
  }

  lemma SkipFrom27(s: string)
    requires s == "jnfgjkn   " + "7" + " " + "12355123" + "nvj" + "6453" + "kjdgf" + "99"
    ensures DigitRunsFrom(s, 27) == DigitRunsFrom(s, 32)
  {
    assert s[27..32] == "kjdgf";
    RunsSkip(s, 27, 32);
  }

  lemma TakeFrom32(s: string)
    requires s == "jnfgjkn   " + "7" + " " + "12355123" + "nvj" + "6453" + "kjdgf" + "99"
    ensures DigitRunsFrom(s, 32) == ["99"]
  {
    assert s[32..34] == "99";
    RunsTake(s, 32, 34);
  }

  lemma RunsOfNumbersText(s: string)
    requires s == "jnfgjkn   " + "7" + " " + "12355123" + "nvj" + "6453" + "kjdgf" + "99"
    ensures DigitRunsFrom(s, 0) == ["7", "12355123", "6453", "99"]
  {
    SkipFrom0(s); TakeFrom10(s);
    SkipFrom11(s); TakeFrom12(s);
    SkipFrom20(s); TakeFrom23(s);
    SkipFrom27(s); TakeFrom32(s);
  }

  /** test.py lines 10-11: the four maximal digit runs, in order. */
  lemma NumbersExample()
    ensures ExtractNumbers(NumbersText) == ["7", "12355123", "6453", "99"]
  {
    NumbersTextPieces();
    RunsOfNumbersText(NumbersText);
    NumbersAreRuns(NumbersText);
  }

  /** test.py line 5: `aPDFBOX-152b` holds the key `PDFBOX-152`, which stops before `b`. */
  lemma IssueInsideToken(s: string)
    requires s == "a" + "PDFBOX-" + "152" + "b"
    ensures MatchLength(Issues("PDFBOX"), s, 0) == 0
    ensures MatchLength(Issues("PDFBOX"), s, 1) == 10 && s[1..11] == "PDFBOX-152"
  {
    assert s[0] == 'a';
    assert s[1..8] == "PDFBOX-" && s[8..11] == "152" && s[11] == 'b';
    DigitRunLength(s, 8, 11);
  }

  /** test.py line 6: `Rev.36` is no revision, since `Rev.` must be followed by a space. */
  lemma RevisionNeedsSpace()
    ensures RevisionMatch("Rev.36", 0) == 0
  {
  }

  /** test.py line 6: in `5rhdrghfCommit 72` the `r` is followed by a letter and starts no match. */
  lemma LetterRWithoutDigits(s: string)
    requires s == "5" + "rhdrghf" + "Commit " + "72"
    ensures RevisionMatch(s, 1) == 0
  {
    assert s[1] == 'r' && s[2] == 'h';
  }

  /** test.py line 6: `Commit 72` is matched although letters come right before it. */
  lemma CommitInsideToken(s: string)
    requires s == "5" + "rhdrghf" + "Commit " + "72"
    ensures RevisionMatch(s, 8) == 9 && s[8..17] == "Commit 72"
  {
    assert s[8] == 'C' && s[9..15] == "ommit " && s[15..17] == "72";
    DigitRunLength(s, 15, 17);
  }
}

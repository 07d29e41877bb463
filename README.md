# genReport core in Dafny

genReport collects the issues of an Apache Jira project, together with their
links, comments, attachments and the references found in their text, and
renders a report from them. This project models the parts of it that are
plain string and record logic, and proves what they compute:

- **Reference matchers** (`utils/ref_regex.py`). The four regular expressions
  are written as hand-made scanners: digit runs, `PROJECT-digits` issue keys,
  revision mentions and URLs. They follow Python's `findall` search order:
  leftmost match, greedy, no overlap, and the search goes on after each
  match. `clean_text` is modelled both as a loop of `replace` calls and as a
  one-pass specification. The URL search with its one-character trailing
  strip is modelled too.
- **URL and revision helpers** (`utils/__init__.py`): the SVN revision URL,
  the PDF and mailing-list filters on sets, and the
  `atlassian_code_format_to_listing` rewriting loop.
- **Block extraction for LaTeX** (`utils/latex_transform.py`).
  `escape_noformat` and `escape_listings` are methods whose loops are proved
  against a function of the input. That function is a generic round-by-round
  definition, and its termination measure is the number of `{` characters.
  Each round finds the leftmost-shortest block, replaces every copy of it by a
  numbered key, and keeps the block, optionally rewritten into a LaTeX
  environment. Listings longer than 400 characters are cut into lines.
- **The `--issues` argument** (`report_generator.py`, `define_issues`). It
  validates and expands a list such as `124,136-152,174`, then sorts the
  result as strings.
- **The issue record** built by the two versions of `__prepare_json_object`
  (`jira_parser/__init__.py` and `parser/jiraparser.py`). Both are modelled,
  and the points where they disagree are proved.

Module layout:
- `wrappers.dfy`: `Option`.
- `text.dfy`: the Python string built-ins the code uses, namely `find`,
  `replace` (all and first), `split`, `strip`, `isdecimal` and `str`/`int`
  on naturals.
- `ref_regex.dfy`, `regex_examples.dfy`, `utils.dfy`.
- `latex_blocks.dfy`: the patterns, the conversions, chunking and keys.
- `latex_rounds.dfy`: the generic loop.
- `latex_steps.dfy`: one round of each loop.
- `latex_transform.dfy`: the two methods.
- `report_generator.dfy`.
- `jira_raw.dfy`: the raw Jira JSON as datatypes.
- `jira_parser.dfy`, `parser_jira_parser.dfy`.

## Model

| member | source | states |
|---|---|---|
| RefRegex.UrlCharClass | utils/ref_regex.py:7 | a character is in the URL class exactly when it is printable ASCII other than `"`, `` ` ``, `{`, `|` and `}` |
| RefRegex.Run | utils/ref_regex.py:7-9 | a greedy `+` run: every character in it is in the class, and the next one is not (or the text ends) |
| RefRegex.ScanIsFindAll | utils/ref_regex.py:37 | the scanner returns matches that start at a match position, run left to right without overlap, and leave no match start uncovered |
| RefRegex.FindAllUnique | utils/ref_regex.py:37 | any list of spans with those properties is the scanner's list, so that description fixes `findall`'s result |
| RefRegex.FoundAt | utils/ref_regex.py:37 | the k-th found string is the text of a match of the pattern at its start |
| RefRegex.ExtractNumbers | utils/ref_regex.py:64-65 | every extracted number is a non-empty string of decimal digits |
| RefRegex.NumbersAreAllDigits | utils/ref_regex.py:64-65 | the numbers, concatenated in order, are exactly the digits of the text |
| RefRegex.NumbersMaximal | utils/ref_regex.py:64-65 | each number is a maximal digit run: no digit right before it or right after it |
| RefRegex.NumbersAreRuns | utils/ref_regex.py:64-65 | `extract_numbers` equals the digit runs read off the text directly, left to right |
| RefRegex.ExtractIssues | utils/ref_regex.py:55-57 | every match is the project code, a dash, then one or more digits |
| RefRegex.IssueMatchShape | utils/ref_regex.py:56 | a match at an index has that shape and its digit run is not followed by another digit |
| RefRegex.ExtractRevisions | utils/ref_regex.py:60-61 | every match is `r`, `Rev` with any non-newline character and a space, `Revision ` or `Commit ` (either case for the first letter), followed by digits (the pattern it uses is at line 8) |
| RefRegex.RevisionMatchShape | utils/ref_regex.py:8 | a revision match at an index has one of the four marker shapes followed by digits |
| RefRegex.Cleaned | utils/ref_regex.py:84-86 | the cleaned text is no longer than the input and contains none of `(`, `)`, `[`, `]`, `<`, `>`, `\` |
| RefRegex.CleanText | utils/ref_regex.py:68-87 | the loop of `replace(char, ' ')` calls yields the one-pass cleaned text |
| RefRegex.CleanedInTwoSteps | utils/ref_regex.py:84-86 | cleaning replaces each two-character backslash-n by one space and then blanks every other listed character in place |
| RefRegex.CleanedKeepsLength | utils/ref_regex.py:84-86 | with no backslash-n in the text, cleaning keeps the length and blanks the listed characters in place |
| RefRegex.CleanedIdentity | utils/ref_regex.py:84-87 | the text is returned unchanged exactly when it holds none of the listed characters |
| RefRegex.CleanedIdempotent | utils/ref_regex.py:84-87 | cleaning twice is cleaning once |
| RefRegex.StripTrailing | utils/ref_regex.py:42 | the last character is dropped exactly when it is `.`, `\` or `?`; otherwise the URL is unchanged |
| RefRegex.ExtractUrls | utils/ref_regex.py:37-45 | the URLs are the URL matches in the cleaned text, in order, each with the trailing strip applied; each starts with `http://` or `https://`, holds no character `clean_text` removes, and is its match or its match less one trailing `.` or `?`, the match being a scheme followed by URL characters |
| RefRegex.UrlMatchShape | utils/ref_regex.py:7 | a URL match is `http://` or `https://` followed by a maximal run of URL characters |
| RefRegex.ExtractedUrlShape | utils/ref_regex.py:37-42 | the k-th URL match of the cleaned text, once stripped, starts with the scheme and has no cleaned character; it is the match itself or the match less one trailing `.` or `?` (the pattern it uses is at line 7) |
| RegexExamples.NumbersExample | test.py:10-11 | the test string gives `["7","12355123","6453","99"]` |
| RegexExamples.IssueInsideToken | test.py:5 | inside `aPDFBOX-152b`, the key `PDFBOX-152` is matched from index 1, and nothing is matched at index 0 |
| RegexExamples.RevisionNeedsSpace | test.py:6 | `Rev.36` is no match, since a space must follow the wildcard |
| RegexExamples.LetterRWithoutDigits | test.py:6 | an `r` followed by a letter starts no match |
| RegexExamples.CommitInsideToken | test.py:6 | `Commit 72` is matched right after other letters, since the pattern has no word boundary |
| Utils.ConstructSvnRevisionUrl | utils/__init__.py:34-41 | with a digit in the revision, the URL is `https://svn.apache.org/r` plus the first digit run; with none, there is no URL (the source raises) |
| Utils.FirstExtractedNumber | utils/__init__.py:40 | `extract_numbers(r)[0]` exists exactly when `r` has a digit, and it is the first digit run |
| Utils.FirstNumberIsDecimal | utils/__init__.py:40 | the first digit run of a text with a digit is a decimal string |
| Utils.FilterPdfDocumentUrls | utils/__init__.py:44-51 | the result is a subset of the input, and a URL of the input is in it exactly when it ends with `.pdf` |
| Utils.PdfPartition | utils/__init__.py:51 | the PDF URLs and the rest make up the input, and none of the rest ends with `.pdf` |
| Utils.PdfIdempotent | utils/__init__.py:51 | filtering twice is filtering once |
| Utils.PdfUnion | utils/__init__.py:51 | filtering a union is the union of the filtered sets |
| Utils.MailingListKeys | utils/__init__.py:62-63 | no keys or an empty key list give `["mail-archives", "markmail"]`; any other list is used as given |
| Utils.FilterMailingListUrls | utils/__init__.py:54-64 | the result is a subset of the input, and a URL is in it exactly when it contains one of the keys |
| Utils.MailingListDefaults | utils/__init__.py:62-63 | passing no keys or an empty list is the same as passing the two default keys |
| Utils.MailingListDefaultKeys | utils/__init__.py:62-64 | with default keys, a URL is kept exactly when it contains `mail-archives` or `markmail` |
| Utils.MailingListIdempotent | utils/__init__.py:64 | filtering twice with the same keys is filtering once |
| Utils.MailingListMoreKeys | utils/__init__.py:64 | more keys keep at least the same URLs |
| Utils.CodeToListingRemoves | utils/__init__.py:68-69 | after the two `replace` calls, neither `{code:java}` nor `{code}` is left |
| Utils.AlternateAt | utils/__init__.py:71-73 | the first `{noformat}` becomes `\begin{lstlisting}` and the next the closing delimiter, and conversion goes on after it; a lone last marker becomes the opener |
| Utils.AlternateStep | utils/__init__.py:71-73 | one pass of the loop is the next step of the alternating conversion, and it shrinks the part still to convert |
| Utils.AtlassianCodeFormatToListing | utils/__init__.py:67-75 | the loop computes the alternating conversion of the text after the two `replace` calls, and leaves no `{noformat}`, `{code:java}` or `{code}` |
| Utils.AlternateRemoves | utils/__init__.py:71-73 | the conversion leaves no `{noformat}` |
| Utils.AlternateIdentity | utils/__init__.py:71 | a text without `{noformat}` is not changed by the loop |
| LatexBlocks.NoformatSearch | utils/latex_transform.py:25 | `pattern.search` finds a `{noformat}…{noformat}` match exactly when one exists; it is the leftmost, and from there the shortest (the pattern it uses is at line 22) |
| LatexBlocks.NoSearchAtMostOne | utils/latex_transform.py:24-27 | when the search finds nothing, at most one `{noformat}` remains |
| LatexBlocks.NoformatBlock | utils/latex_transform.py:28 | the matched text is `{noformat}`, a body without `{noformat}`, then `{noformat}` (the pattern it uses is at line 22) |
| LatexBlocks.NoformatToLatexShape | utils/latex_transform.py:33-35 | the two first-occurrence replacements turn such a block into `\begin{spverbatim}` body `\end{spverbatim}\ ` |
| LatexBlocks.ListingSearch | utils/latex_transform.py:65 | the listing search finds a match exactly when one exists; it is the leftmost, and from there the shortest, over both openers (the pattern it uses is at line 57) |
| LatexBlocks.ListingAtShortest | utils/latex_transform.py:57 | at a given start, the match ends at the first `{code}` that may close it |
| LatexBlocks.ListingFoundShape | utils/latex_transform.py:68 | the matched text is `{code:LANG}` body `{code}` with no `}` in LANG, or `{code}` body `{code}`; in both the body holds no `{code}` (the pattern it uses is at line 57) |
| LatexBlocks.LanguageSearch | utils/latex_transform.py:79 | the language search finds the leftmost `{code:` and the first `}` after it, exactly when there is one |
| LatexBlocks.LanguageBlockToLatex | utils/latex_transform.py:79-86 | a `{code:LANG}` block becomes `\begin{lstlisting}[language=LANG]` body `\end{lstlisting}\ ` |
| LatexBlocks.PlainBlockToLatex | utils/latex_transform.py:84-86 | a `{code}` block becomes `\begin{lstlisting}` body `\end{lstlisting}\ ` (corrected rewriting) |
| LatexBlocks.ListingToLatexAgrees | utils/latex_transform.py:79-86 | the code as written and the corrected rewriting agree unless a `{code:` follows a plain opener |
| LatexBlocks.PlainBlockOpener | utils/latex_transform.py:79 | a `{code}` block has no `{code:` after its opener exactly when its body holds none, so the two rewritings can differ only on such a block |
| LatexBlocks.FindingAsWritten | utils/latex_transform.py:79-86 | as written, `{code}x{code:y}z{code}` becomes `\end{lstlisting}\ x\begin{lstlisting}[language=y]z{code}` |
| LatexBlocks.FindingCorrected | utils/latex_transform.py:79-86 | the corrected rewriting turns it into `\begin{lstlisting}x{code:y}z\end{lstlisting}\ ` |
| LatexBlocks.ChunksConcat | utils/latex_transform.py:91 | the 400-character pieces, glued back, are the content |
| LatexBlocks.ChunksSizes | utils/latex_transform.py:91 | each piece has 1 to 400 characters, and all but the last exactly 400 |
| LatexBlocks.ChunksCount | utils/latex_transform.py:91 | there are ⌈n/400⌉ pieces |
| LatexBlocks.WrappedShort | utils/latex_transform.py:87 | content of at most 400 characters is kept as it is |
| LatexBlocks.JoinChunksAt | utils/latex_transform.py:91 | in the joined text, character k of the content sits at k + k/400 |
| LatexBlocks.JoinChunksNewline | utils/latex_transform.py:91 | a newline follows every full 400-character line |
| LatexBlocks.WrappedLength | utils/latex_transform.py:87-91 | wrapping content of n > 400 characters adds (n − 1) / 400 newlines, one between each two lines |
| LatexBlocks.NoformatKeyInjective | utils/latex_transform.py:29 | `<<!PDFGENNOFORMAT{i}!>>` keys are equal exactly when their numbers are |
| LatexBlocks.ListingKeyInjective | utils/latex_transform.py:69 | `<<!PDFGENCODE{i}!>>` keys are equal exactly when their numbers are |
| LatexBlocks.KeysHaveNoBrace | utils/latex_transform.py:69 | no listing key contains `{`, nor does the noformat key built at line 29 |
| LatexBlocks.NoformatLowers | utils/latex_transform.py:31 | replacing the matched block by a key lowers the number of `{`, so the loop ends |
| LatexBlocks.ListingLowers | utils/latex_transform.py:71 | the same for a listing match |
| LatexRounds.RoundsOnce | utils/latex_transform.py:24-37 | a round that finds a block records it first and continues from the rewritten string with the next number |
| LatexRounds.RoundsDone | utils/latex_transform.py:25-27 | after the last round the search finds nothing |
| LatexRounds.RoundsAt | utils/latex_transform.py:25-31 | the k-th recorded block is what round k cuts out, with key number index + k |
| LatexSteps.NoformatStep | utils/latex_transform.py:25-31 | a round happens exactly when the search finds a match; with a brace-free key it lowers the `{` count |
| LatexSteps.ListingStep | utils/latex_transform.py:65-71 | the same for the listing loop |
| LatexTransform.NoformatStepCuts | utils/latex_transform.py:28-31 | a round cuts out the matched text and replaces every copy of it in the string by the key |
| LatexTransform.NoformatLoopDone | utils/latex_transform.py:24-27 | the loop's final string holds no complete `{noformat}` block |
| LatexTransform.EscapeNoformat | utils/latex_transform.py:6-38 | the final string and the blocks are those of the loop's definition; keys are numbered 1, 2, … in list order and are distinct; each block is `{noformat}`-delimited verbatim or its `spverbatim` rewriting, around a body with no `{noformat}` |
| LatexTransform.NoformatBlocksForm | utils/latex_transform.py:29-37 | any list with the loop's keys and contents has that form, and its keys are distinct |
| LatexTransform.ListingStepCuts | utils/latex_transform.py:68-71 | a listing round cuts out the matched text and replaces every copy by the key |
| LatexTransform.ListingLoopDone | utils/latex_transform.py:64-67 | the final string holds no complete listing |
| LatexTransform.EscapeListings | utils/latex_transform.py:41-93 | the same for listings: numbered keys `<<!PDFGENCODE{i}!>>`; each content is the matched block, or its rewriting by lines 79-86 as written, cut into 400-character lines when long; each is a `{code:LANG}` or `{code}` block or its `lstlisting` form, except a rewritten plain block whose body holds `{code:` |
| LatexTransform.ListingBlocksForm | utils/latex_transform.py:69-92 | any list with the loop's keys and contents has that form, with the same exception, and its keys are distinct |
| ReportGenerator.SplitAndStrip | report_generator.py:24 | one piece per part of the split, each stripped |
| ReportGenerator.TenBeforeNine | report_generator.py:41 | as strings, `"10"` sorts before `"9"` |
| ReportGenerator.SortCorrect | report_generator.py:41 | the sort yields an ordered list holding the same strings, duplicates included |
| ReportGenerator.SortedUnique | report_generator.py:41 | two sorted lists with the same elements are equal, so the sort's result is determined |
| ReportGenerator.Range | report_generator.py:39-40 | `range(first, stop)` as strings: `stop - first` entries, the k-th equal to `str(first + k)` |
| ReportGenerator.DecimalEntry | report_generator.py:25-26 | a decimal entry gives itself, verbatim |
| ReportGenerator.RangeEntry | report_generator.py:33-40 | a range `a-b` with a ≤ b gives `str(a)`, …, `str(b)`, that is b − a + 1 issues; with b < a it is rejected |
| ReportGenerator.MalformedEntry | report_generator.py:28-31 | an entry that is neither decimal nor two decimal parts around `-` is rejected |
| ReportGenerator.CollectedCases | report_generator.py:23-40 | the list is rejected exactly when some entry is; otherwise it has one issue per decimal entry plus b − a + 1 per range |
| ReportGenerator.CollectedMembers | report_generator.py:23-40 | an issue is in the result exactly when some entry names it |
| ReportGenerator.DefinedIssuesSorted | report_generator.py:41-42 | on success the result is sorted as strings and holds every collected issue, duplicates kept |
| ReportGenerator.EmptyArgument | report_generator.py:24-31 | an empty argument is rejected |
| ReportGenerator.AppendRange | report_generator.py:39-40 | the inner loop appends `str(first)` … `str(last)` |
| ReportGenerator.DefineIssues | report_generator.py:22-42 | the nested loops with their early returns compute the definition's result, sorted on success |
| JiraParser.LinkOf | jira_parser/__init__.py:306 | the key comes from `inwardIssue` when present, otherwise from `outwardIssue`; with neither the lookup fails |
| JiraParser.LinksOf | jira_parser/__init__.py:302-309 | the links keep length and order, and the list fails exactly when some link names no issue |
| JiraParser.DescriptionOf | jira_parser/__init__.py:290-291 | a missing description becomes `""`; a present one is copied |
| JiraParser.PrepareJsonObject | jira_parser/__init__.py:269-339 | the record exists exactly when every link names an issue, and its links are those of the raw list |
| JiraParser.PreparedCopies | jira_parser/__init__.py:273-289 | the issue key, project key and name, dates, status and summary are copied |
| JiraParser.PreparedAuthor | jira_parser/__init__.py:282-283 | no creator gives no author; otherwise the creator's name |
| JiraParser.PreparedDescription | jira_parser/__init__.py:290-291 | the description defaults to `""` |
| JiraParser.PreparedLists | jira_parser/__init__.py:294-329 | attachments, links, remote links and comments keep the length and order of the raw lists, entry by entry |
| JiraParser.PreparedNoGithub | jira_parser/__init__.py:332 | with no GitHub fetcher, pull requests and commits are empty |
| ParserJiraParser.LinkOf | parser/jiraparser.py:154-160 | the key comes from `outwardIssue` when present, otherwise from `inwardIssue`; with neither there is no key |
| ParserJiraParser.Prepared | parser/jiraparser.py:126-181 | the key, project and description are copied as they are, and every list keeps its length |
| ParserJiraParser.PrepareJsonObject | parser/jiraparser.py:126-181 | the four append loops build the record the definition describes |
| ParserJiraParser.PreparedLists | parser/jiraparser.py:143-179 | each list keeps the order of the raw list, entry by entry |
| ParserJiraParser.PreparedScalars | parser/jiraparser.py:128-140 | no creator gives no author, otherwise its name; dates, status and summary are copied |
| ParserJiraParser.LinkVersions | parser/jiraparser.py:155-160 | the two versions agree on a link naming one issue; on a link naming both, this one takes the outward key and the newer one the inward key |
| ParserJiraParser.Versions | parser/jiraparser.py:126-181 | wherever the newer version builds a record, both agree on everything but the description default and the link keys |
| ParserJiraParser.VersionsDisagree | parser/jiraparser.py:155-160 | a concrete link with both keys where the two versions pick different keys |

## Left out

- `extract_urls` reading files from a directory and writing one `.txt` per file (utils/ref_regex.py:27-36, 46-52): file I/O. Only the computation on one file's text is modelled.
- `save_as_json`, `load_json`, `create_dir_if_necessary`, `parse_arguments` in `utils/__init__.py`, and the command line of `report_generator.py`: I/O and argument parsing.
- `escape_with_listings` (utils/latex_transform.py:96-110): it calls PyLaTeX's `escape_latex`, which is not part of this model.
- The GitHub branch of `jira_parser/__init__.py` (lines 333-337): it calls a network client. The model is the code path with no fetcher, so pull requests and commits are empty.
- Network clients, pagination, PDF rendering (`fetch_*`, `github_fetcher`, `genreport`, `jiraanalyzer`, `analyzer.py`): outside the modelled core.
- `utils.split_and_strip` is not defined in any file shown. It is modelled as `split` on the separator followed by `strip` of each piece (ReportGenerator.SplitAndStrip).
- `str.isdecimal`, `\d` and `str.strip` are modelled on ASCII digits and ASCII whitespace only. Other Unicode digits and spaces are not modelled.
- The `(?s)` flag written in the middle of a pattern is read as the whole-pattern DOTALL flag older Pythons applied; Python 3.11 and later reject such a pattern.
- The project code given to `extract_issues` is restricted to letters and digits. The source inserts it into the regex unescaped, and regex-special characters in it are not modelled (RefRegex.ExtractIssues requires this).
- Utils.ConstructSvnRevisionUrl: returns `None` where the source raises `IndexError` on a revision without digits.
- JiraParser.LinkOf: the `KeyError` of a link without `inwardIssue` and `outwardIssue` is modelled as `None`, and it makes the whole record `None`. Other missing keys of the raw JSON cannot occur, since the raw records are typed.
- The falsy description: the model's `Option<string>` has `None` and `""`, both of which the newer version maps to `""`. The older version copies either one unchanged.
- The `Set` annotation in `utils/__init__.py` is not imported in the source, and would fail at import time. The filters are modelled on `set<string>`.
- test.py prints its results and checks nothing. Its inputs are stated as lemmas in RegexExamples. For `extract_issues` and `extract_revisions`, only the match at the positions named is stated, not the whole `findall` list of the longer test strings.
- The `__prepare_json_object` of `jiraanalyzer/jiraparser.py`: it fetches comments over the network.
- ReportGenerator.DefineIssues: the messages "Invalid issues list format" and "The range should be from smaller to bigger" printed before the two `return None` (report_generator.py:30, 36) are output only, and are not modelled; both paths give `None`.
- LatexTransform.EscapeListings: the `lstlisting` form of a kept content is promised only when the block's `{code:`, if any, is its opener (LatexBlocks.LanguageFromOpener). A plain block whose body holds `{code:` is kept as lines 79-86 rewrite it, which is not of that form (see Findings); the content itself is still stated exactly.
- LatexTransform.ListingBlocksForm: the same exception as EscapeListings.

## Findings

| source | as written | input that shows it | evidently intended | confidence | as-written member | corrected member |
|---|---|---|---|---|---|---|
| utils/latex_transform.py:79-86 | the language is searched with `re.search(r"{code:((?s).*?)}", content)` anywhere in the matched block, so a plain `{code}` block whose body contains `{code:` gets a language opener in the middle, and its own `{code}` opener becomes the closing `\end{lstlisting}\ ` | `{code}x{code:y}z{code}` gives `\end{lstlisting}\ x\begin{lstlisting}[language=y]z{code}` | the comments at lines 73-77: a block opened by `{code}` becomes `\begin{lstlisting}x{code:y}z\end{lstlisting}\ `; the comment at lines 58-62 reads instead as taking `{code:y}z{code}` out first, leaving `{code}x` as text | not executed | LatexBlocks.FindingAsWritten | LatexBlocks.FindingCorrected |

The as-written rewriting is `LatexBlocks.ListingToLatexAsWritten`, and
`LatexTransform.EscapeListings` keeps what it gives, as the source does. The
corrected `LatexBlocks.ListingToLatex` takes the language only from a
`{code:` opener. `LatexBlocks.ListingToLatexAgrees` and
`LatexBlocks.PlainBlockOpener` show that the two differ only on a plain
block whose body holds `{code:`.

The comment at lines 58-62 allows a second reading of the intent: blocks
with a language are to be taken out before plain ones. On that reading the
loop would cut `{code:y}z{code}` as a listing of its own and leave
`{code}x` before it as text. Neither reading lets a `{code}` opener become
`\end{lstlisting}\ `, which is what the code as written does.

/**
 * `report_generator.py`, `define_issues`: the `--issues` argument, such as
 * `"124,136-152,174"`, becomes the sorted list of issue numbers it names, or
 * `None` when an entry is malformed or a range runs backwards.
 */
module ReportGenerator {
  import opened Wrappers
  import opened Text

  // ---------------------------------------------------------------------
  // split_and_strip and string order
  // ---------------------------------------------------------------------

  /** `utils.split_and_strip(s, sep)`: the pieces of `s.split(sep)`, each stripped. */
  function SplitAndStrip(s: string, sep: char): (parts: seq<string>)
    ensures |parts| == |Split(s, sep)|
    ensures forall k :: 0 <= k < |parts| ==> parts[k] == Strip(Split(s, sep)[k])
  {
    var pieces := Split(s, sep);
    seq(|pieces|, k requires 0 <= k < |pieces| => Strip(pieces[k]))
  }

  /** Python's `<=` on strings: code point by code point, a prefix first. */
  predicate LexLe(a: string, b: string)
    decreases |a|
  {
    a == [] || (b != [] && (a[0] < b[0] || (a[0] == b[0] && LexLe(a[1..], b[1..]))))
  }

  lemma {:induction false} LexTotal(a: string, b: string)
    ensures LexLe(a, b) || LexLe(b, a)
    decreases |a|
  {
    if a != [] && b != [] && a[0] == b[0] {
      LexTotal(a[1..], b[1..]);
    }
  }

  lemma {:induction false} LexTrans(a: string, b: string, c: string)
    requires LexLe(a, b) && LexLe(b, c)
    ensures LexLe(a, c)
    decreases |a|
  {
    if a != [] && a[0] == b[0] && b[0] == c[0] {
      LexTrans(a[1..], b[1..], c[1..]);
    }
  }

  lemma {:induction false} LexAntisymmetric(a: string, b: string)
    requires LexLe(a, b) && LexLe(b, a)
    ensures a == b
    decreases |a|
  {
    if a != [] {
      LexAntisymmetric(a[1..], b[1..]);
      assert a == [a[0]] + a[1..] && b == [b[0]] + b[1..];
    }
  }

  /** Issue numbers are compared as strings: `"10"` comes before `"9"`. */
  lemma TenBeforeNine()
    ensures LexLe("10", "9") && !LexLe("9", "10")
  {
  }

  predicate Sorted(s: seq<string>) {
    forall i, j :: 0 <= i < j < |s| ==> LexLe(s[i], s[j])
  }

  // ---------------------------------------------------------------------
  // list.sort()
  // ---------------------------------------------------------------------

  function Insert(x: string, s: seq<string>): (r: seq<string>)
    decreases |s|
  {
    if s == [] then [x]
    else if LexLe(x, s[0]) then [x] + s
    else [s[0]] + Insert(x, s[1..])
  }

  /** `issues.sort()`, as an insertion sort on values. */
  function Sort(s: seq<string>): (r: seq<string>)
    decreases |s|
  {
    if s == [] then [] else Insert(s[0], Sort(s[1..]))
  }

  lemma {:induction false} InsertKeeps(x: string, s: seq<string>)
    ensures multiset(Insert(x, s)) == multiset(s) + multiset{x}
    decreases |s|
  {
    if s != [] && !LexLe(x, s[0]) {
      InsertKeeps(x, s[1..]);
      assert s == [s[0]] + s[1..];
    }
  }

  lemma {:induction false} InsertSorted(x: string, s: seq<string>)
    requires Sorted(s)
    ensures Sorted(Insert(x, s))
    decreases |s|
  {
    if s == [] {
    } else if LexLe(x, s[0]) {
      forall j | 0 < j < |s| + 1
        ensures LexLe(x, ([x] + s)[j])
      {
        if j > 1 {
          LexTrans(x, s[0], s[j - 1]);
        }
      }
    } else {
      InsertSorted(x, s[1..]);
      InsertKeeps(x, s[1..]);
      LexTotal(x, s[0]);
      var r := Insert(x, s[1..]);
      forall j | 0 <= j < |r|
        ensures LexLe(s[0], r[j])
      {
        assert r[j] in multiset(r);
        assert r[j] in multiset(s[1..]) + multiset{x};
        if r[j] != x {
          assert r[j] in s[1..];
        }
      }
    }
  }

  /** The sorted list is ordered and holds exactly the same strings, duplicates included. */
  lemma {:induction false} SortCorrect(s: seq<string>)
    ensures Sorted(Sort(s))
    ensures multiset(Sort(s)) == multiset(s)
    decreases |s|
  {
    if s != [] {
      SortCorrect(s[1..]);
      InsertSorted(s[0], Sort(s[1..]));
      InsertKeeps(s[0], Sort(s[1..]));
      assert s == [s[0]] + s[1..];
    }
  }

  lemma {:induction false} LexRefl(a: string)
    ensures LexLe(a, a)
    decreases |a|
  {
    if a != [] {
      LexRefl(a[1..]);
    }
  }

  /** Only one ordering of a list is sorted, so any sort gives the result `Sort` gives. */
  lemma {:induction false} SortedUnique(a: seq<string>, b: seq<string>)
    requires Sorted(a) && Sorted(b) && multiset(a) == multiset(b)
    ensures a == b
    decreases |a|
  {
    if a == [] {
      assert |b| == |multiset(b)| == 0;
    } else {
      SortedHeads(a, b);
      MultisetTail(a);
      MultisetTail(b);
      assert Sorted(a[1..]) && Sorted(b[1..]);
      SortedUnique(a[1..], b[1..]);
      assert a == [a[0]] + a[1..] && b == [b[0]] + b[1..];
    }
  }

  lemma SortedHeads(a: seq<string>, b: seq<string>)
    requires Sorted(a) && Sorted(b) && multiset(a) == multiset(b) && a != []
    ensures b != [] && a[0] == b[0]
  {
    assert a[0] in multiset(b);
    SortedHeadLeast(b, a[0]);
    SortedHeadLeast(a, b[0]);
    LexAntisymmetric(a[0], b[0]);
  }

  lemma MultisetTail(a: seq<string>)
    requires a != []
    ensures multiset(a[1..]) == multiset(a) - multiset{a[0]}
  {
    assert a == [a[0]] + a[1..];
  }

  /** The head of a sorted list precedes every member. */
  lemma SortedHeadLeast(a: seq<string>, x: string)
    requires Sorted(a) && x in multiset(a)
    ensures a != [] && LexLe(a[0], x)
  {
    var j :| 0 <= j < |a| && a[j] == x;
    if j == 0 {
      LexRefl(x);
    }
  }

  // ---------------------------------------------------------------------
  // Entries
  // ---------------------------------------------------------------------

  /** `[str(i) for i in range(first, stop)]`. */
  function Range(first: nat, stop: nat): (r: seq<string>)
    ensures |r| == if first <= stop then stop - first else 0
    ensures forall k :: 0 <= k < |r| ==> r[k] == DecimalString(first + k)
  {
    if first <= stop then seq(stop - first, k requires 0 <= k < stop - first => DecimalString(first + k))
    else []
  }

  /**
   * Lines 25-40 for one entry: a decimal entry is kept as it is; otherwise
   * it must be two decimal parts around `-`, the first no larger than the
   * second, and gives every number in between.
   */
  function EntryIssues(entry: string): Option<seq<string>>
  {
    if IsDecimal(entry) then Some([entry])
    else
      var range := SplitAndStrip(entry, '-');
      if |range| != 2 || !IsDecimal(range[0]) || !IsDecimal(range[1]) then None
      else if ParseDecimal(range[1]) < ParseDecimal(range[0]) then None
      else Some(Range(ParseDecimal(range[0]), ParseDecimal(range[1]) + 1))
  }

  /** The issues of all entries, in order, or `None` once an entry is rejected. */
  function Collected(entries: seq<string>): Option<seq<string>>
    decreases |entries|
  {
    if entries == [] then Some([])
    else
      match Collected(entries[..|entries| - 1])
      case None => None
      case Some(xs) =>
        match EntryIssues(entries[|entries| - 1])
        case None => None
        case Some(ys) => Some(xs + ys)
  }

  /** What `define_issues(arg)` returns. */
  function DefinedIssues(arg: string): Option<seq<string>>
  {
    match Collected(SplitAndStrip(arg, ','))
    case None => None
    case Some(xs) => Some(Sort(xs))
  }

  // ---------------------------------------------------------------------
  // What the entries give
  // ---------------------------------------------------------------------

  /** A decimal entry is one issue, kept verbatim (lines 25-26). */
  lemma DecimalEntry(entry: string)
    requires IsDecimal(entry)
    ensures EntryIssues(entry) == Some([entry])
  {
  }

  /**
   * A range `a-b` gives `str(a), ..., str(b)`, so `a-a` gives one issue
   * (lines 33-40), and a backwards range is rejected (lines 35-37).
   */
  lemma RangeEntry(entry: string)
    requires !IsDecimal(entry)
    requires var range := SplitAndStrip(entry, '-'); |range| == 2 && IsDecimal(range[0]) && IsDecimal(range[1])
    ensures var range := SplitAndStrip(entry, '-');
            var a, b := ParseDecimal(range[0]), ParseDecimal(range[1]);
            (a <= b ==> EntryIssues(entry) == Some(Range(a, b + 1)) && |Range(a, b + 1)| == b - a + 1) &&
            (b < a ==> EntryIssues(entry) == None)
  {
  }

  /** An entry that is not decimal and not two decimal parts is rejected (lines 28-31). */
  lemma MalformedEntry(entry: string)
    requires !IsDecimal(entry)
    requires var range := SplitAndStrip(entry, '-'); |range| != 2 || !IsDecimal(range[0]) || !IsDecimal(range[1])
    ensures EntryIssues(entry) == None
  {
  }

  /** How many issues an entry names, counted from the entry itself. */
  function EntryCount(entry: string): nat
  {
    if IsDecimal(entry) then 1
    else
      var range := SplitAndStrip(entry, '-');
      if |range| == 2 && IsDecimal(range[0]) && IsDecimal(range[1]) &&
         ParseDecimal(range[0]) <= ParseDecimal(range[1])
      then ParseDecimal(range[1]) - ParseDecimal(range[0]) + 1
      else 0
  }

  function TotalCount(entries: seq<string>): nat
    decreases |entries|
  {
    if entries == [] then 0
    else TotalCount(entries[..|entries| - 1]) + EntryCount(entries[|entries| - 1])
  }

  /**
   * The list is rejected exactly when some entry is, and otherwise holds one
   * issue per decimal entry plus `b - a + 1` per range `a-b`.
   */
  lemma {:induction false} CollectedCases(entries: seq<string>)
    ensures Collected(entries).None? <==> exists k :: 0 <= k < |entries| && EntryIssues(entries[k]).None?
    ensures Collected(entries).Some? ==> |Collected(entries).value| == TotalCount(entries)
    decreases |entries|
  {
    if entries != [] {
      var init := entries[..|entries| - 1];
      CollectedCases(init);
      if Collected(init).None? {
        var k :| 0 <= k < |init| && EntryIssues(init[k]).None?;
        assert entries[k] == init[k];
      } else if EntryIssues(entries[|entries| - 1]).Some? {
        forall k | 0 <= k < |entries|
          ensures EntryIssues(entries[k]).Some?
        {
          if k < |init| {
            assert entries[k] == init[k];
          }
        }
      }
    }
  }

  /** `x` is one of the issues `entry` names. */
  predicate NamedBy(x: string, entry: string) {
    EntryIssues(entry).Some? && x in EntryIssues(entry).value
  }

  /** Each issue of the result comes from some entry, and every issue of every entry is there. */
  lemma {:induction false} CollectedMembers(entries: seq<string>, x: string)
    requires Collected(entries).Some?
    ensures x in Collected(entries).value <==> exists k :: 0 <= k < |entries| && NamedBy(x, entries[k])
    decreases |entries|
  {
    if entries != [] {
      var init := entries[..|entries| - 1];
      var last := entries[|entries| - 1];
      CollectedMembers(init, x);
      assert Collected(entries).value == Collected(init).value + EntryIssues(last).value;
      if x in Collected(init).value {
        var k :| 0 <= k < |init| && NamedBy(x, init[k]);
        assert entries[k] == init[k];
      }
      if k :| 0 <= k < |entries| && NamedBy(x, entries[k]) {
        if k < |init| {
          assert init[k] == entries[k];
        }
      }
    }
  }

  /** On success the result is sorted as strings and holds every collected issue, duplicates kept. */
  lemma DefinedIssuesSorted(arg: string)
    ensures DefinedIssues(arg).None? <==> Collected(SplitAndStrip(arg, ',')).None?
    ensures DefinedIssues(arg).Some? ==>
              Sorted(DefinedIssues(arg).value) &&
              multiset(DefinedIssues(arg).value) == multiset(Collected(SplitAndStrip(arg, ',')).value)
  {
    if Collected(SplitAndStrip(arg, ',')).Some? {
      SortCorrect(Collected(SplitAndStrip(arg, ',')).value);
    }
  }

  /** An empty argument is one empty entry, which is malformed. */
  lemma EmptyArgument()
    ensures DefinedIssues("") == None
  {
    assert Split("", ',') == [[]];
    assert SplitAndStrip("", ',') == [[]];
    assert Split("", '-') == [[]];
    assert Collected([[]]) == EntryIssues([]);
  }

  // ---------------------------------------------------------------------
  // define_issues
  // ---------------------------------------------------------------------

  /** Lines 39-40: appends `str(first) ... str(last)` to `issues`. */
  method AppendRange(issues: seq<string>, first: nat, last: nat) returns (r: seq<string>)
    requires first <= last
    ensures r == issues + Range(first, last + 1)
  {
    r := issues;
    for issue := first to last + 1
      invariant r == issues + Range(first, issue)
    {
      r := r + [DecimalString(issue)];
    }
  }

  /** `define_issues`: the nested loops of lines 23-40, then the sort of line 41. */
  method DefineIssues(issuesArg: string) returns (r: Option<seq<string>>)
    ensures r == DefinedIssues(issuesArg)
    ensures r.Some? ==> Sorted(r.value)
  {
    var entries := SplitAndStrip(issuesArg, ',');
    var issues: seq<string> := [];
    for i := 0 to |entries|
      invariant Collected(entries[..i]) == Some(issues)
    {
      var entry := entries[i];
      if IsDecimal(entry) {
        CollectedNext(entries, i, issues, [entry]);
        issues := issues + [entry];
      } else {
        var range := SplitAndStrip(entry, '-');
        if |range| != 2 || !IsDecimal(range[0]) || !IsDecimal(range[1]) {
          CollectedFails(entries, i);
          return None;
        }
        var first := ParseDecimal(range[0]);
        var last := ParseDecimal(range[1]);
        if last < first {
          CollectedFails(entries, i);
          return None;
        }
        CollectedNext(entries, i, issues, Range(first, last + 1));
        issues := AppendRange(issues, first, last);
      }
    }
    assert entries[..|entries|] == entries;
    SortCorrect(issues);
    r := Some(Sort(issues));
  }

  lemma CollectedNext(entries: seq<string>, i: nat, xs: seq<string>, ys: seq<string>)
    requires i < |entries| && Collected(entries[..i]) == Some(xs) && EntryIssues(entries[i]) == Some(ys)
    ensures Collected(entries[..i + 1]) == Some(xs + ys)
  {
    assert entries[..i + 1][..i] == entries[..i];
  }

  lemma CollectedFails(entries: seq<string>, i: nat)
    requires i < |entries| && EntryIssues(entries[i]) == None
    ensures Collected(entries) == None
  {
    assert entries[..i + 1][..i] == entries[..i];
    CollectedStopsAt(entries, i + 1);
  }

  /** Once a prefix of the entries is rejected, so is the whole list. */
  lemma {:induction false} CollectedStopsAt(entries: seq<string>, i: nat)
    requires i <= |entries| && Collected(entries[..i]).None?
    ensures Collected(entries).None?
    decreases |entries| - i
  {
    if i < |entries| {
      assert entries[..i + 1][..i] == entries[..i];
      CollectedStopsAt(entries, i + 1);
    } else {
      assert entries[..i] == entries;
    }
  }
}

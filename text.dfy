/**
 * Models of the Python `str` operations the core is built from:
 * `find`, `in`, `replace` (all and first), `endswith`, `split`, `strip`,
 * `isdecimal`, `str(int)` and `int(str)`.
 * Strings are `seq<char>`; only ASCII is given a meaning for digits and
 * whitespace.
 */
module Text {

  // ---------------------------------------------------------------------
  // Characters
  // ---------------------------------------------------------------------

  predicate IsDigit(c: char) {
    '0' <= c <= '9'
  }

  predicate AllDigits(s: string) {
    forall i :: 0 <= i < |s| ==> IsDigit(s[i])
  }

  /** `str.isdecimal()`: non-empty, every character a decimal digit. */
  predicate IsDecimal(s: string) {
    |s| > 0 && AllDigits(s)
  }

  /** The characters `str.strip()` removes (the ASCII ones). */
  predicate IsWhitespace(c: char) {
    c == ' ' || ('\t' <= c <= '\r') || (28 <= c as int <= 31)
  }

  /** The digits of `s`, in order. */
  function DigitsOf(s: string): (r: string)
    ensures AllDigits(r) && |r| <= |s|
  {
    if s == [] then []
    else if IsDigit(s[0]) then [s[0]] + DigitsOf(s[1..])
    else DigitsOf(s[1..])
  }

  lemma {:induction false} DigitsOfConcat(a: string, b: string)
    ensures DigitsOf(a + b) == DigitsOf(a) + DigitsOf(b)
  {
    if a == [] {
      assert a + b == b;
    } else {
      assert (a + b)[0] == a[0] && (a + b)[1..] == a[1..] + b;
      DigitsOfConcat(a[1..], b);
    }
  }

  lemma {:induction false} DigitsOfAllDigits(s: string)
    requires AllDigits(s)
    ensures DigitsOf(s) == s
  {
    if s != [] {
      DigitsOfAllDigits(s[1..]);
    }
  }

  // ---------------------------------------------------------------------
  // Substrings
  // ---------------------------------------------------------------------

  /** `p` occurs in `s` starting at index `k`. */
  predicate OccursAt(p: string, s: string, k: nat) {
    k + |p| <= |s| && s[k..k + |p|] == p
  }

  /** Python's `p in s`. */
  predicate Occurs(p: string, s: string) {
    exists k: nat :: k <= |s| && OccursAt(p, s, k)
  }

  /** `s.startswith(p)`. */
  predicate StartsWith(s: string, p: string) {
    OccursAt(p, s, 0)
  }

  /** `s.endswith(p)`. */
  predicate EndsWith(s: string, p: string) {
    |p| <= |s| && s[|s| - |p|..] == p
  }

  /**
   * `s.find(p, from)`: the first index at or after `from` where `p` occurs,
   * or -1.
   */
  function FindFrom(s: string, p: string, from: nat): (r: int)
    ensures r == -1 || (from <= r && OccursAt(p, s, r))
    ensures r == -1 ==> forall k: nat :: from <= k ==> !OccursAt(p, s, k)
    ensures r >= 0 ==> forall k: nat :: from <= k < r ==> !OccursAt(p, s, k)
    decreases |s| - from
  {
    if from + |p| > |s| then -1
    else if s[from..from + |p|] == p then from
    else FindFrom(s, p, from + 1)
  }

  /** `s.find(p)`. */
  function Find(s: string, p: string): (r: int)
    ensures r == -1 <==> !Occurs(p, s)
    ensures r >= 0 ==> OccursAt(p, s, r) && forall k: nat :: k < r ==> !OccursAt(p, s, k)
  {
    FindFrom(s, p, 0)
  }

  /** A found occurrence lies inside the text. */
  lemma FindBound(s: string, p: string)
    requires Find(s, p) >= 0
    ensures Find(s, p) + |p| <= |s|
  {
    assert OccursAt(p, s, Find(s, p));
  }

  lemma OccursAtConcat(p: string, x: string, y: string, k: nat)
    requires OccursAt(p, x + y, k)
    ensures || OccursAt(p, x, k)
            || (k >= |x| && OccursAt(p, y, k - |x|))
            || (k < |x| < k + |p| && x[|x| - 1] in p[..|p| - 1] && y[0] in p[1..])
  {
    if k + |p| <= |x| {
      assert (x + y)[k..k + |p|] == x[k..k + |p|];
    } else if k >= |x| {
      assert (x + y)[k..k + |p|] == y[k - |x|..k - |x| + |p|];
    } else {
      Straddle(p, x, y, k);
    }
  }

  /** The first character of a string that starts with `q` is a character of `q`. */
  lemma HeadInPrefix(q: string, t: string)
    ensures q != [] && OccursAt(q, t, 0) ==> t[0] in q
  {
    if q != [] && OccursAt(q, t, 0) {
      assert t[..|q|][0] == t[0];
    }
  }

  lemma OccursAtLeft(p: string, x: string, y: string, k: nat)
    requires OccursAt(p, x, k)
    ensures OccursAt(p, x + y, k)
  {
    assert (x + y)[k..k + |p|] == x[k..k + |p|];
  }

  lemma OccursAtRight(p: string, x: string, y: string, k: nat)
    requires OccursAt(p, y, k)
    ensures OccursAt(p, x + y, |x| + k)
  {
    assert (x + y)[|x| + k..|x| + k + |p|] == y[k..k + |p|];
  }

  lemma OccursInSlice(p: string, s: string, i: nat, j: nat, k: nat)
    requires i <= j <= |s| && OccursAt(p, s[i..j], k)
    ensures OccursAt(p, s, i + k)
  {
    var a, b := s[i..j][k..k + |p|], s[i + k..i + k + |p|];
    forall t | 0 <= t < |p| ensures a[t] == b[t] { }
    assert a == b;
  }

  lemma NoOccursInSlice(p: string, s: string, i: nat, j: nat)
    requires i <= j <= |s| && !Occurs(p, s)
    ensures !Occurs(p, s[i..j])
  {
    if k: nat :| OccursAt(p, s[i..j], k) {
      OccursInSlice(p, s, i, j, k);
    }
  }

  /** What an occurrence straddling the seam of `x + y` forces on its characters. */
  lemma Straddle(p: string, x: string, y: string, k: nat)
    requires OccursAt(p, x + y, k) && k < |x| < k + |p|
    ensures x[|x| - 1] in p[..|p| - 1] && y[0] in p[1..]
  {
    assert p[|x| - 1 - k] == (x + y)[k..k + |p|][|x| - 1 - k] == x[|x| - 1];
    assert p[..|p| - 1][|x| - 1 - k] == x[|x| - 1];
    assert p[|x| - k] == (x + y)[k..k + |p|][|x| - k] == y[0];
    assert p[1..][|x| - k - 1] == y[0];
  }

  lemma NoOccursInSuffix(p: string, s: string, i: nat)
    requires i <= |s| && !Occurs(p, s)
    ensures !Occurs(p, s[i..])
  {
    NoOccursInSlice(p, s, i, |s|);
    assert s[i..|s|] == s[i..];
  }

  /**
   * No occurrence of `p` can straddle `x + y` when the last character of `x`
   * is not among the first |p| - 1 characters of `p`.
   */
  lemma NoOccursConcatRight(p: string, x: string, y: string)
    requires |p| > 0 && |x| > 0 && x[|x| - 1] !in p[..|p| - 1]
    requires !Occurs(p, x) && !Occurs(p, y)
    ensures !Occurs(p, x + y)
  {
    if k: nat :| OccursAt(p, x + y, k) {
      OccursAtConcat(p, x, y, k);
    }
  }

  /**
   * No occurrence of `p` can straddle `x + y` when the first character of `y`
   * is not among the last |p| - 1 characters of `p`.
   */
  lemma NoOccursConcatLeft(p: string, x: string, y: string)
    requires |p| > 0 && |y| > 0 && y[0] !in p[1..]
    requires !Occurs(p, x) && !Occurs(p, y)
    ensures !Occurs(p, x + y)
  {
    if k: nat :| OccursAt(p, x + y, k) {
      OccursAtConcat(p, x, y, k);
    }
  }

  /** The first occurrence in `u + v` lies in `v` when `u` holds none and none straddles. */
  lemma {:induction false} FindConcat(u: string, v: string, p: string)
    requires |p| > 0 && !Occurs(p, u)
    requires u == [] || u[|u| - 1] !in p[..|p| - 1]
    ensures Find(u + v, p) == if Find(v, p) < 0 then -1 else |u| + Find(v, p)
  {
    forall k: nat | OccursAt(p, u + v, k)
      ensures k >= |u| && OccursAt(p, v, k - |u|)
    {
      OccursAtConcat(p, u, v, k);
    }
    var f := Find(v, p);
    if f >= 0 {
      OccursAtRight(p, u, v, f);
    }
  }

  /** The characters under an occurrence are those of `p`. */
  lemma CharOfOccurrence(p: string, s: string, k: nat, i: nat)
    ensures OccursAt(p, s, k) && k <= i < k + |p| ==> s[i] == p[i - k]
  {
    if OccursAt(p, s, k) && k <= i < k + |p| {
      assert s[k..k + |p|][i - k] == s[i];
    }
  }

  /** A string lacking one of the characters of `p` holds no `p`. */
  lemma AbsentChar(p: string, s: string, c: char)
    requires c in p && c !in s
    ensures !Occurs(p, s)
  {
  }

  /** Nothing before the first occurrence is an occurrence. */
  lemma FindPrefixClear(s: string, p: string)
    requires |p| > 0 && Find(s, p) >= 0
    ensures !Occurs(p, s[..Find(s, p)])
  {
    var i := Find(s, p);
    if k: nat :| OccursAt(p, s[..i], k) {
      OccursInSlice(p, s, 0, i, k);
    }
  }

  // ---------------------------------------------------------------------
  // str.replace
  // ---------------------------------------------------------------------

  /** `s.replace(p, n)`: every non-overlapping occurrence, left to right. */
  function ReplaceAll(s: string, p: string, n: string): string
    requires |p| > 0
    decreases |s|
  {
    if |s| < |p| then s
    else if s[..|p|] == p then n + ReplaceAll(s[|p|..], p, n)
    else [s[0]] + ReplaceAll(s[1..], p, n)
  }

  /** `s.replace(p, n, 1)`: the first occurrence only. */
  function ReplaceFirst(s: string, p: string, n: string): string {
    var i := Find(s, p);
    if i < 0 then s else s[..i] + n + s[i + |p|..]
  }

  lemma {:induction false} ReplaceAllNoOccurrence(s: string, p: string, n: string)
    requires |p| > 0 && !Occurs(p, s)
    ensures ReplaceAll(s, p, n) == s
    decreases |s|
  {
    if |s| >= |p| {
      assert !OccursAt(p, s, 0);
      NoOccursInSlice(p, s, 1, |s|);
      assert s[1..|s|] == s[1..];
      ReplaceAllNoOccurrence(s[1..], p, n);
    }
  }

  lemma {:induction false} ReplaceAllShorter(s: string, p: string, n: string)
    requires 0 < |p| && |n| <= |p|
    ensures |ReplaceAll(s, p, n)| <= |s|
    decreases |s|
  {
    if |s| >= |p| {
      if s[..|p|] == p {
        ReplaceAllShorter(s[|p|..], p, n);
      } else {
        ReplaceAllShorter(s[1..], p, n);
      }
    }
  }

  /**
   * If the output of `ReplaceAll` starts with `q`, and `q` does not contain
   * the first character of the replacement, the input started with `q`.
   */
  lemma {:induction false} ReplaceAllPrefix(s: string, p: string, n: string, q: string)
    requires |p| > 0 && |n| > 0 && n[0] !in q
    requires OccursAt(q, ReplaceAll(s, p, n), 0)
    ensures OccursAt(q, s, 0)
    decreases |s|
  {
    HeadInPrefix(q, ReplaceAll(s, p, n));
    if q != [] && |s| >= |p| && s[..|p|] != p {
      var r := ReplaceAll(s[1..], p, n);
      assert ReplaceAll(s, p, n) == [s[0]] + r;
      assert ([s[0]] + r)[..|q|] == [s[0]] + r[..|q| - 1];
      assert q[0] == s[0];
      assert r[..|q| - 1] == q[1..];
      ReplaceAllPrefix(s[1..], p, n, q[1..]);
      assert s[..|q|] == [s[0]] + s[1..][..|q| - 1];
    }
  }

  /**
   * `ReplaceAll(s, p, n)` leaves no `p` behind, provided the replacement
   * neither contains `p` nor can form one with its neighbours.
   */
  lemma {:induction false} ReplaceAllRemoves(s: string, p: string, n: string)
    requires |p| > 0 && |n| > 0 && !Occurs(p, n)
    requires n[0] !in p[1..] && n[|n| - 1] !in p[..|p| - 1]
    ensures !Occurs(p, ReplaceAll(s, p, n))
    decreases |s|
  {
    if |s| >= |p| {
      if s[..|p|] == p {
        ReplaceAllRemoves(s[|p|..], p, n);
        NoOccursConcatRight(p, n, ReplaceAll(s[|p|..], p, n));
      } else {
        var r := ReplaceAll(s[1..], p, n);
        ReplaceAllRemoves(s[1..], p, n);
        if k: nat :| OccursAt(p, [s[0]] + r, k) {
          OccursAtConcat(p, [s[0]], r, k);
          assert k == 0;
          assert ([s[0]] + r)[..|p|] == [s[0]] + r[..|p| - 1];
          assert OccursAt(p[1..], r, 0);
          ReplaceAllPrefix(s[1..], p, n, p[1..]);
        }
      }
    }
  }

  /**
   * `ReplaceAll(s, p, n)` creates no `q` that `s` did not have, provided `n`
   * neither contains `q` nor can form one with its neighbours.
   */
  lemma {:induction false} ReplaceAllKeepsAbsent(s: string, p: string, n: string, q: string)
    requires |p| > 0 && |n| > 0 && |q| > 0
    requires !Occurs(q, s) && !Occurs(q, n)
    requires n[0] !in q[1..] && n[|n| - 1] !in q[..|q| - 1]
    ensures !Occurs(q, ReplaceAll(s, p, n))
    decreases |s|
  {
    if |s| >= |p| {
      if s[..|p|] == p {
        NoOccursInSuffix(q, s, |p|);
        ReplaceAllKeepsAbsent(s[|p|..], p, n, q);
        NoOccursConcatRight(q, n, ReplaceAll(s[|p|..], p, n));
      } else {
        var r := ReplaceAll(s[1..], p, n);
        NoOccursInSuffix(q, s, 1);
        ReplaceAllKeepsAbsent(s[1..], p, n, q);
        if k: nat :| OccursAt(q, [s[0]] + r, k) {
          OccursAtConcat(q, [s[0]], r, k);
          assert k == 0;
          assert ([s[0]] + r)[..|q|] == [s[0]] + r[..|q| - 1];
          assert OccursAt(q[1..], r, 0);
          ReplaceAllPrefix(s[1..], p, n, q[1..]);
          assert s[..|q|] == [s[0]] + s[1..][..|q| - 1];
          assert OccursAt(q, s, 0);
        }
      }
    }
  }

  /** Replacing one occurrence keeps `q` absent under the same side conditions. */
  lemma ReplaceFirstKeepsAbsent(s: string, p: string, n: string, q: string)
    requires |n| > 0 && |q| > 0
    requires !Occurs(q, s) && !Occurs(q, n)
    requires n[0] !in q[1..] && n[|n| - 1] !in q[..|q| - 1]
    ensures !Occurs(q, ReplaceFirst(s, p, n))
  {
    var i := Find(s, p);
    if i >= 0 {
      var x, y := s[..i], s[i + |p|..];
      NoOccursInSlice(q, s, 0, i);
      NoOccursInSuffix(q, s, i + |p|);
      if y == [] {
        assert n + y == n;
      } else {
        NoOccursConcatRight(q, n, y);
      }
      NoOccursConcatLeft(q, x, n + y);
      assert x + n + y == x + (n + y);
    }
  }

  /**
   * When `p` starts with a character found nowhere else in it, replacing the
   * first `p` of `x + p + y`, where `x` holds no `p`, rewrites exactly that one.
   */
  lemma ReplaceFirstAt(x: string, p: string, y: string, n: string)
    requires |p| > 0 && p[0] !in p[1..] && !Occurs(p, x)
    ensures ReplaceFirst(x + p + y, p, n) == x + n + y
  {
    var s := x + p + y;
    assert s == x + (p + y);
    forall k: nat | k < |x|
      ensures !OccursAt(p, s, k)
    {
      if OccursAt(p, s, k) {
        OccursAtConcat(p, x, p + y, k);
      }
    }
    assert OccursAt(p, s, |x|) by {
      assert s[|x|..|x| + |p|] == p;
    }
    assert Find(s, p) == |x|;
    assert s[..|x|] == x;
    assert s[|x| + |p|..] == y;
  }

  /**
   * Replacing the first `p` of `p + body + p` by `a`, then the first `p` of
   * the result by `b`, rewrites the two ends of the block.
   */
  lemma ReplaceFirstTwice(p: string, body: string, a: string, b: string)
    requires |p| > 0 && p[0] !in p[1..] && !Occurs(p, body)
    requires |a| > 0 && !Occurs(p, a) && a[|a| - 1] !in p[..|p| - 1]
    ensures ReplaceFirst(ReplaceFirst(p + body + p, p, a), p, b) == a + body + b
  {
    ReplaceFirstOpen(p, body, a);
    NoOccursConcatRight(p, a, body);
    ReplaceFirstClose(a + body, p, b);
  }

  lemma ReplaceFirstOpen(p: string, body: string, a: string)
    ensures ReplaceFirst(p + body + p, p, a) == (a + body) + p
  {
    assert p + body + p == p + (body + p);
    ReplaceFirstPrefix(p, body + p, a);
    assert a + (body + p) == (a + body) + p;
  }

  lemma ReplaceFirstClose(x: string, p: string, b: string)
    requires |p| > 0 && p[0] !in p[1..] && !Occurs(p, x)
    ensures ReplaceFirst(x + p, p, b) == x + b
  {
    assert x + p + [] == x + p;
    ReplaceFirstAt(x, p, [], b);
    assert x + b + [] == x + b;
  }

  /** `replace(p, n, 1)` at the index `find` reports. */
  lemma ReplaceFirstFound(s: string, p: string, n: string, i: int)
    requires i == Find(s, p)
    ensures i < 0 ==> ReplaceFirst(s, p, n) == s
    ensures i >= 0 ==> i + |p| <= |s| && ReplaceFirst(s, p, n) == s[..i] + n + s[i + |p|..]
  {
  }

  /** Replacing a leading occurrence. */
  lemma ReplaceFirstPrefix(p: string, y: string, n: string)
    ensures ReplaceFirst(p + y, p, n) == n + y
  {
    assert (p + y)[0..|p|] == p;
    assert OccursAt(p, p + y, 0);
    ReplaceFirstFound(p + y, p, n, Find(p + y, p));
    assert (p + y)[|p|..] == y;
  }

  lemma SlicesOfConcat(u: string, v: string, i: nat, j: nat)
    requires i <= j <= |v|
    ensures (u + v)[..|u| + i] == u + v[..i] && (u + v)[|u| + j..] == v[j..]
  {
  }

  /** Replacing the first `p` of `u + v` leaves `u` alone when it holds none and none straddles. */
  lemma ReplaceFirstConcat(u: string, v: string, p: string, n: string)
    requires |p| > 0 && !Occurs(p, u)
    requires u == [] || u[|u| - 1] !in p[..|p| - 1]
    ensures ReplaceFirst(u + v, p, n) == u + ReplaceFirst(v, p, n)
  {
    FindConcat(u, v, p);
    var i := Find(v, p);
    if i < 0 {
      ReplaceFirstFound(v, p, n, i);
      ReplaceFirstFound(u + v, p, n, -1);
    } else {
      ReplaceFirstShift(u, v, p, n, i);
    }
  }

  lemma ReplaceFirstShift(u: string, v: string, p: string, n: string, i: nat)
    requires i == Find(v, p) && Find(u + v, p) == |u| + i
    ensures ReplaceFirst(u + v, p, n) == u + ReplaceFirst(v, p, n)
  {
    ReplaceFirstFound(v, p, n, i);
    ReplaceFirstFound(u + v, p, n, |u| + i);
    SlicesOfConcat(u, v, i, i + |p|);
    var a, b := v[..i], v[i + |p|..];
    assert (u + a) + n + b == u + (a + n + b);
  }

  /** Characters `c` can only disappear when the replacement has fewer of them. */
  lemma {:induction false} ReplaceAllCount(s: string, p: string, n: string, c: char)
    requires |p| > 0 && multiset(n)[c] <= multiset(p)[c]
    ensures multiset(ReplaceAll(s, p, n))[c] <= multiset(s)[c]
    ensures Occurs(p, s) && multiset(n)[c] < multiset(p)[c] ==>
              multiset(ReplaceAll(s, p, n))[c] < multiset(s)[c]
    decreases |s|
  {
    if |s| >= |p| {
      if s[..|p|] == p {
        ReplaceAllCount(s[|p|..], p, n, c);
        CountReplacedHead(s, p, n, c);
      } else {
        ReplaceAllCount(s[1..], p, n, c);
        CountKeptHead(s, p, n, c);
        OccursInTail(p, s);
      }
    }
  }

  /** An occurrence at the front: `p`'s characters give way to `n`'s. */
  lemma CountReplacedHead(s: string, p: string, n: string, c: char)
    requires |s| >= |p| > 0 && s[..|p|] == p
    ensures multiset(s)[c] == multiset(p)[c] + multiset(s[|p|..])[c]
    ensures multiset(ReplaceAll(s, p, n))[c] == multiset(n)[c] + multiset(ReplaceAll(s[|p|..], p, n))[c]
  {
    assert s == p + s[|p|..];
  }

  /** No occurrence at the front: the first character stays. */
  lemma CountKeptHead(s: string, p: string, n: string, c: char)
    requires |s| >= |p| > 0 && s[..|p|] != p
    ensures multiset(s)[c] == multiset([s[0]])[c] + multiset(s[1..])[c]
    ensures multiset(ReplaceAll(s, p, n))[c] == multiset([s[0]])[c] + multiset(ReplaceAll(s[1..], p, n))[c]
  {
    assert s == [s[0]] + s[1..];
  }

  /** An occurrence in a string that does not start with `p` is an occurrence in its tail. */
  lemma OccursInTail(p: string, s: string)
    requires |s| >= |p| > 0 && s[..|p|] != p
    ensures Occurs(p, s) ==> Occurs(p, s[1..])
  {
    if Occurs(p, s) {
      var k: nat :| k <= |s| && OccursAt(p, s, k);
      assert k != 0;
      assert s[1..][k - 1..k - 1 + |p|] == s[k..k + |p|];
      assert OccursAt(p, s[1..], k - 1);
    }
  }

  lemma ReplaceFirstCount(s: string, p: string, n: string, c: char)
    requires Occurs(p, s)
    ensures multiset(ReplaceFirst(s, p, n))[c] + multiset(p)[c] == multiset(s)[c] + multiset(n)[c]
  {
    var i := Find(s, p);
    assert OccursAt(p, s, i);
    var a, b := s[..i], s[i + |p|..];
    assert s == a + p + b;
    assert ReplaceFirst(s, p, n) == a + n + b;
    assert multiset(s) == multiset(a) + multiset(p) + multiset(b);
    assert multiset(a + n + b) == multiset(a) + multiset(n) + multiset(b);
  }

  // ---------------------------------------------------------------------
  // str.split and str.strip
  // ---------------------------------------------------------------------

  /** `"".join(parts)`. */
  function Concat(parts: seq<string>): string {
    if parts == [] then [] else parts[0] + Concat(parts[1..])
  }

  lemma ConcatCons(a: string, rest: seq<string>)
    ensures Concat([a] + rest) == a + Concat(rest)
  {
    assert ([a] + rest)[1..] == rest;
  }

  /** `sep.join(parts)` for a one-character separator. */
  function Join(parts: seq<string>, sep: char): string {
    if parts == [] then []
    else if |parts| == 1 then parts[0]
    else parts[0] + [sep] + Join(parts[1..], sep)
  }

  /** `s.split(sep)`: the pieces between separators, always at least one. */
  function Split(s: string, sep: char): (parts: seq<string>)
    ensures |parts| > 0
    ensures forall k :: 0 <= k < |parts| ==> sep !in parts[k]
    ensures Join(parts, sep) == s
    decreases |s|
  {
    if s == [] then [[]]
    else
      var rest := Split(s[1..], sep);
      if s[0] == sep then [[]] + rest
      else
        assert Join(rest, sep) == s[1..];
        assert |rest| > 1 ==>
                 Join([[s[0]] + rest[0]] + rest[1..], sep) == [s[0]] + (rest[0] + [sep] + Join(rest[1..], sep));
        [[s[0]] + rest[0]] + rest[1..]
  }

  function StripLeft(s: string): (r: string)
    ensures r == [] || !IsWhitespace(r[0])
    ensures |r| <= |s| && r == s[|s| - |r|..]
    decreases |s|
  {
    if s != [] && IsWhitespace(s[0]) then StripLeft(s[1..]) else s
  }

  function StripRight(s: string): (r: string)
    ensures r == [] || !IsWhitespace(r[|r| - 1])
    ensures |r| <= |s| && r == s[..|r|]
    decreases |s|
  {
    if s != [] && IsWhitespace(s[|s| - 1]) then StripRight(s[..|s| - 1]) else s
  }

  /** `s.strip()`: drops leading and trailing whitespace. */
  function Strip(s: string): (r: string)
    ensures r == [] || (!IsWhitespace(r[0]) && !IsWhitespace(r[|r| - 1]))
  {
    var l := StripLeft(s);
    var r := StripRight(l);
    assert r != [] ==> r[0] == l[0];
    r
  }

  // ---------------------------------------------------------------------
  // str(int) and int(str)
  // ---------------------------------------------------------------------

  function DigitChar(d: nat): (c: char)
    requires d < 10
    ensures IsDigit(c)
  {
    (48 + d) as char
  }

  function DigitValue(c: char): (d: nat)
    requires IsDigit(c)
    ensures d < 10
  {
    c as int - 48
  }

  /** `str(n)` for a non-negative integer: decimal, no leading zero. */
  function DecimalString(n: nat): (r: string)
    ensures IsDecimal(r)
    decreases n
  {
    if n < 10 then [DigitChar(n)] else DecimalString(n / 10) + [DigitChar(n % 10)]
  }

  /** `int(s)` for a string of decimal digits. */
  function ParseDecimal(s: string): nat
    requires AllDigits(s)
  {
    if s == [] then 0 else 10 * ParseDecimal(s[..|s| - 1]) + DigitValue(s[|s| - 1])
  }

  /** `int(str(n)) == n`. */
  lemma {:induction false} ParseDecimalString(n: nat)
    ensures ParseDecimal(DecimalString(n)) == n
    decreases n
  {
    if n >= 10 {
      var d := DecimalString(n / 10);
      assert (d + [DigitChar(n % 10)])[..|d|] == d;
      ParseDecimalString(n / 10);
    }
  }

  /** `str` is injective, so keys built from distinct indices are distinct. */
  lemma DecimalStringInjective(a: nat, b: nat)
    requires DecimalString(a) == DecimalString(b)
    ensures a == b
  {
    ParseDecimalString(a);
    ParseDecimalString(b);
  }

  /** `str(n)` has no leading zero unless `n` is 0. */
  lemma {:induction false} DecimalStringNoLeadingZero(n: nat)
    ensures DecimalString(n)[0] == '0' <==> n == 0
    decreases n
  {
    if n >= 10 {
      DecimalStringNoLeadingZero(n / 10);
    }
  }
}

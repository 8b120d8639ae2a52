/** Python string primitives the note tools rely on: `str.strip`, `str.find`,
    `str.replace`, `str.split`, `str.splitlines`, ASCII case mapping and the
    ordering of `str` values. Each one follows CPython's documented behaviour
    for the inputs the tools give it. */
module Text {

  /** `str.isspace()`; the `\s` class of a `str` regular expression is the same set. */
  predicate IsSpace(c: char) {
    || c == ' '
    || ('\t' <= c <= '\r')
    || ('\U{1C}' <= c <= '\U{1F}')
    || c == '\U{85}' || c == '\U{A0}' || c == '\U{1680}'
    || ('\U{2000}' <= c <= '\U{200A}')
    || c == '\U{2028}' || c == '\U{2029}' || c == '\U{202F}' || c == '\U{205F}' || c == '\U{3000}'
  }

  /** The line boundaries of `str.splitlines()`. */
  predicate IsLineBreak(c: char) {
    || c == '\n' || c == '\r' || c == '\U{0B}' || c == '\U{0C}'
    || ('\U{1C}' <= c <= '\U{1E}')
    || c == '\U{85}' || c == '\U{2028}' || c == '\U{2029}'
  }

  predicate AllSpace(s: string) {
    forall i :: 0 <= i < |s| ==> IsSpace(s[i])
  }

  predicate IsStripped(s: string) {
    s == [] || (!IsSpace(s[0]) && !IsSpace(s[|s| - 1]))
  }

  /** The number of whitespace characters `s.lstrip()` removes. */
  function LeadingSpaces(s: string): (n: nat)
    ensures n <= |s|
    ensures AllSpace(s[..n])
    ensures n < |s| ==> !IsSpace(s[n])
  {
    if s != [] && IsSpace(s[0]) then
      var n := LeadingSpaces(s[1..]);
      SpacePrefixGrows(s, n);
      n + 1
    else 0
  }

  lemma SpacePrefixGrows(s: string, n: nat)
    requires s != [] && IsSpace(s[0]) && n < |s| && AllSpace(s[1..][..n])
    ensures AllSpace(s[..n + 1])
  {
    var t, u := s[..n + 1], s[1..][..n];
    forall i | 0 <= i < |t| ensures IsSpace(t[i]) {
      if i > 0 {
        assert t[i] == u[i - 1];
      }
    }
  }

  /** The number of whitespace characters `s.rstrip()` removes. */
  function TrailingSpaces(s: string): (n: nat)
    ensures n <= |s|
    ensures AllSpace(s[|s| - n..])
    ensures n < |s| ==> !IsSpace(s[|s| - n - 1])
  {
    if s != [] && IsSpace(s[|s| - 1]) then
      var n := TrailingSpaces(s[..|s| - 1]);
      SpaceSuffixGrows(s, n);
      n + 1
    else 0
  }

  lemma SpaceSuffixGrows(s: string, n: nat)
    requires s != [] && IsSpace(s[|s| - 1]) && n < |s| && AllSpace(s[..|s| - 1][|s| - 1 - n..])
    ensures AllSpace(s[|s| - n - 1..])
  {
    var t, u := s[|s| - n - 1..], s[..|s| - 1][|s| - 1 - n..];
    forall i | 0 <= i < |t| ensures IsSpace(t[i]) {
      if i < n {
        assert t[i] == u[i];
      }
    }
  }

  /** The leading whitespace run is the longest all-space prefix. */
  lemma {:induction false} LeadingSpacesIs(s: string, n: nat)
    requires n <= |s| && AllSpace(s[..n])
    requires n < |s| ==> !IsSpace(s[n])
    ensures LeadingSpaces(s) == n
    decreases n
  {
    if n > 0 {
      assert IsSpace(s[..n][0]);
      assert s[1..][..n - 1] == s[..n][1..];
      LeadingSpacesIs(s[1..], n - 1);
    }
  }

  /** The trailing whitespace run is the longest all-space suffix. */
  lemma {:induction false} TrailingSpacesIs(s: string, n: nat)
    requires n <= |s| && AllSpace(s[|s| - n..])
    requires n < |s| ==> !IsSpace(s[|s| - n - 1])
    ensures TrailingSpaces(s) == n
    decreases n
  {
    if n > 0 {
      assert IsSpace(s[|s| - n..][n - 1]);
      assert s[..|s| - 1][|s| - 1 - (n - 1)..] == s[|s| - n..][..n - 1];
      TrailingSpacesIs(s[..|s| - 1], n - 1);
    }
  }

  /** `s.lstrip()` */
  function LStrip(s: string): (r: string)
  {
    s[LeadingSpaces(s)..]
  }

  /** `s.rstrip()` */
  function RStrip(s: string): (r: string)
  {
    s[..|s| - TrailingSpaces(s)]
  }

  /** `s.strip()` */
  function Strip(s: string): (r: string)
    ensures IsStripped(r)
    ensures |r| <= |s|
  {
    RStrip(LStrip(s))
  }

  lemma StripOfStripped(s: string)
    requires IsStripped(s)
    ensures Strip(s) == s
  {
    if s != [] {
      LeadingSpacesIs(s, 0);
      TrailingSpacesIs(s, 0);
    }
  }

  lemma StripIdempotent(s: string)
    ensures Strip(Strip(s)) == Strip(s)
  {
    StripOfStripped(Strip(s));
  }

  /** Strip ignores whitespace added on either side. */
  lemma StripPadded(a: string, s: string, b: string)
    requires AllSpace(a) && AllSpace(b)
    ensures Strip(a + s + b) == Strip(s)
  {
    assert a + s + b == a + (s + b);
    LStripSpacePrefix(a, s + b);
    var l := LStrip(s);
    LStripAppend(s, b);
    if LStrip(s + b) == l + b {
      RStripSpaceSuffix(l, b);
    }
  }

  lemma LStripSpacePrefix(a: string, s: string)
    requires AllSpace(a)
    ensures LStrip(a + s) == LStrip(s)
  {
    var n := LeadingSpaces(s);
    assert (a + s)[..|a| + n] == a + s[..n];
    LeadingSpacesIs(a + s, |a| + n);
    assert (a + s)[|a| + n..] == s[n..];
  }

  lemma LStripAppend(s: string, b: string)
    requires AllSpace(b)
    ensures LStrip(s + b) == LStrip(s) + b || (LStrip(s) == [] && LStrip(s + b) == [])
  {
    var n := LeadingSpaces(s);
    if n < |s| {
      assert (s + b)[..n] == s[..n];
      LeadingSpacesIs(s + b, n);
      assert (s + b)[n..] == s[n..] + b;
    } else {
      assert (s + b)[..|s + b|] == s[..n] + b;
      LeadingSpacesIs(s + b, |s + b|);
    }
  }

  lemma RStripSpaceSuffix(l: string, b: string)
    requires AllSpace(b)
    ensures RStrip(l + b) == RStrip(l)
  {
    var n := TrailingSpaces(l);
    var lb := l + b;
    var k := |l| - n;
    assert lb[k..] == l[k..] + b;
    AllSpaceJoin(l[k..], b);
    if k > 0 {
      assert lb[k - 1] == l[k - 1];
    }
    TrailingSpacesIs(lb, n + |b|);
    assert lb[..k] == l[..k];
  }

  lemma AllSpaceJoin(a: string, b: string)
    requires AllSpace(a) && AllSpace(b)
    ensures AllSpace(a + b)
  {
    var ab := a + b;
    forall i | 0 <= i < |ab| ensures IsSpace(ab[i]) {
      if i < |a| {
        assert ab[i] == a[i];
      } else {
        assert ab[i] == b[i - |a|];
      }
    }
  }

  predicate StartsWith(s: string, p: string) {
    |p| <= |s| && s[..|p|] == p
  }

  predicate EndsWith(s: string, p: string) {
    |p| <= |s| && s[|s| - |p|..] == p
  }

  /** `p` occurs in `s` at index `i`. */
  predicate OccursAt(s: string, p: string, i: int) {
    0 <= i && i + |p| <= |s| && s[i..i + |p|] == p
  }

  /** A text differing from `p` at a position both reach does not start with `p`. */
  lemma MismatchAt(s: string, p: string, i: nat)
    requires i < |p| && i < |s| && s[i] != p[i]
    ensures !StartsWith(s, p)
  {
    if |p| <= |s| {
      assert s[..|p|][i] == s[i];
    }
  }

  lemma StartsWithHead(s: string, p: string)
    requires p != [] && StartsWith(s, p)
    ensures s[0] == p[0]
  {
    assert s[..|p|][0] == s[0];
  }

  /** `s.find(p, start)`: the first index at or after `start` where `p` occurs, or -1. */
  function Find(s: string, p: string, start: nat): (r: int)
    ensures r == -1 || (start <= r && OccursAt(s, p, r))
    ensures forall k :: start <= k && (r == -1 || k < r) ==> !OccursAt(s, p, k)
    decreases |s| - start
  {
    if start + |p| > |s| then -1
    else if s[start..start + |p|] == p then start
    else Find(s, p, start + 1)
  }

  /** An occurrence at `k` bounds the search from any `from <= k`. */
  lemma FindBefore(s: string, p: string, from: nat, k: nat)
    requires from <= k && OccursAt(s, p, k)
    ensures Find(s, p, from) != -1 && Find(s, p, from) <= k
  {
  }

  /** `p in s` for strings. */
  predicate Contains(s: string, p: string) {
    Find(s, p, 0) != -1
  }

  /** An occurrence in a prefix is an occurrence in the whole. */
  lemma OccursInPrefix(s: string, n: nat, p: string, i: int)
    requires n <= |s| && OccursAt(s[..n], p, i)
    ensures OccursAt(s, p, i)
  {
    assert s[..n][i..i + |p|] == s[i..i + |p|];
  }

  lemma ContainsAt(s: string, p: string, i: int)
    requires OccursAt(s, p, i)
    ensures Contains(s, p)
  {
  }

  lemma NotContainsFirstChar(s: string, p: string)
    requires p != [] && p[0] !in s
    ensures !Contains(s, p)
  {
  }

  /** `s.replace(p, r)` for a non-empty `p`: every non-overlapping occurrence, scanned
      from the left, is replaced. */
  function ReplaceAll(s: string, p: string, r: string): string
    requires p != []
    decreases |s|
  {
    var i := Find(s, p, 0);
    if i == -1 then s
    else s[..i] + r + ReplaceAll(s[i + |p|..], p, r)
  }

  /** Every character of the result comes from the text or the replacement. */
  lemma {:induction false} ReplaceAllChars(s: string, p: string, r: string)
    requires p != []
    ensures forall c :: c in ReplaceAll(s, p, r) ==> c in s || c in r
    decreases |s|
  {
    var i := Find(s, p, 0);
    if i != -1 {
      ReplaceAllChars(s[i + |p|..], p, r);
      ReplaceAllAt(s, p, r, i);
      assert forall c :: c in s[..i] || c in s[i + |p|..] ==> c in s;
    }
  }

  /** Replacing a single character by a text without it removes it. */
  lemma {:induction false} ReplaceAllRemoves(s: string, c: char, r: string)
    requires c !in r
    ensures c !in ReplaceAll(s, [c], r)
    decreases |s|
  {
    var i := Find(s, [c], 0);
    forall k | 0 <= k < (if i == -1 then |s| else i) ensures s[k] != c {
      OneCharOccurs(s, [c], k);
    }
    if i != -1 {
      ReplaceAllRemoves(s[i + 1..], c, r);
      ReplaceAllAt(s, [c], r, i);
      assert c !in s[..i];
    } else {
      assert c !in s;
    }
  }

  lemma OneCharOccurs(s: string, p: string, k: int)
    requires |p| == 1 && 0 <= k < |s|
    ensures OccursAt(s, p, k) <==> s[k] == p[0]
  {
    if s[k] == p[0] {
      assert s[k..k + 1] == [s[k]];
    }
  }

  /** Replacing in a text whose first occurrence of `p` is right after `a`. */
  lemma ReplaceAllAfterPrefix(a: string, p: string, b: string, r: string)
    requires p != [] && !Contains(a + p[..|p| - 1], p)
    ensures ReplaceAll(a + p + b, p, r) == a + r + ReplaceAll(b, p, r)
  {
    var s := a + p + b;
    assert OccursAt(s, p, |a|);
    var i := Find(s, p, 0);
    if i < |a| {
      assert s[..|a| + |p| - 1] == a + p[..|p| - 1];
      assert (a + p[..|p| - 1])[i..i + |p|] == s[..|a| + |p| - 1][i..i + |p|];
      ContainsAt(a + p[..|p| - 1], p, i);
    }
    assert s[..|a|] == a && s[|a| + |p|..] == b;
  }

  /** Occurrences in `s` are occurrences in `a + s`, shifted by `|a|`. */
  lemma OccursShift(a: string, s: string, p: string, k: nat)
    ensures OccursAt(a + s, p, |a| + k) <==> OccursAt(s, p, k)
  {
    var t := a + s;
    if k + |p| <= |s| {
      var u := t[|a| + k..|a| + k + |p|];
      var v := s[k..k + |p|];
      forall j | 0 <= j < |p| ensures u[j] == v[j] {
        assert u[j] == t[|a| + k + j];
      }
      assert u == v;
    }
  }

  /** Searching `a + s` from `|a|` is searching `s`. */
  lemma FindAfter(a: string, s: string, p: string)
    ensures Find(a + s, p, |a|) == if Find(s, p, 0) == -1 then -1 else |a| + Find(s, p, 0)
  {
    FindShift(a, s, p, 0);
  }

  lemma {:induction false} FindShift(a: string, s: string, p: string, k: nat)
    ensures Find(a + s, p, |a| + k) == if Find(s, p, k) == -1 then -1 else |a| + Find(s, p, k)
    decreases |s| - k
  {
    if k + |p| <= |s| {
      OccursShift(a, s, p, k);
      if !OccursAt(s, p, k) {
        FindShift(a, s, p, k + 1);
      }
    }
  }

  /** No occurrence of `p` starts inside `m` when `m` does not contain `p` and its
      last character is not in `p`. */
  lemma NoOccurrenceStartingIn(m: string, b: string, p: string, k: int)
    requires m != [] && !Contains(m, p) && m[|m| - 1] !in p && 0 <= k < |m|
    ensures !OccursAt(m + b, p, k)
  {
    var t := m + b;
    if k + |p| <= |m| {
      assert m[k..k + |p|] == t[k..k + |p|];
      assert !OccursAt(m, p, k);
    } else if k + |p| <= |t| {
      assert t[k..k + |p|][|m| - 1 - k] == m[|m| - 1];
    }
  }

  /** A text without `p`, between two characters that are not in `p`, still does
      not contain `p`. */
  lemma PaddedNotContains(c: char, x: string, p: string)
    requires p != [] && c !in p && !Contains(x, p)
    ensures !Contains([c] + x + [c], p)
  {
    var t := [c] + x + [c];
    forall k | 0 <= k ensures !OccursAt(t, p, k) {
      if k + |p| <= |t| {
        var w := t[k..k + |p|];
        if k == 0 {
          assert w[0] == c;
        } else if k + |p| <= |t| - 1 {
          forall j | 0 <= j < |p| ensures w[j] == x[k - 1..k - 1 + |p|][j] {
            assert t[k + j] == x[k - 1 + j];
          }
          assert !OccursAt(x, p, k - 1);
        } else {
          assert w[|p| - 1] == c;
        }
      }
    }
  }

  /** Without an occurrence starting in `[lo, hi)`, searching from `lo` is searching
      from `hi`. */
  lemma {:induction false} FindSkip(s: string, p: string, lo: nat, hi: nat)
    requires lo <= hi && forall k :: lo <= k < hi ==> !OccursAt(s, p, k)
    ensures Find(s, p, lo) == Find(s, p, hi)
    decreases hi - lo
  {
    if lo < hi {
      FindSkip(s, p, lo + 1, hi);
    }
  }

  /** Replacing a character that the prefix `a` does not hold leaves `a` alone. */
  lemma ReplaceAllFreePrefix(a: string, b: string, c: char, r: string)
    requires c !in a
    ensures ReplaceAll(a + b, [c], r) == a + ReplaceAll(b, [c], r)
  {
    var f := Find(b, [c], 0);
    if f != -1 {
      FindFreePrefix(a, b, c);
      ReplaceAllFoundAfter(a, b, c, r, f);
    } else {
      FindFreePrefix(a, b, c);
      NoOccurrence(a + b, [c], r);
      NoOccurrence(b, [c], r);
    }
  }

  /** Each `c` of `s` replaced by `r`, character by character. */
  function SubstChar(s: string, c: char, r: string): string
    decreases |s|
  {
    if s == [] then [] else (if s[0] == c then r else [s[0]]) + SubstChar(s[1..], c, r)
  }

  lemma {:induction false} SubstCharAppend(a: string, b: string, c: char, r: string)
    ensures SubstChar(a + b, c, r) == SubstChar(a, c, r) + SubstChar(b, c, r)
    decreases |a|
  {
    if a != [] {
      assert (a + b)[1..] == a[1..] + b;
      SubstCharAppend(a[1..], b, c, r);
    } else {
      assert a + b == b;
    }
  }

  /** Replacing a one-character pattern is substituting that character. */
  lemma {:induction false} ReplaceAllIsSubst(s: string, c: char, r: string)
    ensures ReplaceAll(s, [c], r) == SubstChar(s, c, r)
    decreases |s|
  {
    if s == [] {
      NoOccurrence(s, [c], r);
    } else {
      ReplaceAllIsSubst(s[1..], c, r);
      if s[0] == c {
        assert OccursAt(s, [c], 0);
        ReplaceAllAt(s, [c], r, 0);
      } else {
        assert s == [s[0]] + s[1..];
        ReplaceAllFreePrefix([s[0]], s[1..], c, r);
      }
    }
  }

  lemma ReplaceAllFoundAfter(a: string, b: string, c: char, r: string, f: nat)
    requires Find(b, [c], 0) == f && Find(a + b, [c], 0) == |a| + f
    ensures ReplaceAll(a + b, [c], r) == a + ReplaceAll(b, [c], r)
  {
    var x, post := b[..f], b[f + 1..];
    ReplaceAllAtChar(b, c, r, f);
    assert b == x + [c] + post;
    PrefixRegroup(a, x, [c], post);
    ReplaceAllSplit(a + b, c, r, a + x, post);
    ReplaceAllSplit(b, c, r, x, post);
    ConcatAssoc(a, x, r, ReplaceAll(post, [c], r));
  }

  lemma PrefixRegroup<T>(a: seq<T>, x: seq<T>, m: seq<T>, post: seq<T>)
    ensures a + (x + m + post) == (a + x) + m + post
  {
  }

  /** `ReplaceAllAt` for a one-character pattern. */
  lemma ReplaceAllAtChar(s: string, c: char, r: string, i: nat)
    requires Find(s, [c], 0) == i
    ensures i < |s| && s[i] == c
    ensures ReplaceAll(s, [c], r) == s[..i] + r + ReplaceAll(s[i + 1..], [c], r)
  {
    ReplaceAllAt(s, [c], r, i);
    assert |[c]| == 1;
    assert s[i..i + 1][0] == s[i];
  }

  /** The first `c` of `pre + [c] + post` is replaced and the search goes on in `post`. */
  lemma ReplaceAllSplit(s: string, c: char, r: string, pre: string, post: string)
    requires s == pre + [c] + post && Find(s, [c], 0) == |pre|
    ensures ReplaceAll(s, [c], r) == pre + r + ReplaceAll(post, [c], r)
  {
    ReplaceAllAtChar(s, c, r, |pre|);
    assert s[..|pre|] == pre && s[|pre| + 1..] == post;
  }

  lemma ConcatAssoc(a: string, x: string, r: string, t: string)
    ensures (a + x) + r + t == a + (x + r + t)
  {
  }

  lemma FindFreePrefix(a: string, b: string, c: char)
    requires c !in a
    ensures Find(a + b, [c], 0) == if Find(b, [c], 0) == -1 then -1 else |a| + Find(b, [c], 0)
  {
    var s := a + b;
    forall k | 0 <= k < |a| ensures !OccursAt(s, [c], k) {
      OneCharOccurs(s, [c], k);
    }
    FindSkip(s, [c], 0, |a|);
    FindAfter(a, b, [c]);
  }

  lemma ReplaceAllAt(s: string, p: string, r: string, i: nat)
    requires p != [] && Find(s, p, 0) == i
    ensures ReplaceAll(s, p, r) == s[..i] + r + ReplaceAll(s[i + |p|..], p, r)
  {
  }

  lemma NoOccurrence(s: string, p: string, r: string)
    requires p != [] && Find(s, p, 0) == -1
    ensures ReplaceAll(s, p, r) == s
  {
  }

  lemma SplitAround(a: string, b: string, f: nat)
    requires f < |b|
    ensures (a + b)[..|a| + f] == a + b[..f] && (a + b)[|a| + f + 1..] == b[f + 1..]
  {
  }

  /** The first index of `c` in `s`, or `|s|` when it does not occur. */
  function IndexOf(s: string, c: char): (r: nat)
    ensures r <= |s|
    ensures r < |s| ==> s[r] == c
    ensures c !in s[..r]
  {
    if s == [] then 0
    else if s[0] == c then 0
    else 1 + IndexOf(s[1..], c)
  }

  /** `IndexOf` is the index of the first `c`. */
  lemma {:induction false} IndexOfAt(s: string, c: char, i: nat)
    requires i <= |s| && c !in s[..i] && (i == |s| || s[i] == c)
    ensures IndexOf(s, c) == i
  {
    if s != [] && i > 0 {
      assert s[0] == s[..i][0];
      assert s[1..][..i - 1] == s[..i][1..];
      IndexOfAt(s[1..], c, i - 1);
    }
  }

  /** `s.split(c)[0]`: everything before the first `c`. */
  function BeforeFirst(s: string, c: char): (r: string)
    ensures StartsWith(s, r) && c !in r
    ensures |r| < |s| ==> s[|r|] == c
  {
    s[..IndexOf(s, c)]
  }

  /** `s.split(c)` for a one-character separator. */
  function Split(s: string, c: char): (parts: seq<string>)
    ensures |parts| >= 1
    ensures forall i :: 0 <= i < |parts| ==> c !in parts[i]
    ensures parts[0] == BeforeFirst(s, c)
    decreases |s|
  {
    var i := IndexOf(s, c);
    if i == |s| then [s] else [s[..i]] + Split(s[i + 1..], c)
  }

  /** `sep.join(parts)` */
  function Join(parts: seq<string>, sep: string): string {
    if parts == [] then []
    else if |parts| == 1 then parts[0]
    else parts[0] + sep + Join(parts[1..], sep)
  }

  /** Splitting and re-joining on the same separator gives back the text. */
  lemma {:induction false} JoinSplit(s: string, c: char)
    ensures Join(Split(s, c), [c]) == s
    decreases |s|
  {
    var i := IndexOf(s, c);
    if i < |s| {
      var rest := Split(s[i + 1..], c);
      assert Split(s, c) == [s[..i]] + rest;
      JoinSplit(s[i + 1..], c);
      assert Join([s[..i]] + rest, [c]) == s[..i] + [c] + Join(rest, [c]);
      assert s == s[..i] + [c] + s[i + 1..];
    } else {
      assert Split(s, c) == [s];
    }
  }

  function LowerChar(c: char): char {
    if 'A' <= c <= 'Z' then (c as int + 32) as char else c
  }

  function UpperChar(c: char): char {
    if 'a' <= c <= 'z' then (c as int - 32) as char else c
  }

  /** `s.lower()`, on ASCII letters. */
  function Lower(s: string): (r: string)
    ensures |r| == |s| && forall i :: 0 <= i < |s| ==> r[i] == LowerChar(s[i])
  {
    seq(|s|, i requires 0 <= i < |s| => LowerChar(s[i]))
  }

  /** `s.upper()`, on ASCII letters. */
  function Upper(s: string): (r: string)
    ensures |r| == |s| && forall i :: 0 <= i < |s| ==> r[i] == UpperChar(s[i])
  {
    seq(|s|, i requires 0 <= i < |s| => UpperChar(s[i]))
  }

  /** Case-insensitive equality as `re.IGNORECASE` applies it (ASCII letters). */
  predicate EqualsIgnoreCase(a: string, b: string) {
    Lower(a) == Lower(b)
  }

  /** The index of the first line boundary in `s`, or `|s|`. */
  function LineEnd(s: string): (r: nat)
    ensures r <= |s|
    ensures r < |s| ==> IsLineBreak(s[r])
    ensures forall k :: 0 <= k < r ==> !IsLineBreak(s[k])
  {
    if s == [] then 0
    else if IsLineBreak(s[0]) then 0
    else 1 + LineEnd(s[1..])
  }

  predicate NoLineBreak(s: string) {
    forall k :: 0 <= k < |s| ==> !IsLineBreak(s[k])
  }

  /** `s.splitlines()`: a final line boundary does not start an empty line, and
      "\r\n" counts as one boundary. */
  function SplitLines(s: string): (lines: seq<string>)
    ensures forall i :: 0 <= i < |lines| ==> NoLineBreak(lines[i])
    ensures |lines| <= |s|
    decreases |s|
  {
    if s == [] then []
    else
      var i := LineEnd(s);
      if i == |s| then [s]
      else
        var next := if s[i] == '\r' && i + 1 < |s| && s[i + 1] == '\n' then i + 2 else i + 1;
        [s[..i]] + SplitLines(s[next..])
  }

  /** Each line followed by "\n". */
  function Unlines(lines: seq<string>): string {
    if lines == [] then [] else lines[0] + "\n" + Unlines(lines[1..])
  }

  /** `splitlines` undoes writing lines out one per "\n"-terminated line. */
  lemma {:induction false} SplitLinesUnlines(lines: seq<string>)
    requires forall i :: 0 <= i < |lines| ==> NoLineBreak(lines[i])
    ensures SplitLines(Unlines(lines)) == lines
  {
    if lines != [] {
      SplitLinesUnlines(lines[1..]);
      SplitLinesCons(lines[0], Unlines(lines[1..]));
    }
  }

  lemma SplitLinesCons(l: string, t: string)
    requires NoLineBreak(l)
    ensures SplitLines(l + "\n" + t) == [l] + SplitLines(t)
  {
    var s := l + "\n" + t;
    LineEndAfter(l, "\n" + t);
    assert s == l + ("\n" + t);
    assert s[..|l|] == l;
    assert s[|l| + 1..] == t;
  }

  lemma LineEndAfter(l: string, rest: string)
    requires NoLineBreak(l) && rest != [] && IsLineBreak(rest[0])
    ensures LineEnd(l + rest) == |l|
  {
    var s := l + rest;
    assert s[|l|] == rest[0];
    assert forall k :: 0 <= k < |l| ==> s[k] == l[k];
  }

  /** A text without line boundaries is one line, or none when empty. */
  lemma SplitLinesSingle(s: string)
    requires NoLineBreak(s)
    ensures SplitLines(s) == if s == [] then [] else [s]
  {
  }

  /** Python's `<` on `str`: lexicographic by code point. */
  predicate Less(a: string, b: string)
    decreases |a|
  {
    if a == [] then b != []
    else b != [] && (a[0] < b[0] || (a[0] == b[0] && Less(a[1..], b[1..])))
  }

  lemma {:induction false} LessIrreflexive(a: string)
    ensures !Less(a, a)
    decreases |a|
  {
    if a != [] {
      LessIrreflexive(a[1..]);
    }
  }

  lemma {:induction false} LessTransitive(a: string, b: string, c: string)
    requires Less(a, b) && Less(b, c)
    ensures Less(a, c)
    decreases |a|
  {
    if a != [] && a[0] == b[0] && b[0] == c[0] {
      LessTransitive(a[1..], b[1..], c[1..]);
    }
  }

  lemma {:induction false} LessTotal(a: string, b: string)
    ensures a == b || Less(a, b) || Less(b, a)
    decreases |a|
  {
    if a != [] && b != [] && a[0] == b[0] {
      LessTotal(a[1..], b[1..]);
      if a[1..] == b[1..] {
        assert a == [a[0]] + a[1..] && b == [b[0]] + b[1..];
      }
    }
  }

  /** A character absent from the text is absent from every part of its split. */
  lemma {:induction false} SplitAvoids(s: string, c: char, x: char)
    requires x !in s
    ensures forall i :: 0 <= i < |Split(s, c)| ==> x !in Split(s, c)[i]
    decreases |s|
  {
    var i := IndexOf(s, c);
    if i < |s| {
      SplitAvoids(s[i + 1..], c, x);
      assert x !in s[..i];
      assert Split(s, c) == [s[..i]] + Split(s[i + 1..], c);
    }
  }

  /** Each string of a list stripped. */
  function StripEach(items: seq<string>): (r: seq<string>)
    ensures |r| == |items|
  {
    if items == [] then [] else [Strip(items[0])] + StripEach(items[1..])
  }

  lemma {:induction false} StripEachAt(items: seq<string>, i: nat)
    requires i < |items|
    ensures StripEach(items)[i] == Strip(items[i])
    decreases i
  {
    if i > 0 {
      StripEachAt(items[1..], i - 1);
    }
  }

  lemma {:induction false} StripEachSnoc(items: seq<string>, x: string)
    ensures StripEach(items + [x]) == StripEach(items) + [Strip(x)]
  {
    if items != [] {
      assert (items + [x])[1..] == items[1..] + [x];
      StripEachSnoc(items[1..], x);
    } else {
      assert items + [x] == [x];
    }
  }

  lemma {:induction false} StripEachStripped(items: seq<string>)
    ensures forall k :: k in StripEach(items) ==> Strip(k) == k
  {
    if items != [] {
      StripEachStripped(items[1..]);
      StripIdempotent(items[0]);
    }
  }

  /** Concatenation regrouped to the right; stated once so that proofs over long
      literals need not search for it. */
  lemma Regroup<T>(a: seq<T>, b: seq<T>, c: seq<T>)
    ensures a + b + c == a + (b + c)
  {
  }

  lemma AppendNil<T>(a: seq<T>)
    ensures a + [] == a
  {
  }

  /** An empty middle part drops out of a concatenation. */
  lemma EmptyMiddle<T>(a: seq<T>, b: seq<T>)
    ensures a + [] + b == a + b
  {
  }

  /** A sequence that is the head of `s` followed by the tail of `s` is `s`. */
  lemma ConsOf<T>(a: seq<T>, s: seq<T>)
    requires s != [] && a == [s[0]] + s[1..]
    ensures a == s
  {
  }

  /** A concatenation starts with its first part and ends with its last. */
  lemma FramedBy(a: string, b: string, c: string)
    ensures StartsWith(a + b + c, a) && EndsWith(a + b + c, c)
  {
    var s := a + b + c;
    assert s[..|a|] == a;
    assert s[|s| - |c|..] == c;
  }
}

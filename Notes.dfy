/** The note parser of `_library/Notes.py`: front matter and body, labelled values,
    sections, backlinks, dates and tags. Every regular expression of the source is
    written out as the scan it performs. */
module Notes {
  import opened Wrappers
  import opened Text

  // ---------------------------------------------------------------------------
  // Front matter and body

  /** `get_note_frontMatter`: the stripped text between the first `---` and the next
      `---` after it, or "" when there are fewer than two. */
  function FrontMatter(note: string): (fm: string)
    ensures IsStripped(fm)
    ensures !Contains(fm, "---")
    ensures fm == [] || Contains(note, fm)
  {
    var start := Find(note, "---", 0);
    if start == -1 then []
    else
      var end := Find(note, "---", start + 3);
      if end == -1 then []
      else
        StrippedSliceFacts(note, start + 3, end, "---");
        Strip(note[start + 3..end])
  }

  /** The stripped slice `note[lo..hi]`, when no `p` starts inside it, is free of
      `p` and occurs in `note`. */
  lemma StrippedSliceFacts(note: string, lo: nat, hi: nat, p: string)
    requires p != [] && lo <= hi <= |note|
    requires forall k :: lo <= k < hi ==> !OccursAt(note, p, k)
    ensures !Contains(Strip(note[lo..hi]), p)
    ensures Strip(note[lo..hi]) == [] || Contains(note, Strip(note[lo..hi]))
  {
    var inner := note[lo..hi];
    NoOccurrenceBetween(note, p, lo, hi);
    StripInfix(inner);
    InfixOfSliceFacts(note, lo, hi, p, Strip(inner), |inner| - |LStrip(inner)|);
  }

  lemma InfixOfSliceFacts(note: string, lo: nat, hi: nat, p: string, t: string, k: nat)
    requires lo <= hi <= |note| && !Contains(note[lo..hi], p) && OccursAt(note[lo..hi], t, k)
    ensures !Contains(t, p) && Contains(note, t)
  {
    NotContainsInfix(note[lo..hi], p, k, t);
    OccursInSlice(note, lo, hi, t, k);
    ContainsAt(note, t, lo + k);
  }

  /** `Strip(s)` is the slice of `s` that starts after its leading whitespace. */
  lemma StripInfix(s: string)
    ensures OccursAt(s, Strip(s), |s| - |LStrip(s)|)
  {
    StripSplit(s);
    RStripOccurs(s, LStrip(s));
  }

  lemma StripSplit(s: string)
    ensures Strip(s) == RStrip(LStrip(s))
    ensures LStrip(s) == s[|s| - |LStrip(s)|..]
  {
  }

  lemma RStripOccurs(s: string, l: string)
    requires |l| <= |s| && l == s[|s| - |l|..]
    ensures OccursAt(s, RStrip(l), |s| - |l|)
  {
    PrefixOfSuffixOccurs(s, l, RStrip(l));
  }

  /** A prefix of a suffix of `s` occurs in `s` where the suffix starts. */
  lemma PrefixOfSuffixOccurs(s: string, l: string, r: string)
    requires |l| <= |s| && l == s[|s| - |l|..]
    requires |r| <= |l| && r == l[..|r|]
    ensures OccursAt(s, r, |s| - |l|)
  {
    var k := |s| - |l|;
    assert s[k..k + |r|] == s[k..][..|r|];
  }

  /** Characters of a slice are characters of the whole text. */
  lemma OccursChars(s: string, t: string, k: nat)
    requires OccursAt(s, t, k)
    ensures forall c :: c in t ==> c in s
  {
    forall c | c in t ensures c in s {
      var j :| 0 <= j < |t| && t[j] == c;
      assert s[k + j] == c;
    }
  }

  /** Stripping removes characters and adds none. */
  lemma StripChars(s: string)
    ensures forall c :: c in Strip(s) ==> c in s
  {
    StripInfix(s);
    OccursChars(s, Strip(s), |s| - |LStrip(s)|);
  }

  /** An occurrence inside the slice `s[lo..hi]` is an occurrence in `s`. */
  lemma OccursInSlice(s: string, lo: nat, hi: nat, t: string, k: nat)
    requires lo <= hi <= |s| && OccursAt(s[lo..hi], t, k)
    ensures OccursAt(s, t, lo + k)
  {
    var w := s[lo + k..lo + k + |t|];
    forall j | 0 <= j < |t| ensures w[j] == t[j] {
      assert t[j] == s[lo..hi][k + j];
    }
    assert w == t;
  }

  /** A slice that holds no occurrence of `p` starting inside it does not contain `p`. */
  lemma NoOccurrenceBetween(s: string, p: string, lo: nat, hi: nat)
    requires p != [] && lo <= hi <= |s|
    requires forall k :: lo <= k < hi ==> !OccursAt(s, p, k)
    ensures !Contains(s[lo..hi], p)
  {
    if Contains(s[lo..hi], p) {
      var i := Find(s[lo..hi], p, 0);
      OccursInSlice(s, lo, hi, p, i);
    }
  }

  /** A slice of a text that does not contain `p` does not contain it either. */
  lemma NotContainsInfix(s: string, p: string, k: nat, t: string)
    requires !Contains(s, p) && OccursAt(s, t, k)
    ensures !Contains(t, p)
  {
    if Contains(t, p) {
      var i := Find(t, p, 0);
      forall j | 0 <= j < |p| ensures s[k + i + j] == p[j] {
        assert t[i..i + |p|][j] == p[j];
        assert s[k..k + |t|][i + j] == t[i + j];
      }
      assert s[k + i..k + i + |p|] == p;
      ContainsAt(s, p, k + i);
    }
  }

  /** The block `get_note_body` removes: the front matter between its markers. */
  function Block(fm: string): string {
    "---\n" + fm + "\n---"
  }

  /** `get_note_body`: the note with every `---\n<front matter>\n---` block removed,
      stripped. */
  function Body(note: string): (r: string)
    ensures IsStripped(r)
  {
    Strip(ReplaceAll(note, Block(FrontMatter(note)), ""))
  }

  /** The note text the tools write: a front-matter block, a blank line, the body. */
  function Compose(fm: string, body: string): string {
    Block(fm) + "\n\n" + body
  }

  /** Writing a note out and parsing it again gives back its front matter and its
      stripped body, when neither contains `---`. */
  lemma FrontMatterBodyRoundTrip(fm: string, body: string)
    requires IsStripped(fm) && !Contains(fm, "---") && !Contains(body, "---")
    ensures FrontMatter(Compose(fm, body)) == fm
    ensures Body(Compose(fm, body)) == Strip(body)
  {
    FrontMatterOfCompose(fm, body);
    BodyOfCompose(fm, body);
  }

  lemma FrontMatterOfCompose(fm: string, body: string)
    requires IsStripped(fm) && !Contains(fm, "---")
    ensures FrontMatter(Compose(fm, body)) == fm
  {
    var e := 3 + |"\n" + fm + "\n"|;
    ComposeOpens(fm, body);
    ComposeCloses(fm, body);
    ComposeInner(fm, body);
    FrontMatterOfMarkers(Compose(fm, body), e, fm);
  }

  lemma FrontMatterOfMarkers(t: string, e: nat, fm: string)
    requires Find(t, "---", 0) == 0 && Find(t, "---", 3) == e && Strip(t[3..e]) == fm
    ensures FrontMatter(t) == fm
  {
    FrontMatterFrom(t, 0, e);
  }

  lemma ComposeOpens(fm: string, body: string)
    ensures Find(Compose(fm, body), "---", 0) == 0
  {
    ComposeShape(fm, body);
    FindAtStart(("\n" + fm + "\n") + ("---" + "\n\n" + body));
  }

  lemma ComposeCloses(fm: string, body: string)
    requires !Contains(fm, "---")
    ensures Find(Compose(fm, body), "---", 3) == 3 + |"\n" + fm + "\n"|
  {
    var m := "\n" + fm + "\n";
    var b := "---" + "\n\n" + body;
    ComposeShape(fm, body);
    CloseAfterPadded(fm, b);
    FindAfter("---", m + b, "---");
  }

  lemma ComposeInner(fm: string, body: string)
    requires IsStripped(fm)
    ensures Strip(Compose(fm, body)[3..3 + |"\n" + fm + "\n"|]) == fm
  {
    var m := "\n" + fm + "\n";
    ComposeShape(fm, body);
    SliceOfConcat("---", m, "---" + "\n\n" + body);
    StripPadded("\n", fm, "\n");
    StripOfStripped(fm);
  }

  lemma FindAtStart(x: string)
    ensures Find("---" + x, "---", 0) == 0
  {
    assert OccursAt("---" + x, "---", 0);
  }

  /** The closing marker right after the padded front matter is the first one. */
  lemma CloseAfterPadded(fm: string, b: string)
    requires !Contains(fm, "---") && StartsWith(b, "---")
    ensures Find(("\n" + fm + "\n") + b, "---", 0) == |"\n" + fm + "\n"|
  {
    var m := "\n" + fm + "\n";
    PaddedNotContains('\n', fm, "---");
    assert ['\n'] + fm + ['\n'] == m;
    forall k | 0 <= k < |m| ensures !OccursAt(m + b, "---", k) {
      NoOccurrenceStartingIn(m, b, "---", k);
    }
    OccursShift(m, b, "---", 0);
    assert OccursAt(b, "---", 0);
  }

  /** `FrontMatter` once both markers are located. */
  lemma FrontMatterFrom(t: string, start: nat, end: nat)
    requires Find(t, "---", 0) == start && Find(t, "---", start + 3) == end
    ensures FrontMatter(t) == Strip(t[start + 3..end])
  {
  }

  lemma SliceOfConcat(a: string, m: string, b: string)
    ensures (a + (m + b))[|a|..|a| + |m|] == m
  {
  }

  lemma ComposeShape(fm: string, body: string)
    ensures Compose(fm, body) == "---" + (("\n" + fm + "\n") + ("---" + "\n\n" + body))
  {
  }

  lemma BodyOfCompose(fm: string, body: string)
    requires IsStripped(fm) && !Contains(fm, "---") && !Contains(body, "---")
    ensures Body(Compose(fm, body)) == Strip(body)
  {
    FrontMatterOfCompose(fm, body);
    BlockRemoved(fm, body);
    StripPadded("\n\n", body, []);
    assert "\n\n" + body + [] == "\n\n" + body;
  }

  /** Removing the block leaves the blank line and the body. */
  lemma BlockRemoved(fm: string, body: string)
    requires !Contains(body, "---")
    ensures ReplaceAll(Compose(fm, body), Block(fm), "") == "\n\n" + body
  {
    var block := Block(fm);
    var rest := "\n\n" + body;
    assert Compose(fm, body) == [] + block + rest;
    assert !Contains([] + block[..|block| - 1], block);
    ReplaceAllAfterPrefix([], block, rest, "");
    RestWithoutBlock(fm, body);
    assert [] + "" + rest == rest;
  }

  lemma RestWithoutBlock(fm: string, body: string)
    requires !Contains(body, "---")
    ensures !Contains("\n\n" + body, Block(fm))
  {
    var block := Block(fm);
    var rest := "\n\n" + body;
    if Contains(rest, block) {
      var i := Find(rest, block, 0);
      assert OccursAt(rest, "---", i) by {
        assert rest[i..i + 3] == rest[i..i + |block|][..3];
      }
      assert !Contains("\n\n", "---");
      if i < 2 {
        NoOccurrenceStartingIn("\n\n", body, "---", i);
      } else {
        OccursShift("\n\n", body, "---", i - 2);
        ContainsAt(body, "---", i - 2);
      }
    }
  }

  // ---------------------------------------------------------------------------
  // Labelled values

  /** The text matched by a trailing `(.*)`: everything up to the end of the line. */
  function RestOfLine(t: string): (r: string)
    ensures '\n' !in r && StartsWith(t, r)
  {
    t[..IndexOf(t, '\n')]
  }

  /** The rest of a line is the text before the next "\n". */
  lemma RestOfLineOf(v: string, rest: string)
    requires '\n' !in v && (rest == [] || rest[0] == '\n')
    ensures RestOfLine(v + rest) == v
  {
    var t := v + rest;
    assert t[..|v|] == v;
    IndexOfAt(t, '\n', |v|);
  }

  predicate SameText(a: string, b: string, ignoreCase: bool) {
    if ignoreCase then EqualsIgnoreCase(a, b) else a == b
  }

  /** The pattern `marker[^\n](.*)` can start matching at index `k`. */
  predicate LabelMatchAt(text: string, marker: string, ignoreCase: bool, k: int) {
    0 <= k && k + |marker| < |text|
    && SameText(text[k..k + |marker|], marker, ignoreCase)
    && text[k + |marker|] != '\n'
  }

  /** The first index at or after `from` where `marker[^\n](.*)` matches, or -1. */
  function FirstLabelMatch(text: string, marker: string, ignoreCase: bool, from: nat): (r: int)
    ensures r == -1 || (from <= r && LabelMatchAt(text, marker, ignoreCase, r))
    ensures forall k :: from <= k && (r == -1 || k < r) ==> !LabelMatchAt(text, marker, ignoreCase, k)
    decreases |text| - from
  {
    if from + |marker| >= |text| then -1
    else if LabelMatchAt(text, marker, ignoreCase, from) then from
    else FirstLabelMatch(text, marker, ignoreCase, from + 1)
  }

  /** The group of `re.search(marker + r"[^\n](.*)", text)`: the rest of the line
      after the marker and one more character. */
  function LabelCapture(text: string, marker: string, ignoreCase: bool): (r: Option<string>)
    ensures r.Some? ==> '\n' !in r.value
  {
    var k := FirstLabelMatch(text, marker, ignoreCase, 0);
    if k == -1 then None else Some(RestOfLine(text[k + |marker| + 1..]))
  }

  /** A line that opens with the marker (as written, or in any case when case is
      ignored) and one separator yields the rest of that line. */
  lemma CaptureAtStart(written: string, sep: char, v: string, rest: string, marker: string, ignoreCase: bool)
    requires |written| == |marker| && SameText(written, marker, ignoreCase)
    requires sep != '\n' && '\n' !in v && (rest == [] || rest[0] == '\n')
    ensures LabelCapture(written + [sep] + v + rest, marker, ignoreCase) == Some(v)
  {
    var text := written + [sep] + v + rest;
    LineShape(written, sep, v, rest);
    CaptureAtZero(text, marker, ignoreCase);
    RestOfLineOf(v, rest);
  }

  lemma LineShape(written: string, sep: char, v: string, rest: string)
    ensures var text := written + [sep] + v + rest;
      text[0..|written|] == written && text[|written|] == sep && text[|written| + 1..] == v + rest
  {
  }

  /** A match at the very start is the first one. */
  lemma CaptureAtZero(text: string, marker: string, ignoreCase: bool)
    requires LabelMatchAt(text, marker, ignoreCase, 0)
    ensures LabelCapture(text, marker, ignoreCase) == Some(RestOfLine(text[|marker| + 1..]))
  {
  }

  /** `get_stringValue_from_frontMatter`: the stripped rest of the first line holding
      `prefix:` (in any case) and one more character, or "". */
  function StringValueFromFrontMatter(prefix: string, fm: string): (r: string)
    ensures IsStripped(r) && '\n' !in r
  {
    match LabelCapture(fm, prefix + ":", true)
    case None => []
    case Some(v) =>
      StripChars(v);
      Strip(v)
  }

  /** The value follows the first `prefix:`, whatever the case of its letters, after
      exactly one separator character, up to the end of its line. */
  lemma StringValueFromLine(prefix: string, written: string, sep: char, v: string, rest: string)
    requires |written| == |prefix| + 1 && EqualsIgnoreCase(written, prefix + ":")
    requires sep != '\n' && '\n' !in v && (rest == [] || rest[0] == '\n')
    ensures StringValueFromFrontMatter(prefix, written + [sep] + v + rest) == Strip(v)
  {
    CaptureAtStart(written, sep, v, rest, prefix + ":", true);
  }

  /** Without any `prefix:` followed by a character on its line, the value is "". */
  lemma StringValueAbsent(prefix: string, fm: string)
    requires forall k :: !LabelMatchAt(fm, prefix + ":", true, k)
    ensures StringValueFromFrontMatter(prefix, fm) == []
  {
  }

  /** `[x.strip() for x in parts if x.strip()]` */
  function NonEmptyStripped(parts: seq<string>, sep: char): (r: seq<string>)
    requires forall i :: 0 <= i < |parts| ==> sep !in parts[i]
    ensures |r| <= |parts|
    ensures forall i :: 0 <= i < |r| ==> r[i] != [] && IsStripped(r[i]) && sep !in r[i]
  {
    if parts == [] then []
    else
      var s := Strip(parts[0]);
      StripChars(parts[0]);
      (if s == [] then [] else [s]) + NonEmptyStripped(parts[1..], sep)
  }

  /** `get_listValue_from_frontMatter`: the comma-separated items of the first
      `keywords:` line (matched with case; the requested prefix is not used), each
      stripped, empty ones dropped. */
  function ListValueFromFrontMatter(valuePrefix: string, fm: string): (r: seq<string>)
    ensures forall i :: 0 <= i < |r| ==> r[i] != [] && IsStripped(r[i]) && ',' !in r[i]
  {
    match LabelCapture(fm, "keywords:", false)
    case None => []
    case Some(v) => NonEmptyStripped(Split(Strip(v), ','), ',')
  }

  /** Keywords as the tools write them on one front-matter line. */
  function KeywordsLine(keywords: seq<string>): string {
    "keywords: " + Join(keywords, ", ")
  }

  predicate IsKeyword(k: string) {
    k != [] && IsStripped(k) && ',' !in k && '\n' !in k
  }

  /** Reading back a written keywords line gives the same keywords, in order,
      whatever prefix is asked for. */
  lemma KeywordsRoundTrip(valuePrefix: string, keywords: seq<string>, rest: string)
    requires forall i :: 0 <= i < |keywords| ==> IsKeyword(keywords[i])
    requires rest == [] || rest[0] == '\n'
    ensures ListValueFromFrontMatter(valuePrefix, KeywordsLine(keywords) + rest) == keywords
  {
    CaptureKeywords(keywords, rest);
    JoinStripped(keywords);
    StripOfStripped(Join(keywords, ", "));
    SplitKeywords(keywords);
  }

  lemma CaptureKeywords(keywords: seq<string>, rest: string)
    requires forall i :: 0 <= i < |keywords| ==> IsKeyword(keywords[i])
    requires rest == [] || rest[0] == '\n'
    ensures LabelCapture(KeywordsLine(keywords) + rest, "keywords:", false) == Some(Join(keywords, ", "))
  {
    JoinNoNewline(keywords);
    CaptureKeywordsValue(Join(keywords, ", "), rest);
  }

  lemma CaptureKeywordsValue(j: string, rest: string)
    requires '\n' !in j && (rest == [] || rest[0] == '\n')
    ensures LabelCapture("keywords: " + j + rest, "keywords:", false) == Some(j)
  {
    assert "keywords: " + j + rest == "keywords:" + [' '] + j + rest;
    CaptureAtStart("keywords:", ' ', j, rest, "keywords:", false);
  }

  lemma {:induction false} JoinNoNewline(keywords: seq<string>)
    requires forall i :: 0 <= i < |keywords| ==> IsKeyword(keywords[i])
    ensures '\n' !in Join(keywords, ", ")
  {
    if |keywords| > 1 {
      JoinNoNewline(keywords[1..]);
      assert Join(keywords, ", ") == keywords[0] + ", " + Join(keywords[1..], ", ");
    }
  }

  /** The joined keywords start with the first keyword and end with the last one. */
  lemma {:induction false} JoinEnds(keywords: seq<string>)
    requires keywords != []
    ensures StartsWith(Join(keywords, ", "), keywords[0])
    ensures EndsWith(Join(keywords, ", "), keywords[|keywords| - 1])
  {
    if |keywords| > 1 {
      JoinEnds(keywords[1..]);
      var t := Join(keywords[1..], ", ");
      assert Join(keywords, ", ") == keywords[0] + (", " + t);
      assert keywords[1..][|keywords| - 2] == keywords[|keywords| - 1];
    }
  }

  lemma JoinStripped(keywords: seq<string>)
    requires forall i :: 0 <= i < |keywords| ==> IsKeyword(keywords[i])
    ensures IsStripped(Join(keywords, ", "))
  {
    if keywords != [] {
      JoinEnds(keywords);
      var j := Join(keywords, ", ");
      var first := keywords[0];
      var last := keywords[|keywords| - 1];
      assert IsKeyword(first) && IsKeyword(last);
      assert j[0] == j[..|first|][0] == first[0];
      assert j[|j| - 1] == j[|j| - |last|..][|last| - 1] == last[|last| - 1];
    }
  }

  lemma SplitKeywords(keywords: seq<string>)
    requires forall i :: 0 <= i < |keywords| ==> IsKeyword(keywords[i])
    ensures forall i :: 0 <= i < |Split(Join(keywords, ", "), ',')| ==> ',' !in Split(Join(keywords, ", "), ',')[i]
    ensures NonEmptyStripped(Split(Join(keywords, ", "), ','), ',') == keywords
  {
    if keywords == [] {
      assert Split([], ',') == [[]];
    } else {
      var parts := [keywords[0]] + Spaced(keywords[1..]);
      SplitJoinFirst(keywords);
      StripOfStripped(keywords[0]);
      NonEmptyStrippedSpaced(keywords[1..]);
      assert parts[1..] == Spaced(keywords[1..]);
      forall i | 0 <= i < |parts| ensures ',' !in parts[i] {
        if i > 0 {
          assert parts[i] == Spaced(keywords[1..])[i - 1];
        }
      }
      NonEmptyStrippedCons(parts, ',');
      ConsOf(NonEmptyStripped(parts, ','), keywords);
    }
  }

  /** `split(",")` of the joined keywords: the first one whole, the others after
      their space. */
  lemma SplitJoinFirst(keywords: seq<string>)
    requires keywords != []
    requires forall i :: 0 <= i < |keywords| ==> IsKeyword(keywords[i])
    ensures Split(Join(keywords, ", "), ',') == [keywords[0]] + Spaced(keywords[1..])
  {
    SplitJoin([], keywords);
    assert [] + keywords[0] == keywords[0];
    assert [] + Join(keywords, ", ") == Join(keywords, ", ");
  }

  /** Each keyword after the first, as `split(",")` leaves it: after a space. */
  function Spaced(keywords: seq<string>): (r: seq<string>)
    ensures |r| == |keywords|
  {
    if keywords == [] then [] else [" " + keywords[0]] + Spaced(keywords[1..])
  }

  lemma {:induction false} SplitJoin(pre: string, keywords: seq<string>)
    requires keywords != [] && ',' !in pre
    requires forall i :: 0 <= i < |keywords| ==> IsKeyword(keywords[i])
    ensures Split(pre + Join(keywords, ", "), ',') == [pre + keywords[0]] + Spaced(keywords[1..])
    decreases |keywords|
  {
    var s := pre + Join(keywords, ", ");
    if |keywords| == 1 {
      assert ',' !in s;
      IndexOfAt(s, ',', |s|);
    } else {
      var head := pre + keywords[0];
      var t := Join(keywords[1..], ", ");
      assert s == head + "," + (" " + t);
      assert s[..|head|] == head;
      IndexOfAt(s, ',', |head|);
      assert s[|head| + 1..] == " " + t;
      SplitJoin(" ", keywords[1..]);
      assert Spaced(keywords[1..]) == [" " + keywords[1]] + Spaced(keywords[2..]);
    }
  }

  lemma {:induction false} SpacedNoComma(keywords: seq<string>)
    requires forall i :: 0 <= i < |keywords| ==> IsKeyword(keywords[i])
    ensures forall i :: 0 <= i < |keywords| ==> ',' !in Spaced(keywords)[i]
  {
    if keywords != [] {
      SpacedNoComma(keywords[1..]);
      assert forall i :: 1 <= i < |keywords| ==> Spaced(keywords)[i] == Spaced(keywords[1..])[i - 1];
    }
  }

  lemma {:induction false} NonEmptyStrippedSpaced(keywords: seq<string>)
    requires forall i :: 0 <= i < |keywords| ==> IsKeyword(keywords[i])
    ensures forall i :: 0 <= i < |keywords| ==> ',' !in Spaced(keywords)[i]
    ensures NonEmptyStripped(Spaced(keywords), ',') == keywords
  {
    SpacedNoComma(keywords);
    if keywords != [] {
      var sp := Spaced(keywords);
      var k, rest := keywords[0], keywords[1..];
      assert sp[0] == " " + k && sp[1..] == Spaced(rest);
      forall i | 0 <= i < |rest| ensures IsKeyword(rest[i]) {
        assert rest[i] == keywords[i + 1];
      }
      NonEmptyStrippedSpaced(rest);
      SpacedStrip(k);
      NonEmptyStrippedCons(sp, ',');
      ConsOf(NonEmptyStripped(sp, ','), keywords);
    }
  }

  lemma NonEmptyStrippedCons(parts: seq<string>, sep: char)
    requires parts != [] && Strip(parts[0]) != []
    requires forall i :: 0 <= i < |parts| ==> sep !in parts[i]
    ensures NonEmptyStripped(parts, sep) == [Strip(parts[0])] + NonEmptyStripped(parts[1..], sep)
  {
  }

  lemma SpacedStrip(k: string)
    requires IsKeyword(k)
    ensures Strip(" " + k) == k
  {
    StripPadded(" ", k, []);
    assert " " + k + [] == " " + k;
    StripOfStripped(k);
  }

  /** The part of the body pattern after the value: one leading `**:`, `*:` or `:`
      is dropped. The `:**` and `:*` tests come after the `:` test and never fire. */
  function DropLabelResidue(value: string): (r: string)
    ensures IsStripped(r) || r == value
  {
    if StartsWith(value, "**:") then Strip(value[3..])
    else if StartsWith(value, "*:") then Strip(value[2..])
    else if StartsWith(value, ":") then Strip(value[1..])
    else if StartsWith(value, ":**") then Strip(value[3..])
    else if StartsWith(value, ":*") then Strip(value[2..])
    else value
  }

  /** At most one marker is removed, and a value starting `:**` keeps its `**`. */
  lemma DropLabelResidueOnce(x: string)
    ensures DropLabelResidue(":**" + x) == Strip("**" + x)
    ensures DropLabelResidue("**:" + x) == Strip(x)
  {
    assert StartsWith(":**" + x, ":");
    assert !StartsWith(":**" + x, "**:") by { StartsWithHeadNot(":**" + x, "**:"); }
    assert !StartsWith(":**" + x, "*:") by { StartsWithHeadNot(":**" + x, "*:"); }
    assert (":**" + x)[1..] == "**" + x;
    assert StartsWith("**:" + x, "**:");
    assert ("**:" + x)[3..] == x;
  }

  lemma StartsWithHeadNot(s: string, p: string)
    requires p != [] && s != [] && s[0] != p[0]
    ensures !StartsWith(s, p)
  {
    if StartsWith(s, p) {
      StartsWithHead(s, p);
    }
  }

  /** A value that does not start with `:` or `*` is kept as it is. */
  lemma DropLabelResidueKeeps(value: string)
    requires value == [] || (value[0] != ':' && value[0] != '*')
    ensures DropLabelResidue(value) == value
  {
    if value != [] {
      StartsWithHeadNot(value, "**:");
      StartsWithHeadNot(value, "*:");
      StartsWithHeadNot(value, ":");
      StartsWithHeadNot(value, ":**");
      StartsWithHeadNot(value, ":*");
    }
  }

  lemma DropLabelResidueChars(value: string)
    ensures forall c :: c in DropLabelResidue(value) ==> c in value
  {
    if StartsWith(value, "**:") {
      SuffixStripChars(value, 3);
    } else if StartsWith(value, "*:") {
      SuffixStripChars(value, 2);
    } else if StartsWith(value, ":") {
      SuffixStripChars(value, 1);
    }
  }

  lemma SuffixStripChars(value: string, n: nat)
    requires n <= |value|
    ensures forall c :: c in Strip(value[n..]) ==> c in value
  {
    StripChars(value[n..]);
    assert forall c :: c in value[n..] ==> c in value;
  }

  /** `get_stringValue_from_noteBody` of `_library/Notes.py`: the rest of the first
      line holding the label (in any case) and one more character, stripped, without
      a leading colon residue. */
  function StringValueFromBody(valueLabel: string, body: string): (r: string)
    ensures IsStripped(r) && '\n' !in r
  {
    match LabelCapture(body, valueLabel, true)
    case None => []
    case Some(v) =>
      StripChars(v);
      DropLabelResidueChars(Strip(v));
      DropLabelResidue(Strip(v))
  }

  // ---------------------------------------------------------------------------
  // Rewriting labelled lines

  /** `marker` occurs at index `k`, ignoring case. */
  predicate OccursAtIgnoreCase(text: string, marker: string, k: int) {
    0 <= k && k + |marker| <= |text| && EqualsIgnoreCase(text[k..k + |marker|], marker)
  }

  /** The first index at or after `from` where `marker` occurs ignoring case, or -1. */
  function FindIgnoreCase(text: string, marker: string, from: nat): (r: int)
    ensures r == -1 || (from <= r && OccursAtIgnoreCase(text, marker, r))
    ensures forall k :: from <= k && (r == -1 || k < r) ==> !OccursAtIgnoreCase(text, marker, k)
    decreases |text| - from
  {
    if from + |marker| > |text| then -1
    else if OccursAtIgnoreCase(text, marker, from) then from
    else FindIgnoreCase(text, marker, from + 1)
  }

  /** `re.sub(re.escape(marker) + r"[^\n]*", replacement, text, flags=re.IGNORECASE)`
      for a non-empty marker: each occurrence of the marker and the rest of its line
      becomes the replacement. */
  function ReplaceLabelLines(text: string, marker: string, replacement: string): string
    requires marker != []
    decreases |text|
  {
    var k := FindIgnoreCase(text, marker, 0);
    if k == -1 then text
    else
      var e := k + |marker| + IndexOf(text[k + |marker|..], '\n');
      text[..k] + replacement + ReplaceLabelLines(text[e..], marker, replacement)
  }

  /** The same substitution for an empty marker, where `[^\n]*` matches each line's
      text and then once more, empty, at its end: a non-empty line becomes the
      replacement twice, an empty one once. */
  function ReplaceEveryLine(lines: seq<string>, replacement: string): (r: seq<string>)
    ensures |r| == |lines|
    ensures forall i :: 0 <= i < |r| ==> r[i] == replacement || r[i] == replacement + replacement
  {
    if lines == [] then []
    else [if lines[0] == [] then replacement else replacement + replacement]
         + ReplaceEveryLine(lines[1..], replacement)
  }

  /** `replace_lineLabelValue_in_noteBody` */
  function ReplaceLineLabelValue(lineLabel: string, newValue: string, body: string): string {
    var replacement := lineLabel + " " + newValue;
    if lineLabel == [] then Join(ReplaceEveryLine(Split(body, '\n'), replacement), "\n")
    else ReplaceLabelLines(body, lineLabel, replacement)
  }

  /** A body without the label is left unchanged. */
  lemma ReplaceLineLabelValueAbsent(lineLabel: string, newValue: string, body: string)
    requires lineLabel != [] && forall k :: !OccursAtIgnoreCase(body, lineLabel, k)
    ensures ReplaceLineLabelValue(lineLabel, newValue, body) == body
  {
  }

  /** After a labelled line is rewritten, the label's first line reads `label value`,
      so reading the label back gives the new value (the tool that reads values back
      drops a leading colon residue, so values starting with `:` or `*` are excluded). */
  lemma ReplaceThenRead(lineLabel: string, newValue: string, body: string)
    requires lineLabel != [] && '\n' !in newValue
    requires FindIgnoreCase(body, lineLabel, 0) != -1
    requires Strip(newValue) == [] || (Strip(newValue)[0] != ':' && Strip(newValue)[0] != '*')
    ensures LabelCapture(ReplaceLineLabelValue(lineLabel, newValue, body), lineLabel, true) == Some(newValue)
    ensures StringValueFromBody(lineLabel, ReplaceLineLabelValue(lineLabel, newValue, body)) == Strip(newValue)
  {
    ReplacedCapture(lineLabel, newValue, body);
    DropLabelResidueKeeps(Strip(newValue));
  }

  lemma ReplacedCapture(lineLabel: string, newValue: string, body: string)
    requires lineLabel != [] && '\n' !in newValue
    requires FindIgnoreCase(body, lineLabel, 0) != -1
    ensures LabelCapture(ReplaceLineLabelValue(lineLabel, newValue, body), lineLabel, true) == Some(newValue)
  {
    var k, tail := ReplacedShape(lineLabel, newValue, body);
    CaptureOfReplaced(body, k, lineLabel, newValue, tail);
  }

  lemma ReplacedShape(lineLabel: string, newValue: string, body: string) returns (k: nat, tail: string)
    requires lineLabel != [] && FindIgnoreCase(body, lineLabel, 0) != -1
    ensures k == FindIgnoreCase(body, lineLabel, 0)
    ensures ReplaceLineLabelValue(lineLabel, newValue, body) == body[..k] + (lineLabel + " " + newValue) + tail
    ensures tail == [] || tail[0] == '\n'
  {
    k := FindIgnoreCase(body, lineLabel, 0);
    var n := |lineLabel|;
    var e := k + n + IndexOf(body[k + n..], '\n');
    var suffix := " " + newValue;
    var replacement := lineLabel + suffix;
    Regroup(lineLabel, " ", newValue);
    tail := ReplaceLabelLines(body[e..], lineLabel, replacement);
    LabelLinesAt(body, lineLabel, replacement, k, e);
    LineStartAfterLabel(body, k, n);
    ReplaceLabelLinesStartsLine(body[e..], lineLabel, suffix);
  }

  /** One step of the substitution at the first match. */
  lemma LabelLinesAt(text: string, marker: string, replacement: string, k: nat, e: nat)
    requires marker != [] && k == FindIgnoreCase(text, marker, 0)
    requires k + |marker| <= |text| && e == k + |marker| + IndexOf(text[k + |marker|..], '\n')
    ensures ReplaceLabelLines(text, marker, replacement)
      == text[..k] + replacement + ReplaceLabelLines(text[e..], marker, replacement)
  {
  }

  lemma CaptureOfReplaced(body: string, k: nat, marker: string, v: string, tail: string)
    requires marker != [] && k == FindIgnoreCase(body, marker, 0)
    requires '\n' !in v && (tail == [] || tail[0] == '\n')
    ensures LabelCapture(body[..k] + (marker + " " + v) + tail, marker, true) == Some(v)
  {
    var front := body[..k];
    FirstMatchIsReplaced(body, k, marker, v, tail);
    AfterReplacedMarker(front, marker, v, tail);
    CaptureFrom(front + (marker + " " + v) + tail, marker, k, v, tail);
  }

  /** The capture is the value when the text after the first match is the value
      and then the end of its line. */
  lemma CaptureFrom(text: string, marker: string, k: nat, v: string, tail: string)
    requires FirstLabelMatch(text, marker, true, 0) == k
    requires k + |marker| + 1 <= |text| && text[k + |marker| + 1..] == v + tail
    requires '\n' !in v && (tail == [] || tail[0] == '\n')
    ensures LabelCapture(text, marker, true) == Some(v)
  {
    CaptureAt(text, marker, true, k);
    RestOfLineOf(v, tail);
  }

  lemma AfterReplacedMarker(front: string, marker: string, v: string, tail: string)
    ensures (front + (marker + " " + v) + tail)[|front| + |marker| + 1..] == v + tail
  {
    var text := front + (marker + " " + v) + tail;
    assert text == (front + marker + " ") + (v + tail);
  }

  /** The capture once the first match is located. */
  lemma CaptureAt(text: string, marker: string, ignoreCase: bool, k: nat)
    requires FirstLabelMatch(text, marker, ignoreCase, 0) == k
    ensures LabelCapture(text, marker, ignoreCase) == Some(RestOfLine(text[k + |marker| + 1..]))
  {
  }

  /** What follows the rest of a line is empty or starts with "\n". */
  lemma LineStartAfterLabel(body: string, k: nat, n: nat)
    requires k + n <= |body|
    ensures var e := k + n + IndexOf(body[k + n..], '\n');
      e <= |body| && (body[e..] == [] || body[e..][0] == '\n')
  {
  }

  /** In the rewritten text the first match of `label[^\n]` is where the first
      occurrence was. */
  lemma FirstMatchIsReplaced(body: string, k: nat, marker: string, v: string, tail: string)
    requires marker != [] && k == FindIgnoreCase(body, marker, 0)
    ensures FirstLabelMatch(body[..k] + (marker + " " + v) + tail, marker, true, 0) == k
  {
    var text := body[..k] + (marker + " " + v) + tail;
    assert text[k..k + |marker|] == marker;
    assert text[k + |marker|] == ' ';
    LowerSame(marker);
    assert LabelMatchAt(text, marker, true, k);
    forall j | 0 <= j < k ensures !LabelMatchAt(text, marker, true, j) {
      NoEarlierMatch(body, text, k, marker, j);
    }
  }

  lemma LowerSame(s: string)
    ensures EqualsIgnoreCase(s, s)
  {
  }

  /** Before the first occurrence, the rewritten text matches the marker exactly
      where the original one does, ignoring case. */
  lemma NoEarlierMatch(body: string, text: string, k: nat, marker: string, j: nat)
    requires j < k && OccursAtIgnoreCase(body, marker, k) && k + |marker| <= |text|
    requires body[..k] == text[..k] && text[k..k + |marker|] == marker
    ensures OccursAtIgnoreCase(text, marker, j) <==> OccursAtIgnoreCase(body, marker, j)
  {
    var a := Lower(body[j..j + |marker|]);
    var b := Lower(text[j..j + |marker|]);
    var lm := Lower(marker);
    var lk := Lower(body[k..k + |marker|]);
    forall i | 0 <= i < |marker| ensures a[i] == b[i] {
      if j + i < k {
        assert body[j + i] == body[..k][j + i] == text[..k][j + i] == text[j + i];
      } else {
        assert lk[j + i - k] == lm[j + i - k];
        assert text[j + i] == marker[j + i - k];
      }
    }
    assert a == b;
  }

  /** What follows a rewritten label line is the start of the next line. */
  lemma {:induction false} ReplaceLabelLinesStartsLine(t: string, marker: string, suffix: string)
    requires marker != [] && (t == [] || t[0] == '\n')
    ensures var r := ReplaceLabelLines(t, marker, marker + suffix); r == [] || r[0] == '\n'
  {
    var k := FindIgnoreCase(t, marker, 0);
    if k == 0 {
      var w := t[0..|marker|];
      assert Lower(w)[0] == LowerChar(t[0]);
      assert Lower(marker)[0] == LowerChar(marker[0]);
      LowerNewline(marker[0]);
    }
  }

  lemma LowerNewline(c: char)
    requires LowerChar(c) == '\n'
    ensures c == '\n'
  {
  }

  // ---------------------------------------------------------------------------
  // Backlinks

  /** The first index at or after `j` holding `]`, or `|text|`. */
  function NextClose(text: string, j: nat): (k: nat)
    requires j <= |text|
    ensures j <= k <= |text| && (k < |text| ==> text[k] == ']')
    ensures forall m :: j <= m < k ==> text[m] != ']'
    decreases |text| - j
  {
    if j == |text| || text[j] == ']' then j else NextClose(text, j + 1)
  }

  /** The groups of `re.findall(r"\[\[([^\]]+)\]\]", text)`, scanning from `from`:
      at each position either `[[`, a run of non-`]` characters and `]]` match, or
      the scan moves one character on. */
  function LinkTargets(text: string, from: nat): seq<string>
    decreases |text| - from
  {
    if from + 2 > |text| then []
    else if text[from] == '[' && text[from + 1] == '[' then
      var j := NextClose(text, from + 2);
      if j > from + 2 && j + 1 < |text| && text[j + 1] == ']' then
        [text[from + 2..j]] + LinkTargets(text, j + 2)
      else LinkTargets(text, from + 1)
    else LinkTargets(text, from + 1)
  }

  /** `get_note_backlinks`: the stripped targets of every `[[...]]` link, in order,
      repeats kept, empty ones dropped. */
  function Backlinks(noteBody: string): (r: seq<string>)
    ensures forall i :: 0 <= i < |r| ==> r[i] != [] && IsStripped(r[i]) && ']' !in r[i]
  {
    LinkTargetsNoClose(noteBody, 0);
    NonEmptyStripped(LinkTargets(noteBody, 0), ']')
  }

  /** A link target never holds `]`. */
  lemma {:induction false} LinkTargetsNoClose(text: string, from: nat)
    ensures forall i :: 0 <= i < |LinkTargets(text, from)| ==> ']' !in LinkTargets(text, from)[i]
    decreases |text| - from
  {
    if from + 2 <= |text| {
      if text[from] == '[' && text[from + 1] == '[' {
        var j := NextClose(text, from + 2);
        if j > from + 2 && j + 1 < |text| && text[j + 1] == ']' {
          LinkTargetsNoClose(text, j + 2);
          assert forall m :: from + 2 <= m < j ==> text[m] != ']';
          assert ']' !in text[from + 2..j];
          LinkTargetsAt(text, from, j);
        } else {
          LinkTargetsNoClose(text, from + 1);
        }
      } else {
        LinkTargetsNoClose(text, from + 1);
      }
    }
  }

  /** Links as a note writes them. */
  function Links(targets: seq<string>): string {
    if targets == [] then [] else "[[" + targets[0] + "]]" + Links(targets[1..])
  }

  predicate IsLinkTarget(t: string) {
    t != [] && IsStripped(t) && ']' !in t
  }

  /** Every written link is found again, in order and with repeats. */
  lemma BacklinksOfLinks(targets: seq<string>)
    requires forall i :: 0 <= i < |targets| ==> IsLinkTarget(targets[i])
    ensures Backlinks(Links(targets)) == targets
  {
    LinkTargetsOfAllLinks(targets);
    NonEmptyStrippedKeeps(targets, ']');
  }

  lemma LinkTargetsOfAllLinks(targets: seq<string>)
    requires forall i :: 0 <= i < |targets| ==> targets[i] != [] && ']' !in targets[i]
    ensures LinkTargets(Links(targets), 0) == targets
  {
    var text := Links(targets);
    assert text[0..] == text;
    LinkTargetsOfLinks(text, 0, targets);
  }

  lemma LinkTargetsOfLinks(text: string, from: nat, targets: seq<string>)
    requires forall i :: 0 <= i < |targets| ==> targets[i] != [] && ']' !in targets[i]
    requires from <= |text| && text[from..] == Links(targets)
    ensures LinkTargets(text, from) == targets
  {
    LinksLaidOut(text, from, targets);
    LinkTargetsOfLaidOut(text, from, targets);
  }

  /** The links of `targets` are written at `from`, one after the other, as index
      facts about `text`. */
  predicate LaidOut(text: string, from: nat, targets: seq<string>)
    decreases |targets|
  {
    if targets == [] then from == |text|
    else
      var x := targets[0];
      && from + 4 + |x| <= |text|
      && text[from] == '[' && text[from + 1] == '['
      && text[from + 2 + |x|] == ']' && text[from + 3 + |x|] == ']'
      && text[from + 2..from + 2 + |x|] == x
      && LaidOut(text, from + 4 + |x|, targets[1..])
  }

  lemma {:induction false} LinksLaidOut(text: string, from: nat, targets: seq<string>)
    requires from <= |text| && text[from..] == Links(targets)
    ensures LaidOut(text, from, targets)
    decreases |targets|
  {
    if targets != [] {
      LinksTail(text, from, targets);
      LinksLaidOut(text, from + 4 + |targets[0]|, targets[1..]);
      LaidOutCons(text, from, targets);
    }
  }

  /** The links after the first start four characters past its target. */
  lemma LinksTail(text: string, from: nat, targets: seq<string>)
    requires targets != [] && from <= |text| && text[from..] == Links(targets)
    ensures from + 4 + |targets[0]| <= |text|
    ensures text[from + 4 + |targets[0]|..] == Links(targets[1..])
  {
    LinkShapeAt(text, from, targets[0], Links(targets[1..]));
  }

  /** The first link in place, followed by the rest laid out, lays out the whole list. */
  lemma LaidOutCons(text: string, from: nat, targets: seq<string>)
    requires targets != [] && from <= |text| && text[from..] == Links(targets)
    requires LaidOut(text, from + 4 + |targets[0]|, targets[1..])
    ensures LaidOut(text, from, targets)
  {
    LinkShapeAt(text, from, targets[0], Links(targets[1..]));
  }

  lemma {:induction false} LinkTargetsOfLaidOut(text: string, from: nat, targets: seq<string>)
    requires forall i :: 0 <= i < |targets| ==> targets[i] != [] && ']' !in targets[i]
    requires LaidOut(text, from, targets)
    ensures LinkTargets(text, from) == targets
    decreases |targets|
  {
    if targets != [] {
      var x := targets[0];
      LinkStep(text, from, x);
      LinkTargetsOfLaidOut(text, from + 4 + |x|, targets[1..]);
      ConsOf(LinkTargets(text, from), targets);
    }
  }

  /** A written link at `from` is one match of the scan. */
  lemma LinkStep(text: string, from: nat, x: string)
    requires x != [] && ']' !in x && from + 4 + |x| <= |text|
    requires text[from] == '[' && text[from + 1] == '['
    requires text[from + 2 + |x|] == ']' && text[from + 3 + |x|] == ']'
    requires text[from + 2..from + 2 + |x|] == x
    ensures LinkTargets(text, from) == [x] + LinkTargets(text, from + 4 + |x|)
  {
    NextCloseAt(text, from + 2, from + 2 + |x|);
    LinkTargetsAt(text, from, from + 2 + |x|);
  }

  /** Where a written link starts, its brackets and target sit at fixed offsets. */
  lemma LinkShapeAt(text: string, from: nat, x: string, rest: string)
    requires from <= |text| && text[from..] == "[[" + x + "]]" + rest
    ensures from + 4 + |x| <= |text|
    ensures text[from] == '[' && text[from + 1] == '['
    ensures text[from + 2 + |x|] == ']' && text[from + 3 + |x|] == ']'
    ensures text[from + 2..from + 2 + |x|] == x
    ensures text[from + 4 + |x|..] == rest
  {
    var t := text[from..];
    assert t == "[[" + (x + ("]]" + rest));
    assert t[0] == '[' && t[1] == '[';
    assert t[2 + |x|] == ']' && t[3 + |x|] == ']';
    assert t[2..2 + |x|] == x;
    assert t[4 + |x|..] == rest;
  }

  lemma NextCloseAt(text: string, j: nat, k: nat)
    requires j <= k < |text| && text[k] == ']' && ']' !in text[j..k]
    ensures NextClose(text, j) == k
  {
    forall m | j <= m < k ensures text[m] != ']' {
      assert text[j..k][m - j] == text[m];
    }
  }

  /** One step of the link scan at a match. */
  lemma LinkTargetsAt(text: string, from: nat, j: nat)
    requires from + 2 <= |text| && text[from] == '[' && text[from + 1] == '['
    requires j == NextClose(text, from + 2) && j > from + 2 && j + 1 < |text| && text[j + 1] == ']'
    ensures LinkTargets(text, from) == [text[from + 2..j]] + LinkTargets(text, j + 2)
  {
  }

  /** Parts that are already non-empty and stripped are all kept. */
  lemma {:induction false} NonEmptyStrippedKeeps(parts: seq<string>, sep: char)
    requires forall i :: 0 <= i < |parts| ==> parts[i] != [] && IsStripped(parts[i]) && sep !in parts[i]
    ensures NonEmptyStripped(parts, sep) == parts
  {
    if parts != [] {
      StripOfStripped(parts[0]);
      NonEmptyStrippedCons(parts, sep);
      NonEmptyStrippedKeeps(parts[1..], sep);
    }
  }

  // ---------------------------------------------------------------------------
  // Dates

  /** The group of `re.search(key + r":\s*(.*)", text)`: after the first `key:`,
      whitespace (line breaks included) is skipped and the rest of that line taken. */
  function KeyValue(text: string, key: string): (r: Option<string>)
    ensures r.Some? ==> '\n' !in r.value
  {
    var i := Find(text, key + ":", 0);
    if i == -1 then None else Some(RestOfLine(LStrip(text[i + |key| + 1..])))
  }

  /** `get_note_date_from_frontMatter`: the value of `dateProperty:` in the front
      matter read without its `*` characters; failing that the value of `created:`;
      failing that "". */
  function DateFromFrontMatter(frontMatter: string, dateProperty: string): (r: string)
    ensures IsStripped(r) && '\n' !in r
  {
    match KeyValue(ReplaceAll(frontMatter, "*", ""), dateProperty)
    case Some(v) => StripChars(v); Strip(v)
    case None =>
      match KeyValue(frontMatter, "created")
      case Some(v) => StripChars(v); Strip(v)
      case None => []
  }

  /** The line `key: value` at the start of a text yields the value. */
  lemma KeyValueAtStart(key: string, v: string, rest: string)
    requires v != [] && !IsSpace(v[0]) && '\n' !in v && (rest == [] || rest[0] == '\n')
    ensures KeyValue(key + ": " + v + rest, key) == Some(v)
  {
    KeyLineShape(key, v, rest);
    KeyValueAfterColon(key, v, rest);
  }

  lemma KeyLineShape(key: string, v: string, rest: string)
    ensures key + ": " + v + rest == (key + ":") + (" " + (v + rest))
  {
  }

  lemma KeyValueAfterColon(key: string, v: string, rest: string)
    requires v != [] && !IsSpace(v[0]) && '\n' !in v && (rest == [] || rest[0] == '\n')
    ensures KeyValue((key + ":") + (" " + (v + rest)), key) == Some(v)
  {
    var t := " " + (v + rest);
    KeyAtStart(key, t);
    KeyValueFound((key + ":") + t, key, 0);
    ValueAfterSpace(v, rest);
  }

  /** One space, then a value that does not start with whitespace, then the end of
      the line. */
  lemma ValueAfterSpace(v: string, rest: string)
    requires v != [] && !IsSpace(v[0]) && '\n' !in v && (rest == [] || rest[0] == '\n')
    ensures RestOfLine(LStrip(" " + (v + rest))) == v
  {
    LStripSpacePrefix(" ", v + rest);
    LStripNonSpace(v + rest);
    RestOfLineOf(v, rest);
  }

  lemma KeyValueFound(text: string, key: string, i: int)
    requires i != -1 && Find(text, key + ":", 0) == i
    ensures KeyValue(text, key) == Some(RestOfLine(LStrip(text[i + |key| + 1..])))
  {
  }

  lemma KeyAtStart(key: string, t: string)
    ensures Find((key + ":") + t, key + ":", 0) == 0
    ensures ((key + ":") + t)[|key| + 1..] == t
  {
    FindPrefix((key + ":") + t, key + ":");
  }

  lemma FindPrefix(s: string, p: string)
    requires |p| <= |s| && s[..|p|] == p
    ensures Find(s, p, 0) == 0
  {
  }

  lemma LStripNonSpace(s: string)
    requires s != [] && !IsSpace(s[0])
    ensures LStrip(s) == s
  {
  }

  /** Removing `*` from a line without any keeps the line and its line break. */
  lemma StarsRemovedAfter(a: string, rest: string)
    requires '*' !in a && (rest == [] || rest[0] == '\n')
    ensures var r := ReplaceAll(a + rest, "*", "");
      r == a + ReplaceAll(rest, "*", "") && (ReplaceAll(rest, "*", "") == [] || ReplaceAll(rest, "*", "")[0] == '\n')
  {
    ReplaceAllFreePrefix(a, rest, '*', "");
    if rest != [] {
      assert rest == [rest[0]] + rest[1..];
      ReplaceAllFreePrefix([rest[0]], rest[1..], '*', "");
    } else {
      NoOccurrence(rest, "*", "");
    }
  }

  /** The requested property wins over `created:`, whatever follows its line. */
  lemma DateFromProperty(dateProperty: string, v: string, rest: string)
    requires '*' !in dateProperty && '*' !in v
    requires v != [] && IsStripped(v) && '\n' !in v && (rest == [] || rest[0] == '\n')
    ensures DateFromFrontMatter(dateProperty + ": " + v + rest, dateProperty) == v
  {
    var a := dateProperty + ": " + v;
    assert '*' !in a;
    StarsRemovedAfter(a, rest);
    var rest2 := ReplaceAll(rest, "*", "");
    assert a + rest == dateProperty + ": " + v + rest;
    KeyValueAtStart(dateProperty, v, rest2);
    StripOfStripped(v);
  }

  /** Without the requested property, the `created:` value is the date. */
  lemma DateFromCreated(dateProperty: string, c: string, rest: string)
    requires '*' !in c && '*' !in rest
    requires !Contains("created: " + c + rest, dateProperty + ":")
    requires c != [] && IsStripped(c) && '\n' !in c && (rest == [] || rest[0] == '\n')
    ensures DateFromFrontMatter("created: " + c + rest, dateProperty) == c
  {
    var fm := "created: " + c + rest;
    assert fm == "created" + ": " + c + rest;
    StarFree(fm);
    assert KeyValue(fm, dateProperty) == None;
    KeyValueAtStart("created", c, rest);
    StripOfStripped(c);
  }

  lemma StarFree(s: string)
    requires '*' !in s
    ensures ReplaceAll(s, "*", "") == s
  {
    NotContainsFirstChar(s, "*");
    NoOccurrence(s, "*", "");
  }

  /** Without the property and without `created:`, the date is "". */
  lemma DateAbsent(frontMatter: string, dateProperty: string)
    requires !Contains(ReplaceAll(frontMatter, "*", ""), dateProperty + ":")
    requires !Contains(frontMatter, "created:")
    ensures DateFromFrontMatter(frontMatter, dateProperty) == []
  {
    assert "created" + ":" == "created:";
    assert KeyValue(ReplaceAll(frontMatter, "*", ""), dateProperty) == None;
    assert KeyValue(frontMatter, "created") == None;
  }

  // ---------------------------------------------------------------------------
  // Tags

  /** A character of `\w`, ASCII only. */
  predicate IsWordChar(c: char) {
    ('a' <= c <= 'z') || ('A' <= c <= 'Z') || ('0' <= c <= '9') || c == '_'
  }

  predicate IsWord(w: string) {
    w != [] && forall k :: 0 <= k < |w| ==> IsWordChar(w[k])
  }

  /** The end of the longest run of word characters starting at `j`. */
  function WordEnd(s: string, j: nat): (r: nat)
    requires j <= |s|
    ensures j <= r <= |s|
    ensures forall k :: j <= k < r ==> IsWordChar(s[k])
    ensures r == |s| || !IsWordChar(s[r])
    decreases |s| - j
  {
    if j < |s| && IsWordChar(s[j]) then WordEnd(s, j + 1) else j
  }

  /** `re.findall(r"#(\w+)", s[i:])`: scanning left to right, a `#` followed by word
      characters yields the longest such run and the scan resumes after it. */
  function InlineTags(s: string, i: nat): (r: seq<string>)
    requires i <= |s|
    ensures forall k :: 0 <= k < |r| ==> IsWord(r[k])
    decreases |s| - i
  {
    if i + 1 >= |s| then []
    else if s[i] == '#' && IsWordChar(s[i + 1]) then
      var e := WordEnd(s, i + 1);
      var w := s[i + 1..e];
      assert forall k :: 0 <= k < |w| ==> w[k] == s[i + 1 + k];
      [w] + InlineTags(s, e)
    else InlineTags(s, i + 1)
  }

  /** Each `#word` that is not inside an earlier match is found in full. */
  lemma InlineTagFound(pre: string, w: string, post: string)
    requires IsWord(w) && (post == [] || !IsWordChar(post[0]))
    ensures w in InlineTags(pre + "#" + w + post, 0)
  {
    InlineTagReached(pre + "#" + w + post, |pre|, w, 0);
  }

  lemma {:induction false} InlineTagReached(s: string, at: nat, w: string, i: nat)
    requires IsWord(w) && i <= at && at + 1 + |w| <= |s|
    requires s[at] == '#' && s[at + 1..at + 1 + |w|] == w
    requires at + 1 + |w| == |s| || !IsWordChar(s[at + 1 + |w|])
    ensures w in InlineTags(s, i)
    decreases at - i
  {
    assert s[at + 1] == w[0];
    if i == at {
      WordEndAt(s, at + 1, w);
    } else if s[i] == '#' && IsWordChar(s[i + 1]) {
      var e := WordEnd(s, i + 1);
      assert !IsWordChar(s[at]);
      InlineTagReached(s, at, w, e);
    } else {
      InlineTagReached(s, at, w, i + 1);
    }
  }

  lemma WordEndAt(s: string, j: nat, w: string)
    requires IsWord(w) && j + |w| <= |s| && s[j..j + |w|] == w
    requires j + |w| == |s| || !IsWordChar(s[j + |w|])
    ensures WordEnd(s, j) == j + |w|
  {
    forall m | j <= m < j + |w| ensures IsWordChar(s[m]) {
      assert s[m] == w[m - j];
    }
  }

  /** The front-matter tag items: stripped, non-empty, without `:`. */
  function KeptTags(pieces: seq<string>): (r: seq<string>)
    ensures |r| <= |pieces|
    ensures forall i :: 0 <= i < |r| ==> r[i] != [] && IsStripped(r[i]) && ':' !in r[i]
  {
    if pieces == [] then []
    else
      var t := Strip(pieces[0]);
      (if t != [] && ':' !in t then [t] else []) + KeptTags(pieces[1..])
  }

  /** The `tags:` value of the first `tags:` anywhere in the note, stripped. */
  function TagsValue(note: string): (r: string)
    ensures IsStripped(r)
  {
    match KeyValue(note, "tags")
    case Some(v) => Strip(v)
    case None => []
  }

  /** The items of the `tags:` value, with every `#` read as a separating comma. */
  function TagPieces(note: string): (pieces: seq<string>)
    ensures forall i :: 0 <= i < |pieces| ==> '#' !in pieces[i] && ',' !in pieces[i]
  {
    var raw := ReplaceAll(TagsValue(note), "#", ",");
    ReplaceAllRemoves(TagsValue(note), '#', ",");
    SplitAvoids(raw, ',', '#');
    Split(raw, ',')
  }

  /** The front-matter tags: kept items of the `tags:` value. */
  function FrontMatterTags(note: string): (r: seq<string>)
    ensures forall i :: 0 <= i < |r| ==> r[i] != [] && ':' !in r[i] && '#' !in r[i] && ',' !in r[i]
  {
    KeptTagsAvoid(TagPieces(note), '#');
    KeptTagsAvoid(TagPieces(note), ',');
    KeptTags(TagPieces(note))
  }

  lemma {:induction false} KeptTagsAvoid(pieces: seq<string>, x: char)
    requires forall i :: 0 <= i < |pieces| ==> x !in pieces[i]
    ensures forall i :: 0 <= i < |KeptTags(pieces)| ==> x !in KeptTags(pieces)[i]
  {
    if pieces != [] {
      KeptTagsAvoid(pieces[1..], x);
      StripChars(pieces[0]);
    }
  }

  lemma {:induction false} KeptTagsSnoc(pieces: seq<string>, p: string)
    ensures KeptTags(pieces + [p]) == KeptTags(pieces) + KeptTags([p])
  {
    if pieces != [] {
      assert (pieces + [p])[1..] == pieces[1..] + [p];
      KeptTagsSnoc(pieces[1..], p);
    } else {
      assert pieces + [p] == [p];
    }
  }

  /** The items of a list, as a set. */
  function SetOf(xs: seq<string>): set<string> {
    set t | t in xs
  }

  lemma SetOfAppend(a: seq<string>, b: seq<string>)
    ensures SetOf(a + b) == SetOf(a) + SetOf(b)
  {
    assert forall t :: t in a + b <==> t in a || t in b;
  }

  lemma KeptTagsOne(p: string)
    ensures KeptTags([p]) == (var t := Strip(p); if t != [] && ':' !in t then [t] else [])
  {
    assert [p][1..] == [];
  }

  lemma SetOfOne(x: string)
    ensures SetOf([x]) == {x}
  {
    assert forall t :: t in [x] <==> t == x;
  }

  lemma SetOfKeptOne(p: string)
    ensures SetOf(KeptTags([p])) == (var t := Strip(p); if t != [] && ':' !in t then {t} else {})
  {
    KeptTagsOne(p);
    SetOfOne(Strip(p));
    assert SetOf([]) == {};
  }

  lemma KeptTagsPrefix(pieces: seq<string>, i: nat)
    requires i < |pieces|
    ensures KeptTags(pieces[..i + 1]) == KeptTags(pieces[..i]) + KeptTags([pieces[i]])
  {
    assert pieces[..i + 1] == pieces[..i] + [pieces[i]];
    KeptTagsSnoc(pieces[..i], pieces[i]);
  }

  /** One more item of the `tags:` value adds its kept form, if any, to the set. */
  lemma KeptTagsStep(pieces: seq<string>, i: nat)
    requires i < |pieces|
    ensures SetOf(KeptTags(pieces[..i + 1])) ==
      SetOf(KeptTags(pieces[..i])) + (var t := Strip(pieces[i]); if t != [] && ':' !in t then {t} else {})
  {
    KeptTagsPrefix(pieces, i);
    SetOfAppend(KeptTags(pieces[..i]), KeptTags([pieces[i]]));
    SetOfKeptOne(pieces[i]);
  }

  /** `list(set(...))` of `get_tags_from_Text`: the front-matter items and the inline
      `#word` tags of the whole note; a tag is never empty and never holds `:` or `#`.
      An inline match is a run of word characters, so the source's `strip()` and
      leading-`#` removal on it change nothing (`WordStripped`). */
  method TagsFromText(note: string) returns (tags: set<string>)
    ensures tags == SetOf(FrontMatterTags(note)) + SetOf(InlineTags(note, 0))
    ensures forall t :: t in tags ==> t != [] && ':' !in t && '#' !in t
  {
    tags := CollectFrontTags(TagPieces(note));
    tags := CollectInlineTags(tags, InlineTags(note, 0));
    InlineTagsClean(InlineTags(note, 0));
    FrontTagsClean(note);
  }

  /** The first loop: each item of the `tags:` value, stripped, unless empty or holding `:`. */
  method CollectFrontTags(pieces: seq<string>) returns (tags: set<string>)
    ensures tags == SetOf(KeptTags(pieces))
  {
    tags := {};
    assert SetOf([]) == {};
    for i := 0 to |pieces|
      invariant tags == SetOf(KeptTags(pieces[..i]))
    {
      var t := Strip(pieces[i]);
      KeptTagsStep(pieces, i);
      if t != [] && ':' !in t {
        tags := tags + {t};
      }
    }
    assert pieces[..|pieces|] == pieces;
  }

  /** The second loop: every inline match joins the set. */
  method CollectInlineTags(front: set<string>, inline: seq<string>) returns (tags: set<string>)
    ensures tags == front + SetOf(inline)
  {
    tags := front;
    for i := 0 to |inline|
      invariant tags == front + SetOf(inline[..i])
    {
      SetOfAppend(inline[..i], [inline[i]]);
      SetOfOne(inline[i]);
      assert inline[..i + 1] == inline[..i] + [inline[i]];
      tags := tags + {inline[i]};
    }
    assert inline[..|inline|] == inline;
  }

  lemma FrontTagsClean(note: string)
    ensures forall t :: t in SetOf(FrontMatterTags(note)) ==> t != [] && ':' !in t && '#' !in t
  {
    var r := FrontMatterTags(note);
    forall t | t in SetOf(r)
      ensures t != [] && ':' !in t && '#' !in t
    {
      var k :| 0 <= k < |r| && r[k] == t;
    }
  }

  lemma InlineTagsClean(inline: seq<string>)
    requires forall k :: 0 <= k < |inline| ==> IsWord(inline[k])
    ensures forall t :: t in SetOf(inline) ==> t != [] && ':' !in t && '#' !in t
  {
    forall t | t in SetOf(inline)
      ensures t != [] && ':' !in t && '#' !in t
    {
      var k :| 0 <= k < |inline| && inline[k] == t;
      assert IsWord(inline[k]);
    }
  }

  /** The source's clean-up of an inline tag leaves a run of word characters as it is. */
  lemma WordStripped(w: string)
    requires IsWord(w)
    ensures Strip(w) == w && !StartsWith(w, "#")
  {
    assert IsWordChar(w[0]) && IsWordChar(w[|w| - 1]);
    StripOfStripped(w);
  }

  /** The tags as the tools write them on one front-matter line are read back in
      order; with no item at all, `tags:` would take the next line instead. */
  lemma FrontMatterTagsOfLine(tags: seq<string>, rest: string)
    requires tags != []
    requires forall i :: 0 <= i < |tags| ==> IsKeyword(tags[i]) && ':' !in tags[i] && '#' !in tags[i]
    requires rest == [] || rest[0] == '\n'
    ensures FrontMatterTags("tags: " + Join(tags, ", ") + rest) == tags
  {
    var note := "tags: " + Join(tags, ", ") + rest;
    TagsValueOfLine(tags, rest);
    TagPiecesOfLine(note, tags);
    SplitKeywords(tags);
    KeptTagsAsKeywords(Split(Join(tags, ", "), ','), tags);
  }

  lemma TagsValueOfLine(tags: seq<string>, rest: string)
    requires tags != []
    requires forall i :: 0 <= i < |tags| ==> IsKeyword(tags[i])
    requires rest == [] || rest[0] == '\n'
    ensures TagsValue("tags: " + Join(tags, ", ") + rest) == Join(tags, ", ")
  {
    var j := Join(tags, ", ");
    JoinedKeywords(tags);
    TagsLineShape(j, rest);
    KeyValueAtStart("tags", j, rest);
    StripOfStripped(j);
  }

  lemma TagsLineShape(j: string, rest: string)
    ensures "tags: " + j + rest == "tags" + ": " + j + rest
  {
  }

  /** Joined keywords form one stripped, non-empty line. */
  lemma JoinedKeywords(keywords: seq<string>)
    requires keywords != []
    requires forall i :: 0 <= i < |keywords| ==> IsKeyword(keywords[i])
    ensures var j := Join(keywords, ", "); j != [] && !IsSpace(j[0]) && '\n' !in j && IsStripped(j)
  {
    var j := Join(keywords, ", ");
    JoinNoNewline(keywords);
    JoinStripped(keywords);
    JoinEnds(keywords);
    assert IsKeyword(keywords[0]);
    assert j[0] == j[..|keywords[0]|][0];
  }

  lemma TagPiecesOfLine(note: string, tags: seq<string>)
    requires forall i :: 0 <= i < |tags| ==> '#' !in tags[i]
    requires TagsValue(note) == Join(tags, ", ")
    ensures TagPieces(note) == Split(Join(tags, ", "), ',')
  {
    JoinAvoids(tags, '#');
    CharFree(Join(tags, ", "), '#', ",");
  }

  lemma CharFree(s: string, c: char, r: string)
    requires c !in s
    ensures ReplaceAll(s, [c], r) == s
  {
    NotContainsFirstChar(s, [c]);
    NoOccurrence(s, [c], r);
  }

  lemma {:induction false} JoinAvoids(parts: seq<string>, x: char)
    requires x != ',' && x != ' '
    requires forall i :: 0 <= i < |parts| ==> x !in parts[i]
    ensures x !in Join(parts, ", ")
  {
    if |parts| > 1 {
      JoinAvoids(parts[1..], x);
      assert Join(parts, ", ") == parts[0] + ", " + Join(parts[1..], ", ");
    }
  }

  /** Items that carry no `:` are kept exactly as `NonEmptyStripped` keeps them. */
  lemma {:induction false} KeptTagsAsKeywords(pieces: seq<string>, kept: seq<string>)
    requires forall i :: 0 <= i < |pieces| ==> ',' !in pieces[i]
    requires NonEmptyStripped(pieces, ',') == kept
    requires forall i :: 0 <= i < |kept| ==> ':' !in kept[i]
    ensures KeptTags(pieces) == kept
  {
    if pieces != [] {
      var t := Strip(pieces[0]);
      if t == [] {
        KeptTagsAsKeywords(pieces[1..], kept);
      } else {
        NonEmptyStrippedCons(pieces, ',');
        assert kept[0] == t;
        KeptTagsAsKeywords(pieces[1..], kept[1..]);
      }
    }
  }

  // ---------------------------------------------------------------------------
  // Sections

  /** The lines `get_sectionValue_from_noteBody` keeps, each stripped and ended with
      "\n": from the line after one starting with `marker` up to the next line
      holding "# ". A line starting with `marker` is skipped, even inside the section. */
  function SectionText(lines: seq<string>, marker: string, found: bool): string
  {
    if lines == [] then []
    else if StartsWith(lines[0], marker) then SectionText(lines[1..], marker, true)
    else if !found then SectionText(lines[1..], marker, false)
    else if Contains(lines[0], "# ") then []
    else Strip(lines[0]) + "\n" + SectionText(lines[1..], marker, true)
  }

  /** `get_sectionValue_from_noteBody`: the loop over the lines of the body, with the
      `sectionFound` flag and the early exit at the next header. */
  method SectionValueFromBody(valueLabel: string, body: string) returns (r: string)
    ensures r == SectionText(SplitLines(body), "# " + valueLabel, false)
  {
    var lines := SplitLines(body);
    var marker := "# " + valueLabel;
    r := [];
    var found := false;
    var i := 0;
    while i < |lines|
      invariant 0 <= i <= |lines|
      invariant r + SectionText(lines[i..], marker, found) == SectionText(lines, marker, false)
    {
      var line := lines[i];
      SectionStep(lines, i, marker, found);
      if StartsWith(line, marker) {
        found := true;
        i := i + 1;
        continue;
      }
      if found {
        if Contains(line, "# ") {
          assert r + [] == r;
          break;
        }
        var kept := Strip(line) + "\n";
        Regroup(r, kept, SectionText(lines[i + 1..], marker, true));
        r := r + kept;
      }
      i := i + 1;
    }
    if i == |lines| {
      assert r + [] == r;
    }
  }

  /** One line of `SectionText`. */
  lemma SectionStep(lines: seq<string>, i: nat, marker: string, found: bool)
    requires i < |lines|
    ensures SectionText(lines[i..], marker, found) ==
      if StartsWith(lines[i], marker) then SectionText(lines[i + 1..], marker, true)
      else if !found then SectionText(lines[i + 1..], marker, false)
      else if Contains(lines[i], "# ") then []
      else Strip(lines[i]) + "\n" + SectionText(lines[i + 1..], marker, true)
  {
    assert lines[i..][0] == lines[i];
    assert lines[i..][1..] == lines[i + 1..];
  }

  /** Without a line starting with the header, the section is empty. */
  lemma {:induction false} SectionAbsent(lines: seq<string>, marker: string)
    requires forall i :: 0 <= i < |lines| ==> !StartsWith(lines[i], marker)
    ensures SectionText(lines, marker, false) == []
  {
    if lines != [] {
      SectionAbsent(lines[1..], marker);
    }
  }

  /** Lines before the header do not count. */
  lemma {:induction false} SectionSkip(pre: seq<string>, rest: seq<string>, marker: string)
    requires forall i :: 0 <= i < |pre| ==> !StartsWith(pre[i], marker)
    ensures SectionText(pre + rest, marker, false) == SectionText(rest, marker, false)
  {
    if pre != [] {
      assert (pre + rest)[0] == pre[0];
      assert (pre + rest)[1..] == pre[1..] + rest;
      SectionSkip(pre[1..], rest, marker);
    } else {
      assert pre + rest == rest;
    }
  }

  /** A line starting with "# " and more holds "# ". */
  lemma HeaderHolds(line: string, heading: string)
    requires StartsWith(line, "# " + heading)
    ensures Contains(line, "# ")
  {
    assert line[..2] == ("# " + heading)[..2] == "# ";
    ContainsAt(line, "# ", 0);
  }

  /** Inside the section, the plain lines are kept up to the next header or the end. */
  lemma {:induction false} SectionItems(items: seq<string>, post: seq<string>, heading: string)
    requires forall i :: 0 <= i < |items| ==> IsStripped(items[i]) && !Contains(items[i], "# ")
    requires post == [] || (Contains(post[0], "# ") && !StartsWith(post[0], "# " + heading))
    ensures SectionText(items + post, "# " + heading, true) == Unlines(items)
  {
    if items == [] {
      assert items + post == post;
      if post != [] {
      }
    } else {
      var line := items[0];
      if StartsWith(line, "# " + heading) {
        HeaderHolds(line, heading);
      }
      assert (items + post)[1..] == items[1..] + post;
      SectionItems(items[1..], post, heading);
      StripOfStripped(line);
    }
  }

  /** A section written as a header line, its plain lines and the next header is read
      back as those lines, whatever comes before the header line. */
  lemma SectionOfLines(pre: seq<string>, heading: string, items: seq<string>, post: seq<string>)
    requires forall i :: 0 <= i < |pre| ==> !StartsWith(pre[i], "# " + heading)
    requires forall i :: 0 <= i < |items| ==> IsStripped(items[i]) && !Contains(items[i], "# ")
    requires post == [] || (Contains(post[0], "# ") && !StartsWith(post[0], "# " + heading))
    ensures SectionText(pre + ["# " + heading] + items + post, "# " + heading, false) == Unlines(items)
  {
    var marker := "# " + heading;
    assert pre + [marker] + items + post == pre + ([marker] + (items + post));
    SectionSkip(pre, [marker] + (items + post), marker);
    SectionAtHeader(marker, items + post);
    SectionItems(items, post, heading);
  }

  lemma SectionAtHeader(marker: string, tail: seq<string>)
    ensures SectionText([marker] + tail, marker, false) == SectionText(tail, marker, true)
  {
    assert StartsWith(marker, marker);
    assert ([marker] + tail)[1..] == tail;
  }

  /** The same for the body text itself, written one line per "\n". */
  lemma SectionOfBody(pre: seq<string>, heading: string, items: seq<string>, post: seq<string>)
    requires forall i :: 0 <= i < |pre| ==> !StartsWith(pre[i], "# " + heading)
    requires forall i :: 0 <= i < |items| ==> IsStripped(items[i]) && !Contains(items[i], "# ")
    requires post == [] || (Contains(post[0], "# ") && !StartsWith(post[0], "# " + heading))
    requires NoLineBreak(heading)
    requires forall i :: 0 <= i < |pre + items + post| ==> NoLineBreak((pre + items + post)[i])
    ensures SectionText(SplitLines(Unlines(pre + ["# " + heading] + items + post)), "# " + heading, false)
      == Unlines(items)
  {
    var marker := "# " + heading;
    var lines := pre + [marker] + items + post;
    MarkerNoLineBreak(heading);
    LinesInserted(pre, marker, items, post);
    SplitLinesUnlines(lines);
    SectionOfLines(pre, heading, items, post);
  }

  lemma MarkerNoLineBreak(heading: string)
    requires NoLineBreak(heading)
    ensures NoLineBreak("# " + heading)
  {
    var m := "# " + heading;
    forall k | 0 <= k < |m| ensures !IsLineBreak(m[k]) {
      if k >= 2 {
        assert m[k] == heading[k - 2];
      }
    }
  }

  /** Inserting a line without line breaks keeps every line free of them. */
  lemma LinesInserted(pre: seq<string>, marker: string, items: seq<string>, post: seq<string>)
    requires NoLineBreak(marker)
    requires forall i :: 0 <= i < |pre + items + post| ==> NoLineBreak((pre + items + post)[i])
    ensures forall i :: 0 <= i < |pre + [marker] + items + post| ==> NoLineBreak((pre + [marker] + items + post)[i])
  {
    var lines, rest := pre + [marker] + items + post, pre + items + post;
    forall i | 0 <= i < |lines|
      ensures NoLineBreak(lines[i])
    {
      if i < |pre| {
        assert lines[i] == rest[i];
      } else if i > |pre| {
        assert lines[i] == rest[i - 1];
      }
    }
  }

  // ---------------------------------------------------------------------------
  // Headers

  /** The header marks `remove_noteHeaders` deletes, longest first. */
  const Headers: seq<string> := ["###### ", "##### ", "#### ", "### ", "## ", "# "]

  /** Deleting every occurrence of each pattern in turn, first pattern first. */
  function DeleteEach(s: string, patterns: seq<string>): string
    requires forall i :: 0 <= i < |patterns| ==> patterns[i] != []
  {
    if patterns == [] then s
    else ReplaceAll(DeleteEach(s, patterns[..|patterns| - 1]), patterns[|patterns| - 1], [])
  }

  /** `remove_noteHeaders`: every header mark deleted, longest first, then stripped. */
  method RemoveNoteHeaders(body: string) returns (r: string)
    ensures r == Strip(DeleteEach(body, Headers))
  {
    var text := body;
    for i := 0 to |Headers|
      invariant text == DeleteEach(body, Headers[..i])
    {
      assert Headers[..i + 1][..i] == Headers[..i];
      text := ReplaceAll(text, Headers[i], []);
    }
    assert Headers[..|Headers|] == Headers;
    r := Strip(text);
  }

  /** Deleting adds no character. */
  lemma {:induction false} DeleteEachChars(s: string, patterns: seq<string>)
    requires forall i :: 0 <= i < |patterns| ==> patterns[i] != []
    ensures forall c :: c in DeleteEach(s, patterns) ==> c in s
  {
    if patterns != [] {
      var init := patterns[..|patterns| - 1];
      DeleteEachChars(s, init);
      ReplaceAllChars(DeleteEach(s, init), patterns[|patterns| - 1], []);
    }
  }

  /** Every character left after removing the headers was in the body. */
  lemma RemoveNoteHeadersChars(body: string)
    ensures forall c :: c in Strip(DeleteEach(body, Headers)) ==> c in body
  {
    DeleteEachChars(body, Headers);
    StripChars(DeleteEach(body, Headers));
  }

  /** Patterns that do not occur leave the text as it is. */
  lemma {:induction false} DeleteEachAbsent(s: string, patterns: seq<string>)
    requires forall i :: 0 <= i < |patterns| ==> patterns[i] != [] && !Contains(s, patterns[i])
    ensures DeleteEach(s, patterns) == s
  {
    if patterns != [] {
      DeleteEachAbsent(s, patterns[..|patterns| - 1]);
      NoOccurrence(s, patterns[|patterns| - 1], []);
    }
  }

  /** A text without `q` holds no text that has `q` inside it. */
  lemma InfixNotContains(s: string, p: string, q: string, j: nat)
    requires OccursAt(p, q, j) && !Contains(s, q)
    ensures !Contains(s, p)
  {
    ContainsInfix(s, p, q, j);
  }

  /** A text that holds `p` holds every infix of `p`. */
  lemma ContainsInfix(s: string, p: string, q: string, j: nat)
    requires OccursAt(p, q, j)
    ensures Contains(s, p) ==> Contains(s, q)
  {
    if Contains(s, p) {
      var i := Find(s, p, 0);
      assert s[i + j..i + j + |q|] == s[i..i + |p|][j..j + |q|];
      ContainsAt(s, q, i + j);
    }
  }

  /** A body without "# " keeps all its text: only surrounding whitespace goes. */
  lemma RemoveNoteHeadersPlain(body: string)
    requires !Contains(body, "# ")
    ensures Strip(DeleteEach(body, Headers)) == Strip(body)
  {
    forall i | 0 <= i < |Headers|
      ensures !Contains(body, Headers[i])
    {
      var h := Headers[i];
      assert OccursAt(h, "# ", |h| - 2);
      InfixNotContains(body, h, "# ", |h| - 2);
    }
    DeleteEachAbsent(body, Headers);
  }

  /** A top-level heading line loses its mark. */
  lemma RemoveNoteHeadersHeading(title: string)
    requires '#' !in title
    ensures Strip(DeleteEach("# " + title, Headers)) == Strip(title)
  {
    var body := "# " + title;
    LongerHeadersAbsent(title);
    assert Headers[|Headers| - 1] == "# ";
    assert DeleteEach(body, Headers) == ReplaceAll(DeleteEach(body, Headers[..|Headers| - 1]), "# ", []);
    HeadingMarkDeleted(title);
  }

  lemma LongerHeadersAbsent(title: string)
    requires '#' !in title
    ensures DeleteEach("# " + title, Headers[..|Headers| - 1]) == "# " + title
  {
    var body := "# " + title;
    var five := Headers[..|Headers| - 1];
    NoDoubleHash(title);
    forall i | 0 <= i < |five|
      ensures five[i] != [] && !Contains(body, five[i])
    {
      assert OccursAt(five[i], "##", 0);
      InfixNotContains(body, five[i], "##", 0);
    }
    DeleteEachAbsent(body, five);
  }

  lemma HeadingMarkDeleted(title: string)
    requires '#' !in title
    ensures ReplaceAll("# " + title, "# ", []) == title
  {
    var body := "# " + title;
    assert OccursAt(body, "# ", 0);
    ReplaceAllAt(body, "# ", [], 0);
    assert body[2..] == title;
    NotContainsFirstChar(title, "# ");
    NoOccurrence(title, "# ", []);
  }

  lemma NoDoubleHash(title: string)
    requires '#' !in title
    ensures !Contains("# " + title, "##")
  {
    HashesInTitle(title);
  }

  lemma HashesInTitle(title: string)
    ensures Contains("# " + title, "##") ==> '#' in title
  {
    var body := "# " + title;
    if Contains(body, "##") {
      var k := Find(body, "##", 0);
      assert body[k..k + 2] == "##";
      assert body[k + 1] == '#';
      assert body[1] == ' ';
      assert body[k + 1] == title[k - 1];
    }
  }
}

/** The helpers of `_library/Tools.py`: title sanitising, Obsidian URI encoding,
    project tags, unique note identifiers, the module's own front-matter and body
    readers, and decimal parsing. */
module Tools {
  import opened Wrappers
  import opened Text
  import opened Decimals
  import opened Notes
  import opened NoteRecords

  // ---------------------------------------------------------------------------
  // Title sanitising

  /** A character the class `[A-Za-z0-9_\s]` admits. */
  predicate IsTitleChar(c: char) {
    ('A' <= c <= 'Z') || ('a' <= c <= 'z') || ('0' <= c <= '9') || c == '_' || IsSpace(c)
  }

  /** `re.sub(r'[^A-Za-z0-9_\s]', '', s)`: the admitted characters, in order. */
  function TitleChars(s: string): (r: string)
    ensures |r| <= |s|
    ensures forall i :: 0 <= i < |r| ==> IsTitleChar(r[i])
  {
    if s == [] then []
    else (if IsTitleChar(s[0]) then [s[0]] else []) + TitleChars(s[1..])
  }

  /** `a` is what remains of `b` after deleting some of its characters. */
  predicate IsSubsequence(a: string, b: string)
    decreases |b|
  {
    if a == [] then true
    else if b == [] then false
    else if a[0] == b[0] then IsSubsequence(a[1..], b[1..])
    else IsSubsequence(a, b[1..])
  }

  /** `letters_and_numbers_only(s, maxLength)`: the admitted characters of `s`, cut
      to `maxLength`. The result only holds admitted characters, is no longer than
      `maxLength` and is a subsequence of `s`. */
  function LettersAndNumbersOnly(s: string, maxLength: nat): (r: string)
    ensures |r| <= maxLength
    ensures forall i :: 0 <= i < |r| ==> IsTitleChar(r[i])
    ensures IsSubsequence(r, s)
  {
    var kept := TitleChars(s);
    var n := if |kept| <= maxLength then |kept| else maxLength;
    TitleCharsSubsequence(s);
    SubsequencePrefix(kept, s, n);
    kept[..n]
  }

  lemma {:induction false} TitleCharsSubsequence(s: string)
    ensures IsSubsequence(TitleChars(s), s)
    decreases |s|
  {
    if s != [] {
      TitleCharsSubsequence(s[1..]);
      var rest := TitleChars(s[1..]);
      if IsTitleChar(s[0]) {
        assert TitleChars(s) == [s[0]] + rest;
        assert ([s[0]] + rest)[1..] == rest;
      } else {
        assert TitleChars(s) == [] + rest == rest;
        if rest != [] {
          assert rest[0] != s[0];
        }
      }
    }
  }

  /** A prefix of a subsequence is a subsequence. */
  lemma {:induction false} SubsequencePrefix(a: string, b: string, n: nat)
    requires IsSubsequence(a, b) && n <= |a|
    ensures IsSubsequence(a[..n], b)
    decreases |b|
  {
    if n > 0 {
      assert a[..n][0] == a[0];
      if a[0] == b[0] {
        SubsequencePrefix(a[1..], b[1..], n - 1);
        assert a[..n][1..] == a[1..][..n - 1];
      } else {
        SubsequencePrefix(a, b[1..], n);
      }
    }
  }

  /** Admitted characters are all kept. */
  lemma {:induction false} TitleCharsOfAdmitted(s: string)
    requires forall i :: 0 <= i < |s| ==> IsTitleChar(s[i])
    ensures TitleChars(s) == s
    decreases |s|
  {
    if s != [] {
      TitleCharsOfAdmitted(s[1..]);
      assert s == [s[0]] + s[1..];
    }
  }

  /** Sanitising twice is sanitising once with the smaller limit; in particular the
      function is idempotent. */
  lemma LettersAndNumbersOnlyTwice(s: string, m: nat, n: nat)
    ensures LettersAndNumbersOnly(LettersAndNumbersOnly(s, m), n)
      == LettersAndNumbersOnly(s, if m <= n then m else n)
  {
    var r := LettersAndNumbersOnly(s, m);
    TitleCharsOfAdmitted(r);
  }

  // ---------------------------------------------------------------------------
  // Obsidian URI encoding

  /** `obsidian_Encode_for_URI`: spaces, `#`, `:` and `/` are percent-escaped, and
      then every `%` (those of the new escapes included) becomes `%25`. */
  function EncodeForUri(s: string): string {
    ReplaceAll(ReplaceAll(ReplaceAll(ReplaceAll(ReplaceAll(s, " ", "%20"), "#", "%23"), ":", "%3A"), "/", "%2F"), "%", "%25")
  }

  /** What the chain of replacements makes of a single character. */
  function EncodedChar(c: char): string {
    if c == ' ' then "%2520"
    else if c == '#' then "%2523"
    else if c == ':' then "%253A"
    else if c == '/' then "%252F"
    else if c == '%' then "%25"
    else [c]
  }

  /** The encoding, character by character. */
  function EncodeEach(s: string): string
    decreases |s|
  {
    if s == [] then [] else EncodedChar(s[0]) + EncodeEach(s[1..])
  }

  /** The first four replacements, as substitutions. */
  function EscapeSpecials(s: string): string {
    SubstChar(SubstChar(SubstChar(SubstChar(s, ' ', "%20"), '#', "%23"), ':', "%3A"), '/', "%2F")
  }

  /** The whole chain, as substitutions. */
  function EncodeSteps(s: string): string {
    SubstChar(EscapeSpecials(s), '%', "%25")
  }

  lemma EncodeStepsAppend(a: string, b: string)
    ensures EncodeSteps(a + b) == EncodeSteps(a) + EncodeSteps(b)
  {
    var a1, b1 := SubstChar(a, ' ', "%20"), SubstChar(b, ' ', "%20");
    SubstCharAppend(a, b, ' ', "%20");
    var a2, b2 := SubstChar(a1, '#', "%23"), SubstChar(b1, '#', "%23");
    SubstCharAppend(a1, b1, '#', "%23");
    var a3, b3 := SubstChar(a2, ':', "%3A"), SubstChar(b2, ':', "%3A");
    SubstCharAppend(a2, b2, ':', "%3A");
    var a4, b4 := SubstChar(a3, '/', "%2F"), SubstChar(b3, '/', "%2F");
    SubstCharAppend(a3, b3, '/', "%2F");
    SubstCharAppend(a4, b4, '%', "%25");
  }

  /** A text free of the five special characters passes a substitution unchanged. */
  lemma {:induction false} SubstCharAbsent(s: string, c: char, r: string)
    requires c !in s
    ensures SubstChar(s, c, r) == s
    decreases |s|
  {
    if s != [] {
      SubstCharAbsent(s[1..], c, r);
      assert s == [s[0]] + s[1..];
    }
  }

  lemma EncodeStepsChar(c: char)
    ensures EncodeSteps([c]) == EncodedChar(c)
  {
    if c == ' ' {
      EscapedSpecial(c, "20");
      PercentLast("20");
    } else if c == '#' {
      EscapedSpecial(c, "23");
      PercentLast("23");
    } else if c == ':' {
      EscapedSpecial(c, "3A");
      PercentLast("3A");
    } else if c == '/' {
      EscapedSpecial(c, "2F");
      PercentLast("2F");
    } else {
      EscapedPlain(c);
      if c == '%' {
        PercentLast([]);
        assert "%" + [] == [c];
      } else {
        SubstOne(c, '%', "%25");
      }
    }
  }

  /** Each of the four special characters becomes its escape. */
  lemma EscapedSpecial(c: char, hex: string)
    requires (c == ' ' && hex == "20") || (c == '#' && hex == "23") || (c == ':' && hex == "3A") || (c == '/' && hex == "2F")
    ensures EscapeSpecials([c]) == "%" + hex
  {
    var e := "%" + hex;
    SubstOne(c, ' ', "%20");
    if c == ' ' {
      SubstCharAbsent(e, '#', "%23");
      SubstCharAbsent(e, ':', "%3A");
      SubstCharAbsent(e, '/', "%2F");
    } else {
      SubstOne(c, '#', "%23");
      if c == '#' {
        SubstCharAbsent(e, ':', "%3A");
        SubstCharAbsent(e, '/', "%2F");
      } else {
        SubstOne(c, ':', "%3A");
        if c == ':' {
          SubstCharAbsent(e, '/', "%2F");
        } else {
          SubstOne(c, '/', "%2F");
        }
      }
    }
  }

  /** Any other character passes the four replacements unchanged. */
  lemma EscapedPlain(c: char)
    requires c != ' ' && c != '#' && c != ':' && c != '/'
    ensures EscapeSpecials([c]) == [c]
  {
    SubstOne(c, ' ', "%20");
    SubstOne(c, '#', "%23");
    SubstOne(c, ':', "%3A");
    SubstOne(c, '/', "%2F");
  }

  /** The last substitution escapes the leading `%` of an escape again. */
  lemma PercentLast(d: string)
    requires '%' !in d
    ensures SubstChar("%" + d, '%', "%25") == "%25" + d
  {
    SubstCharAppend("%", d, '%', "%25");
    assert SubstChar("%", '%', "%25") == "%25" + SubstChar([], '%', "%25");
    SubstCharAbsent(d, '%', "%25");
  }

  lemma SubstOne(x: char, c: char, r: string)
    ensures SubstChar([x], c, r) == if x == c then r else [x]
  {
    assert [x][1..] == [];
  }

  /** The replacement chain is the character-by-character encoding. */
  lemma {:induction false} EncodeForUriEach(s: string)
    ensures EncodeForUri(s) == EncodeEach(s)
  {
    ReplaceAllIsSubst(s, ' ', "%20");
    var t := SubstChar(s, ' ', "%20");
    ReplaceAllIsSubst(t, '#', "%23");
    t := SubstChar(t, '#', "%23");
    ReplaceAllIsSubst(t, ':', "%3A");
    t := SubstChar(t, ':', "%3A");
    ReplaceAllIsSubst(t, '/', "%2F");
    t := SubstChar(t, '/', "%2F");
    ReplaceAllIsSubst(t, '%', "%25");
    EncodeStepsEach(s);
  }

  lemma {:induction false} EncodeStepsEach(s: string)
    ensures EncodeSteps(s) == EncodeEach(s)
    decreases |s|
  {
    if s == [] {
      assert EscapeSpecials(s) == [];
    } else {
      EncodeStepsEach(s[1..]);
      assert s == [s[0]] + s[1..];
      EncodeStepsAppend([s[0]], s[1..]);
      EncodeStepsChar(s[0]);
    }
  }

  /** Every `%` is followed by `25`. */
  predicate PercentEscaped(s: string) {
    forall i :: 0 <= i < |s| && s[i] == '%' ==> i + 2 < |s| && s[i + 1] == '2' && s[i + 2] == '5'
  }

  /** The encoded text holds no space, `#`, `:` or `/`, and each `%` in it starts a
      `%25`. */
  lemma EncodeForUriShape(s: string)
    ensures ' ' !in EncodeForUri(s) && '#' !in EncodeForUri(s)
    ensures ':' !in EncodeForUri(s) && '/' !in EncodeForUri(s)
    ensures PercentEscaped(EncodeForUri(s))
  {
    EncodeForUriEach(s);
    EncodeEachShape(s);
  }

  lemma {:induction false} EncodeEachShape(s: string)
    ensures Encoded(EncodeEach(s))
    decreases |s|
  {
    if s != [] {
      EncodeEachShape(s[1..]);
      EncodedCharShape(s[0]);
      EncodedAppend(EncodedChar(s[0]), EncodeEach(s[1..]));
    }
  }

  /** No space, `#`, `:` or `/`, and every `%` followed by `25`. */
  predicate Encoded(s: string) {
    ' ' !in s && '#' !in s && ':' !in s && '/' !in s && PercentEscaped(s)
  }

  lemma EncodedAppend(a: string, b: string)
    requires Encoded(a) && Encoded(b)
    ensures Encoded(a + b)
  {
    var s := a + b;
    forall i | 0 <= i < |s| && s[i] == '%' ensures i + 2 < |s| && s[i + 1] == '2' && s[i + 2] == '5' {
      if i < |a| {
        assert a[i] == '%';
      } else {
        assert b[i - |a|] == '%';
      }
    }
  }

  lemma EncodedCharShape(c: char)
    ensures Encoded(EncodedChar(c))
  {
    if c == ' ' {
      EscapedTwice("20");
    } else if c == '#' {
      EscapedTwice("23");
    } else if c == ':' {
      EscapedTwice("3A");
    } else if c == '/' {
      EscapedTwice("2F");
    } else if c == '%' {
      EscapedTwice([]);
      assert "%25" + [] == "%25";
    }
  }

  lemma EscapedTwice(d: string)
    requires d == [] || d == "20" || d == "23" || d == "3A" || d == "2F"
    ensures Encoded("%25" + d)
  {
    var s := "%25" + d;
    assert forall i :: 3 <= i < |s| ==> s[i] == d[i - 3];
  }

  /** A space comes out as `%2520`, which decodes to `%20`, not to a space. */
  lemma EncodeForUriDoubleEncodes()
    ensures EncodeForUri(" ") == "%2520"
    ensures PercentDecode(EncodeForUri(" ")) == "%20"
  {
    EncodeForUriEach(" ");
    assert EncodeEach(" ") == "%2520" + EncodeEach([]);
    DecodeSpaceEscape();
  }

  lemma DecodeSpaceEscape()
    ensures PercentDecode("%2520") == "%20"
  {
    var s := "%2520";
    assert s[3..] == "20";
    assert PercentDecode(s) == ['%'] + PercentDecode("20");
    assert PercentDecode("20") == "2" + PercentDecode("0");
    assert PercentDecode("0") == "0" + PercentDecode([]);
  }

  predicate IsHexDigit(c: char) {
    ('0' <= c <= '9') || ('A' <= c <= 'F') || ('a' <= c <= 'f')
  }

  function HexValue(c: char): nat
    requires IsHexDigit(c)
  {
    if '0' <= c <= '9' then c as nat - '0' as nat
    else if 'A' <= c <= 'F' then c as nat - 'A' as nat + 10
    else c as nat - 'a' as nat + 10
  }

  /** Percent-decoding as a URI reader applies it: each `%` followed by two
      hexadecimal digits stands for the character with that code. */
  function PercentDecode(s: string): string
    decreases |s|
  {
    if s == [] then []
    else if |s| >= 3 && s[0] == '%' && IsHexDigit(s[1]) && IsHexDigit(s[2]) then
      [(16 * HexValue(s[1]) + HexValue(s[2])) as char] + PercentDecode(s[3..])
    else [s[0]] + PercentDecode(s[1..])
  }

  /** The escape each special character should receive: what the chain computes
      when `%` is replaced first. */
  function IntendedChar(c: char): string {
    if c == '%' then "%25"
    else if c == ' ' then "%20"
    else if c == '#' then "%23"
    else if c == ':' then "%3A"
    else if c == '/' then "%2F"
    else [c]
  }

  /** The encoding with every special character escaped exactly once. */
  function EncodeForUriIntended(s: string): string
    decreases |s|
  {
    if s == [] then [] else IntendedChar(s[0]) + EncodeForUriIntended(s[1..])
  }

  /** Decoding the intended encoding gives the text back. */
  lemma {:induction false} EncodeForUriIntendedRoundTrip(s: string)
    ensures PercentDecode(EncodeForUriIntended(s)) == s
    decreases |s|
  {
    if s != [] {
      EncodeForUriIntendedRoundTrip(s[1..]);
      DecodePiece(s[0], EncodeForUriIntended(s[1..]));
      assert s == [s[0]] + s[1..];
    }
  }

  lemma DecodePiece(c: char, rest: string)
    ensures PercentDecode(IntendedChar(c) + rest) == [c] + PercentDecode(rest)
  {
    var t := IntendedChar(c) + rest;
    if |IntendedChar(c)| == 3 {
      assert t[3..] == rest;
    } else {
      assert t[1..] == rest;
    }
  }

  // ---------------------------------------------------------------------------
  // Project tags

  /** `generate_tag_from_projectName`: `p_` and the sanitised name with spaces as
      underscores and `&` as `and`, prefixed with `#` unless it already starts so. */
  function TagFromProjectName(projectName: string): (r: string)
    ensures StartsWith(r, "#p_") && ' ' !in r
  {
    var u := TagName(LettersAndNumbersOnly(projectName, 400));
    var tag := "p_" + u;
    PrefixedTag(u);
    if StartsWith(tag, "#") then tag else "#" + tag
  }

  /** The sanitised name with its spaces as underscores and `&` as `and`. */
  function TagName(name: string): (u: string)
    ensures ' ' !in u
  {
    ReplaceAllRemoves(name, ' ', "_");
    ReplaceAllChars(ReplaceAll(name, " ", "_"), "&", "and");
    ReplaceAll(ReplaceAll(name, " ", "_"), "&", "and")
  }

  /** `p_` never starts with `#`, so the prefix is always added. */
  lemma PrefixedTag(u: string)
    requires ' ' !in u
    ensures !StartsWith("p_" + u, "#")
    ensures StartsWith("#" + ("p_" + u), "#p_") && ' ' !in "#" + ("p_" + u)
  {
    StartsWithHeadNot("p_" + u, "#");
    assert ("#" + ("p_" + u))[..3] == "#p_";
  }

  /** The `#` test always adds the prefix and the `&` replacement never applies,
      because sanitising has removed every `&`: the tag is `#p_` and the sanitised
      name with its spaces as underscores. */
  lemma TagFromProjectNameShape(projectName: string)
    ensures TagFromProjectName(projectName)
      == "#p_" + SubstChar(LettersAndNumbersOnly(projectName, 400), ' ', "_")
  {
    var name := LettersAndNumbersOnly(projectName, 400);
    TagOfName(projectName, name);
    AmpersandFree(name);
    var hash, p := "#", "p_";
    assert hash + p == "#p_";
    Regroup(hash, p, TagName(name));
  }

  /** The tag is the name after `#` and `p_`. */
  lemma TagOfName(projectName: string, name: string)
    requires name == LettersAndNumbersOnly(projectName, 400)
    ensures TagFromProjectName(projectName) == "#" + ("p_" + TagName(name))
  {
    PrefixedTag(TagName(name));
  }

  /** Sanitised names hold no `&`, so its replacement leaves them alone. */
  lemma AmpersandFree(name: string)
    requires forall i :: 0 <= i < |name| ==> IsTitleChar(name[i])
    ensures TagName(name) == SubstChar(name, ' ', "_")
  {
    ReplaceAllIsSubst(name, ' ', "_");
    var u := SubstChar(name, ' ', "_");
    NoAmpersand(name);
    SubstCharChars(name, ' ', "_");
    assert '&' !in u;
    NotContainsFirstChar(u, "&");
    NoOccurrence(u, "&", "and");
  }

  lemma NoAmpersand(name: string)
    requires forall i :: 0 <= i < |name| ==> IsTitleChar(name[i])
    ensures '&' !in name
  {
  }

  lemma {:induction false} SubstCharChars(s: string, c: char, r: string)
    ensures forall x :: x in SubstChar(s, c, r) ==> (x in s && x != c) || x in r
    decreases |s|
  {
    if s != [] {
      SubstCharChars(s[1..], c, r);
    }
  }

  // ---------------------------------------------------------------------------
  // Unique identifiers

  /** The identifiers of the listed notes. */
  function NoteIds(notes: seq<NoteData>): set<string> {
    set i | 0 <= i < |notes| :: notes[i].id
  }

  /** `is_NewNote_identifier_unique`, against the notes the vault lists: no note has
      this identifier. */
  predicate IsNewNoteIdentifierUnique(noteIdentifier: string, notes: seq<NoteData>) {
    noteIdentifier !in NoteIds(notes)
  }

  /** Unique means that no listed note carries the identifier. */
  lemma UniqueMeansNoNoteHasIt(noteIdentifier: string, notes: seq<NoteData>)
    ensures IsNewNoteIdentifierUnique(noteIdentifier, notes) <==>
      forall i :: 0 <= i < |notes| ==> notes[i].id != noteIdentifier
  {
  }

  /** Only identifiers count: two note lists with the same identifiers, whatever
      their file names, give the same answer. */
  lemma UniqueByIdOnly(noteIdentifier: string, notes: seq<NoteData>, others: seq<NoteData>)
    requires |others| == |notes| && forall i :: 0 <= i < |notes| ==> others[i].id == notes[i].id
    ensures IsNewNoteIdentifierUnique(noteIdentifier, others) == IsNewNoteIdentifierUnique(noteIdentifier, notes)
  {
  }

  /** The identifier `{timestamp}_{type}_{title}`, the title reduced to at most 200
      letters, digits and spaces. */
  function Candidate(timestamp: string, noteType: string, title: string): string {
    timestamp + Suffix(noteType, title)
  }

  function Suffix(noteType: string, title: string): string {
    "_" + noteType + "_" + LettersAndNumbersOnly(title, 200)
  }

  /** The timestamp `m` seconds after `seconds`. */
  function Later(seconds: nat, m: nat): nat {
    seconds + m
  }

  /** Different timestamps give different candidates. */
  lemma CandidateStamp(timestamp: string, noteType: string, title: string)
    ensures var c := Candidate(timestamp, noteType, title);
      |Suffix(noteType, title)| <= |c| && c[..|c| - |Suffix(noteType, title)|] == timestamp
  {
  }

  /** A candidate tried earlier: its timestamp reads back as a second before `bound`. */
  predicate TriedBefore(x: string, suffix: string, parse: string -> Option<nat>, bound: nat) {
    |suffix| <= |x| && parse(x[..|x| - |suffix|]).Some? && parse(x[..|x| - |suffix|]).value < bound
  }

  /** `generate_unique_identifier`: the candidate for the given timestamp, or, while
      the candidate is taken, the candidate for the timestamp one second later.
      Timestamps are read with `parse` and written with `format` (`strptime` and
      `strftime` with the configured format, counting seconds); a timestamp that
      does not parse is a failure. `retries` counts the seconds added. */
  method GenerateUniqueIdentifier(timestampId: string, noteType: string, title: string, notes: seq<NoteData>,
      parse: string -> Option<nat>, format: nat -> string)
      returns (r: Result<string, string>, retries: nat)
    requires forall n: nat :: parse(format(n)) == Some(n)
    ensures IsNewNoteIdentifierUnique(Candidate(timestampId, noteType, title), notes) ==>
      r == Success(Candidate(timestampId, noteType, title)) && retries == 0
    ensures r.Failure? <==>
      !IsNewNoteIdentifierUnique(Candidate(timestampId, noteType, title), notes) && parse(timestampId).None?
    ensures r.Success? ==> IsNewNoteIdentifierUnique(r.value, notes)
    ensures r.Success? && retries == 0 ==> r.value == Candidate(timestampId, noteType, title)
    ensures r.Success? && retries > 0 ==>
      parse(timestampId).Some? &&
      r.value == Candidate(format(Later(parse(timestampId).value, retries)), noteType, title) &&
      forall m: nat :: 1 <= m < retries ==>
        !IsNewNoteIdentifierUnique(Candidate(format(Later(parse(timestampId).value, m)), noteType, title), notes)
  {
    var suffix := Suffix(noteType, title);
    var stamp := timestampId;
    var uniqueIdentifier := Candidate(stamp, noteType, title);
    retries := 0;
    ghost var tried: set<string> := {};
    while !IsNewNoteIdentifierUnique(uniqueIdentifier, notes)
      invariant uniqueIdentifier == Candidate(stamp, noteType, title)
      invariant retries == 0 ==> stamp == timestampId && tried == {}
      invariant retries > 0 ==> !IsNewNoteIdentifierUnique(Candidate(timestampId, noteType, title), notes)
      invariant retries > 0 ==> parse(timestampId).Some? && stamp == format(Later(parse(timestampId).value, retries))
      invariant retries > 0 ==> forall m: nat :: 1 <= m < retries ==>
        !IsNewNoteIdentifierUnique(Candidate(format(Later(parse(timestampId).value, m)), noteType, title), notes)
      invariant tried <= NoteIds(notes)
      invariant retries > 0 ==> forall x :: x in tried ==> TriedBefore(x, suffix, parse, Later(parse(timestampId).value, retries))
      invariant uniqueIdentifier !in tried
      decreases NoteIds(notes) - tried
    {
      match parse(stamp) {
        case None =>
          return Failure("time data does not match the timestamp format"), retries;
        case Some(seconds) =>
          ghost var start := if retries == 0 then seconds else parse(timestampId).value;
          assert parse(timestampId) == Some(start) && seconds == Later(start, retries);
          CandidateStamp(stamp, noteType, title);
          tried := tried + {uniqueIdentifier};
          stamp := format(seconds + 1);
          uniqueIdentifier := Candidate(stamp, noteType, title);
          retries := retries + 1;
          CandidateStamp(stamp, noteType, title);
          NotTriedYet(uniqueIdentifier, stamp, suffix, parse, tried, seconds + 1);
      }
    }
    return Success(uniqueIdentifier), retries;
  }

  lemma NotTriedYet(x: string, stamp: string, suffix: string, parse: string -> Option<nat>, tried: set<string>, bound: nat)
    requires |suffix| <= |x| && x[..|x| - |suffix|] == stamp && parse(stamp) == Some(bound)
    requires forall y :: y in tried ==> TriedBefore(y, suffix, parse, bound)
    ensures x !in tried
  {
  }

  // ---------------------------------------------------------------------------
  // Front matter and body, as `_library/Tools.py` reads them

  /** `get_note_frontMatter` of `_library/Tools.py`: only a note that opens with
      `---` and a line break has front matter, which runs, stripped, up to the first
      line break followed by `---`. */
  function FrontMatterAtStart(note: string): (fm: string)
    ensures IsStripped(fm)
    ensures !StartsWith(note, "---\n") ==> fm == []
  {
    if !StartsWith(note, "---\n") then []
    else
      var end := Find(note, "\n---", 4);
      if end == -1 then [] else Strip(note[4..end])
  }

  /** `get_note_body` of `_library/Tools.py`: the note without its front-matter
      block, stripped; when a `---` is left, only the stripped text after the first
      one. */
  function BodyOfNote(note: string): (r: string)
    ensures IsStripped(r)
  {
    AfterFirstMarker(Strip(ReplaceAll(note, Block(FrontMatterAtStart(note)), "")))
  }

  function AfterFirstMarker(body: string): (r: string)
    requires IsStripped(body)
    ensures IsStripped(r)
    ensures !Contains(body, "---") ==> r == body
  {
    var k := Find(body, "---", 0);
    if k == -1 then body else Strip(body[k + 3..])
  }

  /** Writing a note out and reading it back gives its front matter and its
      stripped body, when neither holds `---`. */
  lemma FrontMatterAtStartRoundTrip(fm: string, body: string)
    requires IsStripped(fm) && !Contains(fm, "---") && !Contains(body, "---")
    ensures FrontMatterAtStart(Compose(fm, body)) == fm
    ensures BodyOfNote(Compose(fm, body)) == Strip(body)
  {
    FrontMatterAtStartOfCompose(fm, body);
    BlockRemoved(fm, body);
    StrippedBody(body);
  }

  lemma FrontMatterAtStartOfCompose(fm: string, body: string)
    requires IsStripped(fm) && !Contains(fm, "---")
    ensures FrontMatterAtStart(Compose(fm, body)) == fm
  {
    OpensWithMarker(fm, body);
    ClosingLineAt(fm, body);
    assert Compose(fm, body)[4..4 + |fm|] == fm;
    StripOfStripped(fm);
  }

  /** What is left once the block is gone: the blank line and the body. */
  lemma StrippedBody(body: string)
    requires !Contains(body, "---")
    ensures AfterFirstMarker(Strip("\n\n" + body)) == Strip(body)
  {
    StripBlankLine(body);
    StripNotContains(body, "---");
  }

  lemma StripBlankLine(body: string)
    ensures Strip("\n\n" + body) == Strip(body)
  {
    StripPadded("\n\n", body, []);
    assert "\n\n" + body + [] == "\n\n" + body;
  }

  lemma StripNotContains(s: string, p: string)
    requires !Contains(s, p)
    ensures !Contains(Strip(s), p)
  {
    StripInfix(s);
    NotContainsInfix(s, p, |s| - |LStrip(s)|, Strip(s));
  }

  lemma OpensWithMarker(fm: string, body: string)
    ensures StartsWith(Compose(fm, body), "---\n")
  {
    assert Compose(fm, body) == "---\n" + (fm + "\n---" + "\n\n" + body);
  }

  /** The first line break followed by `---` after the opening marker is the one
      that closes the block. */
  lemma ClosingLineAt(fm: string, body: string)
    requires !Contains(fm, "---")
    ensures Find(Compose(fm, body), "\n---", 4) == 4 + |fm|
  {
    var note := Compose(fm, body);
    ComposeCloses(fm, body);
    assert 3 + |"\n" + fm + "\n"| == 5 + |fm|;
    forall k | 4 <= k < 4 + |fm| ensures !OccursAt(note, "\n---", k) {
      DashesAfterBreak(note, k);
    }
    assert note[4 + |fm|] == '\n';
    DashesAfterBreak(note, 4 + |fm|);
  }

  lemma DashesAfterBreak(s: string, k: nat)
    ensures OccursAt(s, "\n---", k) <==> k < |s| && s[k] == '\n' && OccursAt(s, "---", k + 1)
  {
    if k + 4 <= |s| {
      assert s[k..k + 4] == [s[k]] + s[k + 1..k + 4];
    }
  }

  /** A text after the block is cut at its first `---`: before it, nothing of the
      body survives. */
  lemma AfterFirstMarkerOf(pre: string, post: string)
    requires IsStripped(pre + "---" + post) && !Contains(pre + "--", "---")
    ensures AfterFirstMarker(pre + "---" + post) == Strip(post)
  {
    var t := pre + "---" + post;
    FirstMarkerAt(pre, post);
    assert t[|pre| + 3..] == post;
  }

  /** The first `---` of the text is the one after `pre`. */
  lemma FirstMarkerAt(pre: string, post: string)
    requires !Contains(pre + "--", "---")
    ensures Find(pre + "---" + post, "---", 0) == |pre|
  {
    var t := pre + "---" + post;
    forall k | 0 <= k < |pre| ensures !OccursAt(t, "---", k) {
      if OccursAt(t, "---", k) {
        assert (pre + "--")[k..k + 3] == t[k..k + 3];
        ContainsAt(pre + "--", "---", k);
      }
    }
    assert OccursAt(t, "---", |pre|);
    FindBefore(t, "---", 0, |pre|);
  }

  // ---------------------------------------------------------------------------
  // Labelled values in the body

  /** `get_stringValue_from_noteBody` of `_library/Tools.py`: the rest of the first
      line holding the label (in any case) and one more character, stripped. */
  function LabelValueFromBody(valueLabel: string, body: string): (r: string)
    ensures IsStripped(r) && '\n' !in r
  {
    match LabelCapture(body, valueLabel, true)
    case None => []
    case Some(v) =>
      StripChars(v);
      Strip(v)
  }

  /** The value follows the label, in any case, after exactly one separator
      character, up to the end of its line. */
  lemma LabelValueFromLine(valueLabel: string, written: string, sep: char, v: string, rest: string)
    requires |written| == |valueLabel| && EqualsIgnoreCase(written, valueLabel)
    requires sep != '\n' && '\n' !in v && (rest == [] || rest[0] == '\n')
    ensures LabelValueFromBody(valueLabel, written + [sep] + v + rest) == Strip(v)
  {
    CaptureAtStart(written, sep, v, rest, valueLabel, true);
  }

  /** The copy in `_library/Notes.py` reads the same value and then also drops a
      leading colon residue. */
  lemma BodyValueReadersAgree(valueLabel: string, body: string)
    ensures StringValueFromBody(valueLabel, body) == DropLabelResidue(LabelValueFromBody(valueLabel, body))
  {
    if LabelCapture(body, valueLabel, true).None? {
      assert !StartsWith([], ":");
    }
  }

  // ---------------------------------------------------------------------------
  // The front-matter date

  /** `get_note_date_from_frontMatter` of `_library/Tools.py`: the reader of
      `_library/Notes.py` with the property fixed to `date`. */
  function FrontMatterDate(frontMatter: string): (r: string)
    ensures IsStripped(r) && '\n' !in r
  {
    DateFromFrontMatter(frontMatter, "date")
  }

  /** A `date:` line gives the date, whatever lines follow. */
  lemma FrontMatterDateOfLine(v: string, rest: string)
    requires v != [] && IsStripped(v) && '\n' !in v && '*' !in v
    requires rest == [] || rest[0] == '\n'
    ensures FrontMatterDate("date: " + v + rest) == v
  {
    var date, sep := "date", ": ";
    assert |date| == 4 && date[0] == 'd' && date[1] == 'a' && date[2] == 't' && date[3] == 'e';
    assert '*' !in date;
    assert date + sep == "date: ";
    Regroup(date, sep, v);
    DateFromProperty(date, v, rest);
  }

  /** Without a `date:` property, the `created:` value is the date. */
  lemma FrontMatterDateFromCreated(c: string, rest: string)
    requires c != [] && IsStripped(c) && '\n' !in c && '*' !in c
    requires rest == [] || rest[0] == '\n'
    requires '*' !in rest && !Contains("created: " + c + rest, "date:")
    ensures FrontMatterDate("created: " + c + rest) == c
  {
    var date := "date";
    assert date + ":" == "date:";
    DateFromCreated(date, c, rest);
  }

  // ---------------------------------------------------------------------------
  // Decimal amounts

  /** The characters `decimal_from_string` removes before parsing. */
  predicate IsDecoration(c: char) {
    c == ',' || c == '$' || c == ' ' || c == '%'
  }

  /** `s` without its decoration characters. */
  function Undecorated(s: string): (r: string)
    ensures forall i :: 0 <= i < |r| ==> !IsDecoration(r[i])
    ensures forall c :: c in r ==> c in s
    decreases |s|
  {
    if s == [] then []
    else (if IsDecoration(s[0]) then [] else [s[0]]) + Undecorated(s[1..])
  }

  /** The replacement chain of `decimal_from_string`. */
  function CleanAmount(value: string): string {
    ReplaceAll(ReplaceAll(ReplaceAll(ReplaceAll(value, ",", ""), "$", ""), " ", ""), "%", "")
  }

  /** `decimal_from_string`: the cleaned, stripped text as a decimal, or 0.00 when it
      is not a number. */
  function DecimalFromString(value: string): Decimal {
    match ParseDecimal(Strip(CleanAmount(value)))
    case Some(d) => d
    case None => Decimal(0, -2)
  }

  function RemoveDecorations(s: string): string {
    SubstChar(SubstChar(SubstChar(SubstChar(s, ',', ""), '$', ""), ' ', ""), '%', "")
  }

  /** The chain removes exactly the decoration characters. */
  lemma CleanAmountUndecorated(value: string)
    ensures CleanAmount(value) == Undecorated(value)
  {
    var s1 := ReplaceAll(value, ",", "");
    ReplaceAllIsSubst(value, ',', "");
    var s2 := ReplaceAll(s1, "$", "");
    ReplaceAllIsSubst(s1, '$', "");
    var s3 := ReplaceAll(s2, " ", "");
    ReplaceAllIsSubst(s2, ' ', "");
    ReplaceAllIsSubst(s3, '%', "");
    RemoveDecorationsEach(value);
  }

  lemma {:induction false} RemoveDecorationsEach(s: string)
    ensures RemoveDecorations(s) == Undecorated(s)
    decreases |s|
  {
    if s != [] {
      assert s == [s[0]] + s[1..];
      RemoveDecorationsAppend([s[0]], s[1..]);
      RemoveDecorationsChar(s[0]);
      RemoveDecorationsEach(s[1..]);
    }
  }

  lemma RemoveDecorationsAppend(a: string, b: string)
    ensures RemoveDecorations(a + b) == RemoveDecorations(a) + RemoveDecorations(b)
  {
    var a1, b1 := SubstChar(a, ',', ""), SubstChar(b, ',', "");
    SubstCharAppend(a, b, ',', "");
    var a2, b2 := SubstChar(a1, '$', ""), SubstChar(b1, '$', "");
    SubstCharAppend(a1, b1, '$', "");
    var a3, b3 := SubstChar(a2, ' ', ""), SubstChar(b2, ' ', "");
    SubstCharAppend(a2, b2, ' ', "");
    SubstCharAppend(a3, b3, '%', "");
  }

  lemma RemoveDecorationsChar(c: char)
    ensures RemoveDecorations([c]) == if IsDecoration(c) then [] else [c]
  {
    SubstOne(c, ',', "");
    assert SubstChar([], '$', "") == [];
    assert SubstChar([], ' ', "") == [];
    assert SubstChar([], '%', "") == [];
    if c != ',' {
      SubstOne(c, '$', "");
      if c != '$' {
        SubstOne(c, ' ', "");
        if c != ' ' {
          SubstOne(c, '%', "");
        }
      }
    }
  }

  /** An amount written as digits with any currency signs, thousands separators,
      spaces and percent signs is read as the number its digits spell. */
  lemma DecimalOfDecoratedDigits(value: string)
    requires Undecorated(value) != [] && AllDigits(Undecorated(value))
    ensures DecimalFromString(value) == Decimal(DigitsValue(Undecorated(value)), 0)
  {
    CleanDigits(value);
    ParseDigitString(Undecorated(value));
  }

  lemma CleanDigits(value: string)
    requires Undecorated(value) != [] && AllDigits(Undecorated(value))
    ensures Strip(CleanAmount(value)) == Undecorated(value)
  {
    var digits := Undecorated(value);
    CleanAmountUndecorated(value);
    assert !IsSpace(digits[0]) && !IsSpace(digits[|digits| - 1]);
    StripOfStripped(digits);
  }

  /** A text without a single digit is read as 0.00. */
  lemma DecimalWithoutDigits(value: string)
    requires forall i :: 0 <= i < |value| ==> !IsDigit(value[i])
    ensures DecimalFromString(value) == Decimal(0, -2)
  {
    var cleaned := Strip(CleanAmount(value));
    CleanAmountUndecorated(value);
    StripChars(CleanAmount(value));
    assert forall j :: 0 <= j < |cleaned| ==> !IsDigit(cleaned[j]) by {
      forall j | 0 <= j < |cleaned| ensures !IsDigit(cleaned[j]) {
        assert cleaned[j] in value;
      }
    }
    HasDigitIfParsed(cleaned);
  }

  lemma HasDigitIfParsed(s: string)
    ensures ParseDecimal(s).Some? ==> exists c :: c in s && IsDigit(c)
  {
    if ParseDecimal(s).Some? {
      var c := ParsedHasDigit(s);
    }
  }

  /** Whatever parses as a decimal holds a digit. */
  lemma ParsedHasDigit(s: string) returns (c: char)
    requires ParseDecimal(s).Some?
    ensures c in s && IsDigit(c)
  {
    var t := Strip(s);
    var u := if t != [] && (t[0] == '+' || t[0] == '-') then t[1..] else t;
    var i := UnsignedHasDigit(u);
    c := u[i];
    assert c in t;
    StripChars(s);
  }

  lemma UnsignedHasDigit(u: string) returns (i: nat)
    requires ParseUnsigned(u).Some?
    ensures i < |u| && IsDigit(u[i])
  {
    var e := ExponentIndex(u);
    var mantissa := u[..e];
    var dot := IndexOf(mantissa, '.');
    var whole := mantissa[..dot];
    if |whole| >= 1 {
      i := 0;
      assert whole[0] == u[0];
    } else {
      i := dot + 1;
      assert mantissa[dot + 1..][0] == u[i];
    }
  }
}

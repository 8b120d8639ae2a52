/** The template merge of `_library/Templates.py`: the placeholders a template
    holds, the merge data a caller collects, and the merge itself, which fills the
    placeholders and names the new note. */
module Templates {
  import opened Wrappers
  import opened Text
  import opened Notes
  import opened NoteRecords
  import opened Tools

  // ---------------------------------------------------------------------------
  // Mergeable tags

  /** The placeholder for a name. */
  function Bracketed(name: string): string {
    "[" + name + "]"
  }

  /** The first `]` or line break at or after `j`, or the end of the text. */
  function BracketEnd(t: string, j: nat): (k: nat)
    requires j <= |t|
    ensures j <= k <= |t|
    ensures k < |t| ==> t[k] == ']' || t[k] == '\n'
    ensures forall m :: j <= m < k ==> t[m] != ']' && t[m] != '\n'
    decreases |t| - j
  {
    if j == |t| || t[j] == ']' || t[j] == '\n' then j else BracketEnd(t, j + 1)
  }

  /** The groups of `re.findall(r"\[(.*?)\]", t[i..])`: from each `[` the shortest
      run up to a `]` on the same line; the search goes on after that `]`. */
  function RawTags(t: string, i: nat): (r: seq<string>)
    requires i <= |t|
    ensures forall n :: 0 <= n < |r| ==> ']' !in r[n] && '\n' !in r[n]
    decreases |t| - i
  {
    if i == |t| then []
    else if t[i] == '[' then
      var k := BracketEnd(t, i + 1);
      if k < |t| && t[k] == ']' then [t[i + 1..k]] + RawTags(t, k + 1)
      else RawTags(t, i + 1)
    else RawTags(t, i + 1)
  }

  /** The names in first-appearance order, each once. */
  function Distinct(names: seq<string>): (r: seq<string>)
    ensures forall x :: x in r <==> x in names
    ensures forall i, j :: 0 <= i < j < |r| ==> r[i] != r[j]
  {
    if names == [] then []
    else
      var rest := Distinct(names[..|names| - 1]);
      var last := names[|names| - 1];
      assert names == names[..|names| - 1] + [last];
      if last in rest then rest else rest + [last]
  }

  function BracketedAll(names: seq<string>): (r: seq<string>)
    ensures |r| == |names| && forall i :: 0 <= i < |names| ==> r[i] == Bracketed(names[i])
  {
    if names == [] then [] else [Bracketed(names[0])] + BracketedAll(names[1..])
  }

  /** `get_mergeable_tags_from_template`: every bracketed name of the template, each
      once. The source goes through a Python set, whose order is unspecified; this
      model keeps the order of first appearance. */
  function MergeableTags(template: string): seq<string> {
    BracketedAll(Distinct(RawTags(template, 0)))
  }

  /** The tags are the bracketed names of the template, each exactly once. */
  lemma MergeableTagsAreNames(template: string)
    ensures var r := MergeableTags(template);
      forall i, j :: 0 <= i < j < |r| ==> r[i] != r[j]
    ensures forall name :: Bracketed(name) in MergeableTags(template) <==> name in RawTags(template, 0)
    ensures forall x :: x in MergeableTags(template) ==> exists name :: x == Bracketed(name)
  {
    var names := Distinct(RawTags(template, 0));
    var r := BracketedAll(names);
    forall i, j | 0 <= i < j < |r| ensures r[i] != r[j] {
      BracketedInjective(names[i], names[j]);
    }
    forall name ensures Bracketed(name) in r <==> name in names {
      if Bracketed(name) in r {
        var i :| 0 <= i < |r| && r[i] == Bracketed(name);
        BracketedInjective(names[i], name);
      } else {
        assert forall i :: 0 <= i < |names| ==> r[i] != Bracketed(name);
      }
    }
  }

  lemma BracketedInjective(x: string, y: string)
    ensures Bracketed(x) == Bracketed(y) ==> x == y
  {
    if Bracketed(x) == Bracketed(y) {
      assert x == Bracketed(x)[1..|Bracketed(x)| - 1];
    }
  }

  /** A wiki link `[[name]]` in a template body reads as the placeholder `[[name]`:
      the reason a merge can be told to leave unfilled placeholders alone. */
  lemma {:induction false} LinkIsTag(name: string)
    requires ']' !in name && '\n' !in name
    ensures MergeableTags("[[" + name + "]]") == [Bracketed("[" + name)]
  {
    var t := "[[" + name + "]]";
    var k := |name| + 2;
    BracketEndAt(t, 1, k);
    assert t[1..k] == "[" + name;
    assert RawTags(t, k + 1) == [] by {
      assert t[k + 1] == ']';
      assert RawTags(t, k + 2) == [];
    }
    assert RawTags(t, 0) == ["[" + name];
    assert Distinct(["[" + name]) == ["[" + name];
  }

  lemma BracketEndAt(t: string, j: nat, k: nat)
    requires j <= k < |t| && t[k] == ']'
    requires forall m :: j <= m < k ==> t[m] != ']' && t[m] != '\n'
    ensures BracketEnd(t, j) == k
  {
  }

  /** Every mergeable tag opens with `[`. */
  lemma TagsOpenWithBracket(template: string)
    ensures forall i :: 0 <= i < |MergeableTags(template)| ==> MergeableTags(template)[i][0] == '['
  {
  }

  /** A text without `[` has no mergeable tags. */
  lemma {:induction false} NoBracketNoTags(t: string, i: nat)
    requires i <= |t| && '[' !in t
    ensures RawTags(t, i) == []
    decreases |t| - i
  {
    if i < |t| {
      NoBracketNoTags(t, i + 1);
    }
  }

  // ---------------------------------------------------------------------------
  // Merge data

  /** The `mergeData` dictionary: its keys in insertion order and their values. */
  class MergeData {
    var keys: seq<string>
    var values: map<string, string>

    ghost predicate Valid()
      reads this
    {
      (forall k :: k in values <==> k in keys)
      && forall i, j :: 0 <= i < j < |keys| ==> keys[i] != keys[j]
    }

    constructor ()
      ensures Valid() && keys == [] && values == map[]
    {
      keys := [];
      values := map[];
    }

    /** `mergeData[key] = value`: a key already present keeps its place, a new key
        goes last. */
    method Put(key: string, value: string)
      requires Valid()
      modifies this
      ensures Valid()
      ensures keys == if key in old(keys) then old(keys) else old(keys) + [key]
      ensures values == old(values)[key := value]
    {
      if key !in keys {
        keys := keys + [key];
      }
      values := values[key := value];
    }
  }

  // ---------------------------------------------------------------------------
  // Placeholder substitution

  /** The placeholder names of each group the merge knows. */
  const ProjectSynonyms: seq<string> := ["Project Name", "ProjectName", "Project"]
  const AuthorSynonyms: seq<string> := ["Current User", "User", "Username", "Author", "author"]
  const TagSynonyms: seq<string> := ["tags", "Tags", "TAGS"]
  const CheckboxUncheckedSynonyms: seq<string> := ["CHECKBOX_UNCHECKED", "CHECKBOX INCOMPLETE"]
  const CheckboxCheckedSynonyms: seq<string> := ["CHECKBOX_CHECKED", "CHECKBOX COMPLETE"]

  /** The placeholders filled before the merge data, in the order they are filled:
      the identifier's timestamp (the part before the first `_`), the full
      timestamp, its date (the part before the first space) and the author. */
  function FixedPairs(timestampId: string, timestampFull: string, author: string): seq<(string, string)> {
    var stamp := BeforeFirst(timestampId, '_');
    var date := BeforeFirst(timestampFull, ' ');
    [("YYYYMMDDHHMMSS", stamp), ("TIMESTAMP_ID", stamp),
     ("YYYY-MM-DD HH:MM:SS", timestampFull), ("DATETIME", timestampFull),
     ("YYYY-MM-DD", date), ("DATE", date),
     ("Current User", author)]
  }

  /** Each named placeholder, in turn, replaced by its value. */
  function ReplacePairs(t: string, pairs: seq<(string, string)>): string {
    if pairs == [] then t
    else
      var (name, value) := pairs[|pairs| - 1];
      ReplaceAll(ReplacePairs(t, pairs[..|pairs| - 1]), Bracketed(name), value)
  }

  function FixedPlaceholders(template: string, timestampId: string, timestampFull: string, author: string): string {
    ReplacePairs(template, FixedPairs(timestampId, timestampFull, author))
  }

  /** Each placeholder of the group, in turn, replaced by the value. */
  function ReplaceEach(t: string, names: seq<string>, value: string): string {
    if names == [] then t
    else ReplaceAll(ReplaceEach(t, names[..|names| - 1], value), Bracketed(names[|names| - 1]), value)
  }

  /** The `#tag` form of a comma-separated value: each part stripped, its spaces
      made underscores, prefixed with `#` and followed by a space. */
  function HashTags(parts: seq<string>): string {
    if parts == [] then []
    else HashTags(parts[..|parts| - 1]) + "#" + SubstChar(Strip(parts[|parts| - 1]), ' ', "_") + " "
  }

  /** One synonym of the tags group: the placeholder replaced by the value, and then
      (should the value itself hold the placeholder) by the `#tag` form. */
  function TagStep(t: string, name: string, value: string): string {
    var once := ReplaceAll(t, Bracketed(name), value);
    ReplaceAll(once, Bracketed(name), Strip(HashTags(Split(value, ','))))
  }

  function TagSteps(t: string, names: seq<string>, value: string): string {
    if names == [] then t
    else TagStep(TagSteps(t, names[..|names| - 1], value), names[|names| - 1], value)
  }

  /** `re.sub(re.escape(p), value, t, flags=re.IGNORECASE)`: every occurrence of `p`,
      in any case, replaced by the value. */
  function ReplaceIgnoreCase(t: string, p: string, value: string): string
    requires p != []
    decreases |t|
  {
    var i := FindIgnoreCase(t, p, 0);
    if i == -1 then t
    else t[..i] + value + ReplaceIgnoreCase(t[i + |p|..], p, value)
  }

  /** A key that belongs to none of the groups. */
  predicate IsOtherKey(key: string) {
    key !in ProjectSynonyms && key !in AuthorSynonyms && key !in TagSynonyms
  }

  /** One entry of the merge data applied to the template. */
  function KeyStep(t: string, key: string, value: string): string {
    if key in ProjectSynonyms then ReplaceEach(t, ProjectSynonyms, value)
    else if key in AuthorSynonyms then ReplaceEach(t, AuthorSynonyms, value)
    else if key in TagSynonyms then TagSteps(t, TagSynonyms, value)
    else ReplaceIgnoreCase(t, Bracketed(key), value)
  }

  /** The entries of the merge data, in order. */
  function MergeKeys(t: string, keys: seq<string>, values: map<string, string>): string
    requires forall k :: k in keys ==> k in values
  {
    if keys == [] then t
    else
      var key := keys[|keys| - 1];
      KeyStep(MergeKeys(t, keys[..|keys| - 1], values), key, values[key])
  }

  /** A key reads as the title when it is an other key spelling `TITLE` in any case. */
  predicate IsTitleKey(key: string) {
    IsOtherKey(key) && Upper(key) == "TITLE"
  }

  /** The title: the value of the last title key. */
  function TitleOf(keys: seq<string>, values: map<string, string>): string
    requires forall k :: k in keys ==> k in values
  {
    if keys == [] then []
    else
      var key := keys[|keys| - 1];
      if IsTitleKey(key) then values[key]
      else TitleOf(keys[..|keys| - 1], values)
  }

  // ---------------------------------------------------------------------------
  // A template with one placeholder

  /** `pre + [x] + post` holds no `[` but the one that opens `[x]`, and `x` no `]`. */
  predicate Lone(pre: string, x: string, post: string) {
    '[' !in pre && '[' !in post && '[' !in x && ']' !in x
  }

  /** The only `[` of a lone placeholder's text is the one that opens it. */
  lemma OnlyOpening(pre: string, x: string, post: string)
    requires Lone(pre, x, post)
    ensures var t := pre + Bracketed(x) + post;
      forall j :: 0 <= j < |t| && t[j] == '[' ==> j == |pre|
  {
    var t := pre + Bracketed(x) + post;
    forall j | 0 <= j < |t| && j != |pre| ensures t[j] != '[' {
      if j < |pre| {
        assert t[j] == pre[j];
      } else if j <= |pre| + |x| {
        assert t[j] == x[j - |pre| - 1];
      } else if j > |pre| + |x| + 1 {
        assert t[j] == post[j - |pre| - |x| - 2];
      }
    }
  }

  /** Two names whose placeholders match at the same place are the same name. */
  lemma {:induction false} SameName(x: string, y: string, rest: string)
    requires ']' !in x && ']' !in y && StartsWith(x + "]" + rest, y + "]")
    ensures x == y
    decreases |x|
  {
    var s, p := x + "]" + rest, y + "]";
    assert s[0] == p[0];
    assert s[0] == if x == [] then ']' else x[0];
    assert p[0] == if y == [] then ']' else y[0];
    if x != [] && y != [] {
      assert s[1..] == x[1..] + "]" + rest;
      assert p[1..] == y[1..] + "]";
      assert s[1..][..|p| - 1] == s[..|p|][1..];
      SameName(x[1..], y[1..], rest);
      assert x == [x[0]] + x[1..];
      assert y == [y[0]] + y[1..];
    }
  }

  /** Only its own placeholder occurs in a lone placeholder's text. */
  lemma LoneOccurrence(pre: string, x: string, post: string, y: string, k: int)
    requires Lone(pre, x, post) && ']' !in y && OccursAt(pre + Bracketed(x) + post, Bracketed(y), k)
    ensures k == |pre| && y == x
  {
    var t := pre + Bracketed(x) + post;
    OnlyOpening(pre, x, post);
    assert t[k] == Bracketed(y)[0];
    var rest := t[|pre| + 1..];
    assert rest == x + "]" + post;
    assert rest[..|y| + 1] == t[k + 1..k + |y| + 2] == y + "]";
    SameName(x, y, post);
  }

  /** Replacing a placeholder in a lone placeholder's text fills it when it is that
      placeholder and changes nothing otherwise. */
  lemma ReplaceLone(pre: string, x: string, post: string, y: string, value: string)
    requires Lone(pre, x, post) && ']' !in y
    ensures ReplaceAll(pre + Bracketed(x) + post, Bracketed(y), value)
      == if y == x then pre + value + post else pre + Bracketed(x) + post
  {
    var t := pre + Bracketed(x) + post;
    var p := Bracketed(y);
    var i := Find(t, p, 0);
    if i != -1 {
      LoneOccurrence(pre, x, post, y, i);
      ReplaceAllAt(t, p, value, i);
      assert t[..i] == pre && t[i + |p|..] == post;
      NoBracketUnchanged(post, p, value);
    } else if y == x {
      assert OccursAt(t, p, |pre|);
    } else {
      NoOccurrence(t, p, value);
    }
  }

  /** A text without `[` passes every placeholder replacement unchanged. */
  lemma NoBracketUnchanged(t: string, p: string, value: string)
    requires '[' !in t && p != [] && p[0] == '['
    ensures ReplaceAll(t, p, value) == t
  {
    NotContainsFirstChar(t, p);
    NoOccurrence(t, p, value);
  }

  /** One replacement on a text that is either the lone placeholder's text or
      already free of `[`. */
  lemma StepLone(pre: string, x: string, post: string, t: string, y: string, value: string)
    requires Lone(pre, x, post) && ']' !in y && '[' !in value
    requires t == pre + Bracketed(x) + post || '[' !in t
    ensures ReplaceAll(t, Bracketed(y), value)
      == if t == pre + Bracketed(x) + post && y == x then pre + value + post else t
    ensures '[' !in pre + value + post
  {
    if t == pre + Bracketed(x) + post {
      ReplaceLone(pre, x, post, y, value);
    } else {
      NoBracketUnchanged(t, Bracketed(y), value);
    }
  }

  /** The value of the first pair with this name. */
  function Lookup(pairs: seq<(string, string)>, x: string): Option<string> {
    if pairs == [] then None
    else
      var found := Lookup(pairs[..|pairs| - 1], x);
      if found.Some? then found
      else if pairs[|pairs| - 1].0 == x then Some(pairs[|pairs| - 1].1)
      else None
  }

  /** A lone placeholder gets the value of the first pair that names it and is left
      alone when none does. */
  lemma {:induction false} ReplacePairsLone(pre: string, x: string, post: string, pairs: seq<(string, string)>)
    requires Lone(pre, x, post)
    requires forall i :: 0 <= i < |pairs| ==> ']' !in pairs[i].0 && '[' !in pairs[i].1
    ensures ReplacePairs(pre + Bracketed(x) + post, pairs)
      == match Lookup(pairs, x)
         case Some(v) => pre + v + post
         case None => pre + Bracketed(x) + post
  {
    if pairs != [] {
      var init := pairs[..|pairs| - 1];
      ReplacePairsLone(pre, x, post, init);
      var (name, value) := pairs[|pairs| - 1];
      var before := ReplacePairs(pre + Bracketed(x) + post, init);
      match Lookup(init, x)
      case Some(v) =>
        assert '[' !in v by {
          LookupFrom(init, x);
        }
        StepLone(pre, x, post, before, name, value);
      case None =>
        StepLone(pre, x, post, before, name, value);
    }
  }

  lemma {:induction false} LookupFrom(pairs: seq<(string, string)>, x: string)
    requires Lookup(pairs, x).Some?
    ensures exists i :: 0 <= i < |pairs| && pairs[i] == (x, Lookup(pairs, x).value)
  {
    var init := pairs[..|pairs| - 1];
    if Lookup(init, x).Some? {
      LookupFrom(init, x);
      var i :| 0 <= i < |init| && init[i] == (x, Lookup(init, x).value);
      assert pairs[i] == init[i];
    } else {
      assert pairs[|pairs| - 1] == (x, Lookup(pairs, x).value);
    }
  }

  /** What the fixed placeholders stand for, and `None` for any other name. */
  function FixedFill(x: string, timestampId: string, timestampFull: string, author: string): Option<string> {
    if x == "YYYYMMDDHHMMSS" || x == "TIMESTAMP_ID" then Some(BeforeFirst(timestampId, '_'))
    else if x == "YYYY-MM-DD HH:MM:SS" || x == "DATETIME" then Some(timestampFull)
    else if x == "YYYY-MM-DD" || x == "DATE" then Some(BeforeFirst(timestampFull, ' '))
    else if x == "Current User" then Some(author)
    else None
  }

  /** A fixed placeholder gets the identifier's timestamp, the full timestamp, its
      date or the author; any other placeholder is left for the merge data. */
  lemma FixedPlaceholdersLone(pre: string, x: string, post: string, timestampId: string, timestampFull: string, author: string)
    requires Lone(pre, x, post) && '[' !in timestampId && '[' !in timestampFull && '[' !in author
    ensures FixedPlaceholders(pre + Bracketed(x) + post, timestampId, timestampFull, author)
      == match FixedFill(x, timestampId, timestampFull, author)
         case Some(v) => pre + v + post
         case None => pre + Bracketed(x) + post
  {
    var pairs := FixedPairs(timestampId, timestampFull, author);
    assert '[' !in BeforeFirst(timestampId, '_') && '[' !in BeforeFirst(timestampFull, ' ');
    ReplacePairsLone(pre, x, post, pairs);
    FixedLookup(x, timestampId, timestampFull, author);
  }

  lemma FixedLookup(x: string, timestampId: string, timestampFull: string, author: string)
    ensures Lookup(FixedPairs(timestampId, timestampFull, author), x) == FixedFill(x, timestampId, timestampFull, author)
  {
    var pairs := FixedPairs(timestampId, timestampFull, author);
    var stamp := BeforeFirst(timestampId, '_');
    var date := BeforeFirst(timestampFull, ' ');
    var stamped := x == "YYYYMMDDHHMMSS" || x == "TIMESTAMP_ID";
    var full := x == "YYYY-MM-DD HH:MM:SS" || x == "DATETIME";
    var dated := x == "YYYY-MM-DD" || x == "DATE";
    assert pairs[..1][..0] == [];
    assert Lookup(pairs[..1], x) == if x == "YYYYMMDDHHMMSS" then Some(stamp) else None;
    assert pairs[..2][..1] == pairs[..1];
    assert Lookup(pairs[..2], x) == if stamped then Some(stamp) else None;
    assert pairs[..3][..2] == pairs[..2];
    assert Lookup(pairs[..3], x) == if stamped then Some(stamp)
      else if x == "YYYY-MM-DD HH:MM:SS" then Some(timestampFull) else None;
    assert pairs[..4][..3] == pairs[..3];
    assert Lookup(pairs[..4], x) == if stamped then Some(stamp) else if full then Some(timestampFull) else None;
    assert pairs[..5][..4] == pairs[..4];
    assert Lookup(pairs[..5], x) == if stamped then Some(stamp) else if full then Some(timestampFull)
      else if x == "YYYY-MM-DD" then Some(date) else None;
    assert pairs[..6][..5] == pairs[..5];
    assert Lookup(pairs[..6], x) == if stamped then Some(stamp) else if full then Some(timestampFull)
      else if dated then Some(date) else None;
    assert pairs[..6] == pairs[..|pairs| - 1];
  }

  /** Every placeholder of a group filled with one value: a lone placeholder of
      the group gets the value, any other is left alone. */
  lemma {:induction false} ReplaceEachLone(pre: string, x: string, post: string, names: seq<string>, value: string)
    requires Lone(pre, x, post) && '[' !in value
    requires forall i :: 0 <= i < |names| ==> ']' !in names[i]
    ensures ReplaceEach(pre + Bracketed(x) + post, names, value)
      == if x in names then pre + value + post else pre + Bracketed(x) + post
  {
    if names != [] {
      var init, last := names[..|names| - 1], names[|names| - 1];
      assert names == init + [last];
      ReplaceEachLone(pre, x, post, init, value);
      if x in init {
        NoBracketUnchanged(pre + value + post, Bracketed(last), value);
      } else {
        ReplaceLone(pre, x, post, last, value);
      }
    }
  }

  /** Each tags placeholder gets the value as it is written; its `#tag` form is
      used only where the value itself holds the placeholder. */
  lemma {:induction false} TagStepsLone(pre: string, x: string, post: string, names: seq<string>, value: string)
    requires Lone(pre, x, post) && '[' !in value
    requires forall i :: 0 <= i < |names| ==> ']' !in names[i]
    ensures TagSteps(pre + Bracketed(x) + post, names, value)
      == if x in names then pre + value + post else pre + Bracketed(x) + post
  {
    if names != [] {
      var init, last := names[..|names| - 1], names[|names| - 1];
      assert names == init + [last];
      TagStepsLone(pre, x, post, init, value);
      var hashed := Strip(HashTags(Split(value, ',')));
      if x in init {
        NoBracketUnchanged(pre + value + post, Bracketed(last), value);
        NoBracketUnchanged(pre + value + post, Bracketed(last), hashed);
      } else {
        ReplaceLone(pre, x, post, last, value);
        if x == last {
          NoBracketUnchanged(pre + value + post, Bracketed(last), hashed);
        } else {
          ReplaceLone(pre, x, post, last, hashed);
        }
      }
    }
  }

  // Case-insensitive matching of a lone placeholder

  lemma LowerConcat(a: string, b: string)
    ensures Lower(a + b) == Lower(a) + Lower(b)
  {
  }

  lemma LowerSlice(t: string, a: nat, b: nat)
    requires a <= b <= |t|
    ensures Lower(t[a..b]) == Lower(t)[a..b]
  {
  }

  /** Lower-casing keeps brackets and makes none. */
  lemma LowerBrackets(s: string)
    ensures '[' in Lower(s) <==> '[' in s
    ensures ']' in Lower(s) <==> ']' in s
  {
    assert forall i :: 0 <= i < |s| ==> (Lower(s)[i] == '[' <==> s[i] == '[');
    assert forall i :: 0 <= i < |s| ==> (Lower(s)[i] == ']' <==> s[i] == ']');
  }

  lemma LowerBracketed(x: string)
    ensures Lower(Bracketed(x)) == Bracketed(Lower(x))
  {
    LowerConcat("[" + x, "]");
    LowerConcat("[", x);
  }

  lemma LowerLone(pre: string, x: string, post: string)
    requires Lone(pre, x, post)
    ensures Lone(Lower(pre), Lower(x), Lower(post))
    ensures Lower(pre + Bracketed(x) + post) == Lower(pre) + Bracketed(Lower(x)) + Lower(post)
  {
    LowerBrackets(pre);
    LowerBrackets(x);
    LowerBrackets(post);
    LowerConcat(pre + Bracketed(x), post);
    LowerConcat(pre, Bracketed(x));
    LowerBracketed(x);
  }

  /** Matching ignoring case is matching the lower-cased texts. */
  lemma IgnoreCaseIsLower(t: string, p: string, k: int)
    ensures OccursAtIgnoreCase(t, p, k) <==> OccursAt(Lower(t), Lower(p), k)
  {
    if 0 <= k && k + |p| <= |t| {
      LowerSlice(t, k, k + |p|);
    }
  }

  /** The first match of `[key]`, ignoring case, in a lone placeholder's text. */
  lemma FindIgnoreCaseLone(pre: string, x: string, post: string, key: string)
    requires Lone(pre, x, post) && ']' !in key
    ensures FindIgnoreCase(pre + Bracketed(x) + post, Bracketed(key), 0)
      == if EqualsIgnoreCase(x, key) then |pre| else -1
  {
    var t := pre + Bracketed(x) + post;
    var p := Bracketed(key);
    var r := FindIgnoreCase(t, p, 0);
    if r != -1 {
      OccursIgnoreCaseLone(pre, x, post, key, r);
    }
    if EqualsIgnoreCase(x, key) {
      OccursIgnoreCaseLone(pre, x, post, key, |pre|);
    }
  }

  lemma OccursIgnoreCaseLone(pre: string, x: string, post: string, key: string, k: int)
    requires Lone(pre, x, post) && ']' !in key
    ensures OccursAtIgnoreCase(pre + Bracketed(x) + post, Bracketed(key), k)
      <==> k == |pre| && EqualsIgnoreCase(x, key)
  {
    var t := pre + Bracketed(x) + post;
    var p := Bracketed(key);
    LowerLone(pre, x, post);
    LowerBracketed(key);
    LowerBrackets(key);
    assert |Lower(pre)| == |pre|;
    IgnoreCaseIsLower(t, p, k);
    if OccursAt(Lower(t), Lower(p), k) {
      LoneOccurrence(Lower(pre), Lower(x), Lower(post), Lower(key), k);
    }
    if k == |pre| && EqualsIgnoreCase(x, key) {
      assert Lower(t)[k..k + |Lower(p)|] == Bracketed(Lower(x));
    }
  }

  /** A text without `[` passes a case-insensitive placeholder replacement unchanged. */
  lemma NoBracketIgnoreCase(t: string, key: string, value: string)
    requires '[' !in t
    ensures ReplaceIgnoreCase(t, Bracketed(key), value) == t
  {
    var p := Bracketed(key);
    var i := FindIgnoreCase(t, p, 0);
    IgnoreCaseIsLower(t, p, i);
    LowerBracketed(key);
    LowerBrackets(t);
    NotContainsFirstChar(Lower(t), Lower(p));
    assert i != -1 ==> Contains(Lower(t), Lower(p)) by {
      if i != -1 {
        ContainsAt(Lower(t), Lower(p), i);
      }
    }
  }

  /** Any other key fills its placeholder written in any case, and nothing else. */
  lemma ReplaceIgnoreCaseLone(pre: string, x: string, post: string, key: string, value: string)
    requires Lone(pre, x, post) && ']' !in key
    ensures ReplaceIgnoreCase(pre + Bracketed(x) + post, Bracketed(key), value)
      == if EqualsIgnoreCase(x, key) then pre + value + post else pre + Bracketed(x) + post
  {
    var t := pre + Bracketed(x) + post;
    FindIgnoreCaseLone(pre, x, post, key);
    if EqualsIgnoreCase(x, key) {
      assert |x| == |key| by {
        assert |Lower(x)| == |x| && |Lower(key)| == |key|;
      }
      assert t[..|pre|] == pre;
      assert t[|pre| + |Bracketed(key)|..] == post;
      NoBracketIgnoreCase(post, key, value);
    }
  }

  // ---------------------------------------------------------------------------
  // Merge data on a lone placeholder

  /** The key fills the placeholder `[x]`: both in one group, or an other key equal
      to `x` but for case. */
  predicate KeyFills(key: string, x: string) {
    (key in ProjectSynonyms && x in ProjectSynonyms)
    || (key in AuthorSynonyms && x in AuthorSynonyms)
    || (key in TagSynonyms && x in TagSynonyms)
    || (IsOtherKey(key) && EqualsIgnoreCase(x, key))
  }

  lemma SynonymsUnbracketed()
    ensures forall i :: 0 <= i < |ProjectSynonyms| ==> ']' !in ProjectSynonyms[i]
    ensures forall i :: 0 <= i < |AuthorSynonyms| ==> ']' !in AuthorSynonyms[i]
    ensures forall i :: 0 <= i < |TagSynonyms| ==> ']' !in TagSynonyms[i]
  {
  }

  /** One entry of the merge data fills a lone placeholder it names and leaves any
      other alone. */
  lemma KeyStepLone(pre: string, x: string, post: string, key: string, value: string)
    requires Lone(pre, x, post) && '[' !in value && ']' !in key
    ensures KeyStep(pre + Bracketed(x) + post, key, value)
      == if KeyFills(key, x) then pre + value + post else pre + Bracketed(x) + post
  {
    SynonymsUnbracketed();
    if key in ProjectSynonyms {
      ReplaceEachLone(pre, x, post, ProjectSynonyms, value);
    } else if key in AuthorSynonyms {
      ReplaceEachLone(pre, x, post, AuthorSynonyms, value);
    } else if key in TagSynonyms {
      TagStepsLone(pre, x, post, TagSynonyms, value);
    } else {
      ReplaceIgnoreCaseLone(pre, x, post, key, value);
    }
  }

  /** The value of the first key that fills `[x]`. */
  function KeyLookup(keys: seq<string>, values: map<string, string>, x: string): Option<string>
    requires forall k :: k in keys ==> k in values
  {
    if keys == [] then None
    else
      var found := KeyLookup(keys[..|keys| - 1], values, x);
      var key := keys[|keys| - 1];
      if found.Some? then found
      else if KeyFills(key, x) then Some(values[key])
      else None
  }

  /** The merge data fills a lone placeholder with the value of the first key that
      names it, and leaves it alone when no key does. */
  lemma {:induction false} MergeKeysLone(pre: string, x: string, post: string, keys: seq<string>, values: map<string, string>)
    requires Lone(pre, x, post)
    requires forall k :: k in keys ==> k in values && ']' !in k && '[' !in values[k]
    ensures MergeKeys(pre + Bracketed(x) + post, keys, values)
      == match KeyLookup(keys, values, x)
         case Some(v) => pre + v + post
         case None => pre + Bracketed(x) + post
  {
    if keys != [] {
      var init, key := keys[..|keys| - 1], keys[|keys| - 1];
      MergeKeysLone(pre, x, post, init, values);
      match KeyLookup(init, values, x)
      case Some(v) =>
        KeyLookupFrom(init, values, x);
        KeyStepNoBracket(pre + v + post, key, values[key]);
      case None =>
        KeyStepLone(pre, x, post, key, values[key]);
    }
  }

  lemma {:induction false} KeyLookupFrom(keys: seq<string>, values: map<string, string>, x: string)
    requires forall k :: k in keys ==> k in values
    requires KeyLookup(keys, values, x).Some?
    ensures exists k :: k in keys && KeyLookup(keys, values, x).value == values[k]
  {
    var init := keys[..|keys| - 1];
    if KeyLookup(init, values, x).Some? {
      KeyLookupFrom(init, values, x);
      var k :| k in init && KeyLookup(init, values, x).value == values[k];
      assert k in keys;
    } else {
      assert keys[|keys| - 1] in keys;
    }
  }

  /** A text without `[` passes every entry of the merge data unchanged. */
  lemma KeyStepNoBracket(t: string, key: string, value: string)
    requires '[' !in t
    ensures KeyStep(t, key, value) == t
  {
    if key in ProjectSynonyms {
      ReplaceEachNoBracket(t, ProjectSynonyms, value);
    } else if key in AuthorSynonyms {
      ReplaceEachNoBracket(t, AuthorSynonyms, value);
    } else if key in TagSynonyms {
      TagStepsNoBracket(t, TagSynonyms, value);
    } else {
      NoBracketIgnoreCase(t, key, value);
    }
  }

  lemma {:induction false} ReplaceEachNoBracket(t: string, names: seq<string>, value: string)
    requires '[' !in t
    ensures ReplaceEach(t, names, value) == t
  {
    if names != [] {
      ReplaceEachNoBracket(t, names[..|names| - 1], value);
      NoBracketUnchanged(t, Bracketed(names[|names| - 1]), value);
    }
  }

  lemma {:induction false} TagStepsNoBracket(t: string, names: seq<string>, value: string)
    requires '[' !in t
    ensures TagSteps(t, names, value) == t
  {
    if names != [] {
      var name := names[|names| - 1];
      TagStepsNoBracket(t, names[..|names| - 1], value);
      NoBracketUnchanged(t, Bracketed(name), value);
      NoBracketUnchanged(t, Bracketed(name), Strip(HashTags(Split(value, ','))));
    }
  }

  // ---------------------------------------------------------------------------
  // Placeholders the merge data left

  /** The leftover step as evidently intended: a checkbox placeholder becomes a
      checkbox, any other is blanked in a silent run and otherwise filled with what
      the user answers for it (`ask`, given the placeholder). The merge itself uses
      `LeftoverStepAsWritten` below. */
  function LeftoverStep(t: string, tag: string, runSilent: bool, ask: string -> string): string
    requires tag != []
  {
    if tag in BracketedAll(CheckboxUncheckedSynonyms) then ReplaceAll(t, tag, "- [ ] ")
    else if tag in BracketedAll(CheckboxCheckedSynonyms) then ReplaceAll(t, tag, "- [x] ")
    else if runSilent then ReplaceAll(t, tag, "")
    else ReplaceAll(t, tag, ask(tag))
  }

  function Leftovers(t: string, tags: seq<string>, runSilent: bool, ask: string -> string): string
    requires forall i :: 0 <= i < |tags| ==> tags[i] != []
  {
    if tags == [] then t
    else LeftoverStep(Leftovers(t, tags[..|tags| - 1], runSilent, ask), tags[|tags| - 1], runSilent, ask)
  }

  /** The leftover step as `_library/Templates.py` writes it: the tag, which carries
      its brackets, is looked up among the checkbox names, which do not. */
  function LeftoverStepAsWritten(t: string, tag: string, runSilent: bool, ask: string -> string): string
    requires tag != []
  {
    if tag in CheckboxUncheckedSynonyms then ReplaceAll(ReplaceAll(t, tag, "- [ ] "), tag, "- [ ] ")
    else if tag in CheckboxCheckedSynonyms then ReplaceAll(ReplaceAll(t, tag, "- [x] "), tag, "- [x] ")
    else if runSilent then ReplaceAll(t, tag, "")
    else ReplaceAll(t, tag, ask(tag))
  }

  function LeftoversAsWritten(t: string, tags: seq<string>, runSilent: bool, ask: string -> string): string
    requires forall i :: 0 <= i < |tags| ==> tags[i] != []
  {
    if tags == [] then t
    else LeftoverStepAsWritten(LeftoversAsWritten(t, tags[..|tags| - 1], runSilent, ask), tags[|tags| - 1], runSilent, ask)
  }

  /** As written, the checkbox branches never fire: every tag opens with `[` and no
      checkbox name does, so checkbox placeholders are blanked or asked for. */
  lemma AsWrittenIgnoresCheckboxes(t: string, tag: string, runSilent: bool, ask: string -> string)
    requires tag != [] && tag[0] == '['
    ensures LeftoverStepAsWritten(t, tag, runSilent, ask)
      == if runSilent then ReplaceAll(t, tag, "") else ReplaceAll(t, tag, ask(tag))
  {
    assert forall i :: 0 <= i < |CheckboxUncheckedSynonyms| ==> CheckboxUncheckedSynonyms[i][0] != '[';
    assert forall i :: 0 <= i < |CheckboxCheckedSynonyms| ==> CheckboxCheckedSynonyms[i][0] != '[';
  }

  /** A lone placeholder is the one mergeable tag of its text. */
  lemma LoneTags(pre: string, x: string, post: string)
    requires Lone(pre, x, post) && '\n' !in x
    ensures MergeableTags(pre + Bracketed(x) + post) == [Bracketed(x)]
  {
    var t := pre + Bracketed(x) + post;
    var close := |pre| + 1 + |x|;
    OnlyOpening(pre, x, post);
    RawTagsSkip(t, 0, |pre|);
    assert t[|pre|] == '[' && t[close] == ']';
    assert forall m :: |pre| + 1 <= m < close ==> t[m] == x[m - |pre| - 1];
    BracketEndAt(t, |pre| + 1, close);
    assert t[|pre| + 1..close] == x;
    RawTagsSkip(t, close + 1, |t|);
    assert RawTags(t, 0) == [x];
    assert Distinct([x]) == [x];
  }

  /** Scanning past text without `[` finds nothing. */
  lemma {:induction false} RawTagsSkip(t: string, i: nat, j: nat)
    requires i <= j <= |t| && forall m :: i <= m < j ==> t[m] != '['
    ensures RawTags(t, i) == RawTags(t, j)
    decreases j - i
  {
    if i < j {
      RawTagsSkip(t, i + 1, j);
    }
  }

  /** A silent run blanks a lone placeholder nobody filled; otherwise it is filled
      with the answer for it. This holds for checkbox placeholders too, whose
      branches never fire as written. */
  lemma LeftoversLone(pre: string, x: string, post: string, runSilent: bool, ask: string -> string)
    requires Lone(pre, x, post) && '\n' !in x
    ensures var t := pre + Bracketed(x) + post;
      LeftoversAsWritten(t, MergeableTags(t), runSilent, ask)
      == pre + (if runSilent then "" else ask(Bracketed(x))) + post
  {
    var b := Bracketed(x);
    var t := pre + b + post;
    LoneTags(pre, x, post);
    AsWrittenOneTag(t, b, runSilent, ask);
    AsWrittenIgnoresCheckboxes(t, b, runSilent, ask);
    ReplaceLone(pre, x, post, x, if runSilent then "" else ask(b));
  }

  /** The corrected leftover step on a lone placeholder: a checkbox placeholder
      becomes a checkbox, any other is blanked or filled with the answer. */
  lemma LeftoversLoneIntended(pre: string, x: string, post: string, runSilent: bool, ask: string -> string)
    requires Lone(pre, x, post) && '\n' !in x
    ensures var t := pre + Bracketed(x) + post;
      Leftovers(t, MergeableTags(t), runSilent, ask)
      == pre + (if x in CheckboxUncheckedSynonyms then "- [ ] "
                else if x in CheckboxCheckedSynonyms then "- [x] "
                else if runSilent then "" else ask(Bracketed(x))) + post
  {
    var t := pre + Bracketed(x) + post;
    var tag := Bracketed(x);
    LoneTags(pre, x, post);
    assert [tag][..0] == [];
    UncheckedBracketed(x);
    var fill := if x in CheckboxUncheckedSynonyms then "- [ ] "
                else if x in CheckboxCheckedSynonyms then "- [x] "
                else if runSilent then "" else ask(tag);
    assert LeftoverStep(t, tag, runSilent, ask) == ReplaceAll(t, tag, fill);
    ReplaceLone(pre, x, post, x, fill);
  }

  lemma UncheckedBracketed(x: string)
    ensures Bracketed(x) in BracketedAll(CheckboxUncheckedSynonyms) <==> x in CheckboxUncheckedSynonyms
    ensures Bracketed(x) in BracketedAll(CheckboxCheckedSynonyms) <==> x in CheckboxCheckedSynonyms
  {
    forall y ensures Bracketed(x) == Bracketed(y) ==> x == y {
      BracketedInjective(x, y);
    }
  }

  /** The checkbox placeholder as written: a silent run blanks it. */
  lemma CheckboxBlankedAsWritten(pre: string, post: string, ask: string -> string)
    requires '[' !in pre && '[' !in post
    ensures var t := pre + Bracketed("CHECKBOX_UNCHECKED") + post;
      LeftoversAsWritten(t, MergeableTags(t), true, ask) == pre + post
  {
    var x := "CHECKBOX_UNCHECKED";
    assert '[' !in x && ']' !in x && '\n' !in x;
    SilentLone(pre, x, post, ask);
  }

  lemma SilentLone(pre: string, x: string, post: string, ask: string -> string)
    requires Lone(pre, x, post) && '\n' !in x
    ensures var t := pre + Bracketed(x) + post;
      LeftoversAsWritten(t, MergeableTags(t), true, ask) == pre + post
  {
    LeftoversLone(pre, x, post, true, ask);
    EmptyMiddle(pre, post);
  }

  lemma AsWrittenOneTag(t: string, tag: string, runSilent: bool, ask: string -> string)
    requires tag != []
    ensures LeftoversAsWritten(t, [tag], runSilent, ask) == LeftoverStepAsWritten(t, tag, runSilent, ask)
  {
    assert [tag][..0] == [];
  }

  /** The checkbox placeholder as intended: it becomes an unchecked checkbox. */
  lemma CheckboxFilled(pre: string, post: string, runSilent: bool, ask: string -> string)
    requires '[' !in pre && '[' !in post
    ensures var t := pre + Bracketed("CHECKBOX_UNCHECKED") + post;
      Leftovers(t, MergeableTags(t), runSilent, ask) == pre + "- [ ] " + post
  {
    var x := "CHECKBOX_UNCHECKED";
    assert '[' !in x && ']' !in x && '\n' !in x;
    assert Lone(pre, x, post);
    assert x == CheckboxUncheckedSynonyms[0];
    LeftoversLoneIntended(pre, x, post, runSilent, ask);
  }

  /** A text without `[` has no leftovers. */
  lemma LeftoversNoBracket(t: string, runSilent: bool, ask: string -> string)
    requires '[' !in t
    ensures LeftoversAsWritten(t, MergeableTags(t), runSilent, ask) == t
  {
    NoBracketNoTags(t, 0);
  }

  // ---------------------------------------------------------------------------
  // The merge

  /** The merged template: the fixed placeholders, then the merge data in order,
      then (unless told to leave them) the placeholders left over. */
  function MergedTemplate(template: string, timestampId: string, timestampFull: string,
      keys: seq<string>, values: map<string, string>, runSilent: bool, processLeftovers: bool,
      author: string, ask: string -> string): string
    requires forall k :: k in keys ==> k in values
  {
    var merged := MergeKeys(FixedPlaceholders(template, timestampId, timestampFull, author), keys, values);
    if processLeftovers then LeftoversAsWritten(merged, MergeableTags(merged), runSilent, ask) else merged
  }

  /** The note type the identifier names. */
  function NoteType(processLeftovers: bool): string {
    if processLeftovers then "task" else "atomic"
  }

  /** What the merge puts in place of a lone placeholder `[x]`: a fixed value, else
      the value of the first key that names it, else (when leftovers are processed)
      a blank or the answer, checkbox names included, else the placeholder itself. */
  function PlaceholderFill(x: string, timestampId: string, timestampFull: string,
      keys: seq<string>, values: map<string, string>, runSilent: bool, processLeftovers: bool,
      author: string, ask: string -> string): string
    requires forall k :: k in keys ==> k in values
  {
    match FixedFill(x, timestampId, timestampFull, author)
    case Some(v) => v
    case None =>
      match KeyLookup(keys, values, x)
      case Some(v) => v
      case None =>
        if !processLeftovers then Bracketed(x)
        else if runSilent then ""
        else ask(Bracketed(x))
  }

  /** The merge of a template with one placeholder: the text around it is kept and
      the placeholder gets its fill. */
  lemma MergedTemplateLone(pre: string, x: string, post: string, timestampId: string, timestampFull: string,
      keys: seq<string>, values: map<string, string>, runSilent: bool, processLeftovers: bool,
      author: string, ask: string -> string)
    requires Lone(pre, x, post) && '\n' !in x
    requires '[' !in timestampId && '[' !in timestampFull && '[' !in author
    requires forall k :: k in keys ==> k in values && ']' !in k && '[' !in values[k]
    ensures MergedTemplate(pre + Bracketed(x) + post, timestampId, timestampFull, keys, values, runSilent,
                           processLeftovers, author, ask)
      == pre + PlaceholderFill(x, timestampId, timestampFull, keys, values, runSilent, processLeftovers, author, ask) + post
  {
    var t := pre + Bracketed(x) + post;
    FixedPlaceholdersLone(pre, x, post, timestampId, timestampFull, author);
    match FixedFill(x, timestampId, timestampFull, author)
    case Some(v) =>
      assert '[' !in BeforeFirst(timestampId, '_') && '[' !in BeforeFirst(timestampFull, ' ');
      MergeKeysNoBracket(pre + v + post, keys, values);
      LeftoversNoBracket(pre + v + post, runSilent, ask);
    case None =>
      MergeKeysLone(pre, x, post, keys, values);
      match KeyLookup(keys, values, x)
      case Some(v) =>
        KeyLookupFrom(keys, values, x);
        LeftoversNoBracket(pre + v + post, runSilent, ask);
      case None =>
        LeftoversLone(pre, x, post, runSilent, ask);
  }

  /** A template without `[` comes out of the merge as it went in. */
  lemma MergedTemplateNoBracket(template: string, timestampId: string, timestampFull: string,
      keys: seq<string>, values: map<string, string>, runSilent: bool, processLeftovers: bool,
      author: string, ask: string -> string)
    requires '[' !in template && forall k :: k in keys ==> k in values
    ensures MergedTemplate(template, timestampId, timestampFull, keys, values, runSilent, processLeftovers, author, ask)
      == template
  {
    ReplacePairsNoBracket(template, FixedPairs(timestampId, timestampFull, author));
    MergeKeysNoBracket(template, keys, values);
    LeftoversNoBracket(template, runSilent, ask);
  }

  lemma {:induction false} ReplacePairsNoBracket(t: string, pairs: seq<(string, string)>)
    requires '[' !in t
    ensures ReplacePairs(t, pairs) == t
  {
    if pairs != [] {
      ReplacePairsNoBracket(t, pairs[..|pairs| - 1]);
      NoBracketUnchanged(t, Bracketed(pairs[|pairs| - 1].0), pairs[|pairs| - 1].1);
    }
  }

  lemma {:induction false} MergeKeysNoBracket(t: string, keys: seq<string>, values: map<string, string>)
    requires '[' !in t && forall k :: k in keys ==> k in values
    ensures MergeKeys(t, keys, values) == t
  {
    if keys != [] {
      MergeKeysNoBracket(t, keys[..|keys| - 1], values);
      KeyStepNoBracket(t, keys[|keys| - 1], values[keys[|keys| - 1]]);
    }
  }

  /** The title is the value of the last title key, or "" when there is none. */
  lemma {:induction false} TitleOfLast(keys: seq<string>, values: map<string, string>, i: int)
    requires forall k :: k in keys ==> k in values
    requires -1 <= i < |keys| && (i >= 0 ==> IsTitleKey(keys[i]))
    requires forall j :: i < j < |keys| ==> !IsTitleKey(keys[j])
    ensures TitleOf(keys, values) == if i >= 0 then values[keys[i]] else []
  {
    if keys != [] && i < |keys| - 1 {
      var init := keys[..|keys| - 1];
      assert forall j :: i < j < |init| ==> init[j] == keys[j];
      TitleOfLast(init, values, i);
    }
  }

  /** `merge_template_with_values`: fills the template and names the new note. The
      author is recorded in the merge data under `Current User`; the identifier is
      the candidate for the timestamp before the first `_` of `timestampId`, the
      note type and the title the merge data gives, or, when that is taken, the
      candidate for the first later second that is free. `ask` stands for the
      prompt, `notes` for the notes of the vault, `parse` and `format` for reading
      and writing timestamps; `retries` counts the seconds added. */
  method MergeTemplateWithValues(timestampId: string, timestampFull: string, template: string,
      mergeData: MergeData, runSilent: bool, processLeftovers: bool, author: string,
      ask: string -> string, notes: seq<NoteData>, parse: string -> Option<nat>, format: nat -> string)
      returns (identifier: Result<string, string>, merged: string, ghost retries: nat)
    requires mergeData.Valid()
    requires forall n: nat :: parse(format(n)) == Some(n)
    modifies mergeData
    ensures mergeData.Valid()
    ensures mergeData.keys == if "Current User" in old(mergeData.keys) then old(mergeData.keys)
                              else old(mergeData.keys) + ["Current User"]
    ensures mergeData.values == old(mergeData.values)["Current User" := author]
    ensures merged == MergedTemplate(template, timestampId, timestampFull, mergeData.keys, mergeData.values,
                                     runSilent, processLeftovers, author, ask)
    ensures var first := Candidate(BeforeFirst(timestampId, '_'), NoteType(processLeftovers),
                                   TitleOf(mergeData.keys, mergeData.values));
      (IsNewNoteIdentifierUnique(first, notes) ==> identifier == Success(first))
      && (identifier.Failure? <==>
          !IsNewNoteIdentifierUnique(first, notes) && parse(BeforeFirst(timestampId, '_')).None?)
    ensures identifier.Success? ==> IsNewNoteIdentifierUnique(identifier.value, notes)
    ensures var stamp, noteType := BeforeFirst(timestampId, '_'), NoteType(processLeftovers);
      var title := TitleOf(mergeData.keys, mergeData.values);
      (identifier.Success? && retries == 0 ==> identifier.value == Candidate(stamp, noteType, title))
      && (identifier.Success? && retries > 0 ==>
            parse(stamp).Some?
            && identifier.value == Candidate(format(Later(parse(stamp).value, retries)), noteType, title)
            && forall m: nat :: 1 <= m < retries ==>
                 !IsNewNoteIdentifierUnique(Candidate(format(Later(parse(stamp).value, m)), noteType, title), notes))
  {
    var stamp := BeforeFirst(timestampId, '_');
    merged := FixedPlaceholders(template, timestampId, timestampFull, author);
    mergeData.Put("Current User", author);
    var title;
    merged, title := MergeEntries(merged, mergeData.keys, mergeData.values);
    if processLeftovers {
      merged := FillLeftovers(merged, runSilent, ask);
    }
    var titleLettersAndNumbers := LettersAndNumbersOnly(title, 400);
    LettersAndNumbersOnlyTwice(title, 400, 200);
    assert Suffix(NoteType(processLeftovers), titleLettersAndNumbers) == Suffix(NoteType(processLeftovers), title);
    identifier, retries := GenerateUniqueIdentifier(stamp, NoteType(processLeftovers), titleLettersAndNumbers,
                                                     notes, parse, format);
  }

  /** The loop over the merge data: each entry applied in order, and the title
      picked up on the way. */
  method MergeEntries(template: string, keys: seq<string>, values: map<string, string>)
      returns (merged: string, title: string)
    requires forall k :: k in keys ==> k in values
    ensures merged == MergeKeys(template, keys, values)
    ensures title == TitleOf(keys, values)
  {
    merged, title := template, "";
    var i := 0;
    while i < |keys|
      invariant 0 <= i <= |keys|
      invariant merged == MergeKeys(template, keys[..i], values)
      invariant title == TitleOf(keys[..i], values)
    {
      var key := keys[i];
      var value := values[key];
      merged := ApplyKey(merged, key, value);
      if IsTitleKey(key) {
        title := value;
      }
      MergeStep(template, keys, values, i);
      i := i + 1;
    }
    assert keys[..i] == keys;
  }

  lemma MergeStep(template: string, keys: seq<string>, values: map<string, string>, i: nat)
    requires i < |keys| && forall k :: k in keys ==> k in values
    ensures MergeKeys(template, keys[..i + 1], values)
      == KeyStep(MergeKeys(template, keys[..i], values), keys[i], values[keys[i]])
    ensures TitleOf(keys[..i + 1], values)
      == if IsTitleKey(keys[i]) then values[keys[i]] else TitleOf(keys[..i], values)
  {
    assert keys[..i + 1][..i] == keys[..i];
  }

  /** The loop over the placeholders left after the merge data. */
  method FillLeftovers(template: string, runSilent: bool, ask: string -> string) returns (merged: string)
    ensures merged == LeftoversAsWritten(template, MergeableTags(template), runSilent, ask)
  {
    var tags := MergeableTags(template);
    merged := template;
    var j := 0;
    while j < |tags|
      invariant 0 <= j <= |tags|
      invariant merged == LeftoversAsWritten(template, tags[..j], runSilent, ask)
    {
      merged := ApplyLeftover(merged, tags[j], runSilent, ask);
      LeftoverNext(template, tags, j, runSilent, ask);
      j := j + 1;
    }
    assert tags[..j] == tags;
  }

  /** One placeholder left after the merge data, as the source tests it: the
      bracketed tag against the unbracketed checkbox names (replaced once per
      synonym), then blanked or asked for. */
  method ApplyLeftover(merged: string, tag: string, runSilent: bool, ask: string -> string) returns (r: string)
    requires tag != []
    ensures r == LeftoverStepAsWritten(merged, tag, runSilent, ask)
  {
    if tag in CheckboxUncheckedSynonyms {
      r := ReplaceAll(merged, tag, "- [ ] ");
      r := ReplaceAll(r, tag, "- [ ] ");
    } else if tag in CheckboxCheckedSynonyms {
      r := ReplaceAll(merged, tag, "- [x] ");
      r := ReplaceAll(r, tag, "- [x] ");
    } else if runSilent {
      r := ReplaceAll(merged, tag, "");
    } else {
      var answer := ask(tag);
      r := ReplaceAll(merged, tag, answer);
    }
  }

  lemma LeftoverNext(t: string, tags: seq<string>, j: nat, runSilent: bool, ask: string -> string)
    requires j < |tags| && forall i :: 0 <= i < |tags| ==> tags[i] != []
    ensures LeftoversAsWritten(t, tags[..j + 1], runSilent, ask)
      == LeftoverStepAsWritten(LeftoversAsWritten(t, tags[..j], runSilent, ask), tags[j], runSilent, ask)
  {
    assert tags[..j + 1][..j] == tags[..j];
  }

  /** One entry of the merge data, as the source applies it. */
  method ApplyKey(template: string, key: string, value: string) returns (merged: string)
    ensures merged == KeyStep(template, key, value)
  {
    if key in ProjectSynonyms {
      merged := ReplaceSynonyms(template, ProjectSynonyms, value);
    } else if key in AuthorSynonyms {
      merged := ReplaceSynonyms(template, AuthorSynonyms, value);
    } else if key in TagSynonyms {
      merged := ReplaceTagSynonyms(template, value);
    } else {
      merged := ReplaceIgnoreCase(template, Bracketed(key), value);
    }
  }

  /** The tags group: each synonym replaced by the value, then by its `#tag` form. */
  method ReplaceTagSynonyms(template: string, value: string) returns (merged: string)
    ensures merged == TagSteps(template, TagSynonyms, value)
  {
    merged := template;
    var i := 0;
    while i < |TagSynonyms|
      invariant 0 <= i <= |TagSynonyms|
      invariant merged == TagSteps(template, TagSynonyms[..i], value)
    {
      var placeholder := Bracketed(TagSynonyms[i]);
      merged := ReplaceAll(merged, placeholder, value);
      var tags := JoinHashTags(value);
      merged := ReplaceAll(merged, placeholder, tags);
      TagStepNext(template, TagSynonyms, i, value);
      i := i + 1;
    }
    assert TagSynonyms[..i] == TagSynonyms;
  }

  lemma TagStepNext(t: string, names: seq<string>, i: nat, value: string)
    requires i < |names|
    ensures TagSteps(t, names[..i + 1], value) == TagStep(TagSteps(t, names[..i], value), names[i], value)
  {
    assert names[..i + 1][..i] == names[..i];
  }

  /** Every placeholder of a group replaced by the value, one synonym after another. */
  method ReplaceSynonyms(template: string, synonyms: seq<string>, value: string) returns (merged: string)
    ensures merged == ReplaceEach(template, synonyms, value)
  {
    merged := template;
    var i := 0;
    while i < |synonyms|
      invariant 0 <= i <= |synonyms|
      invariant merged == ReplaceEach(template, synonyms[..i], value)
    {
      merged := ReplaceAll(merged, Bracketed(synonyms[i]), value);
      ReplaceEachNext(template, synonyms, i, value);
      i := i + 1;
    }
    assert synonyms[..i] == synonyms;
  }

  lemma ReplaceEachNext(t: string, names: seq<string>, i: nat, value: string)
    requires i < |names|
    ensures ReplaceEach(t, names[..i + 1], value) == ReplaceAll(ReplaceEach(t, names[..i], value), Bracketed(names[i]), value)
  {
    assert names[..i + 1][..i] == names[..i];
  }

  /** The `#tag` form of a comma-separated value, built part by part and stripped. */
  method JoinHashTags(value: string) returns (tags: string)
    ensures tags == Strip(HashTags(Split(value, ',')))
  {
    var parts := Split(value, ',');
    tags := "";
    var i := 0;
    while i < |parts|
      invariant 0 <= i <= |parts|
      invariant tags == HashTags(parts[..i])
    {
      var tag := SubstChar(Strip(parts[i]), ' ', "_");
      tags := tags + "#" + tag + " ";
      HashTagsNext(parts, i);
      i := i + 1;
    }
    assert parts[..i] == parts;
    tags := Strip(tags);
  }

  lemma HashTagsNext(parts: seq<string>, i: nat)
    requires i < |parts|
    ensures HashTags(parts[..i + 1]) == HashTags(parts[..i]) + "#" + SubstChar(Strip(parts[i]), ' ', "_") + " "
  {
    assert parts[..i + 1][..i] == parts[..i];
  }
}

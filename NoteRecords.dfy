/** The `NoteData` record of `_library/Notes.py` as built from one note file, the
    choice of files and notes that make up the note list, and the order by date.
    The file read, the file's modification time and the project configuration are
    inputs here: the note text, the formatted time and the set of archived projects. */
module NoteRecords {
  import opened Wrappers
  import opened Text
  import opened Notes

  /** One note as the tools see it (`filePath` is not modelled). */
  datatype NoteData = NoteData(
    id: string,
    fileName: string,
    date: string,
    osFileDateTime: string,
    noteType: string,
    title: string,
    project: string,
    archivedProject: bool,
    tags: set<string>,
    keywords: seq<string>,
    retention: string,
    author: string,
    private: bool,
    frontMatter: string,
    noteBody: string,
    backLinks: seq<string>,
    archived: bool,
    hasActionItems: bool,
    actionItems: seq<string>,
    actionItemsWithComments: map<string, string>,
    endDate: string)

  /** The record returned for a file that does not exist. */
  const EmptyNote := NoteData("", "", "", "", "", "", "", false, {}, [], "", "", false, "", "", [], false, false, [], map[], "")

  // ---------------------------------------------------------------------------
  // Action items

  /** `re.findall(r"\[ \](.*)", body[from:])`: the rest of the line after each `[ ]`,
      the scan resuming at the end of that line. */
  function RawActionItems(body: string, from: nat): (r: seq<string>)
    requires from <= |body|
    ensures forall i :: 0 <= i < |r| ==> '\n' !in r[i]
    decreases |body| - from
  {
    var k := Find(body, "[ ]", from);
    if k == -1 then []
    else
      var e := k + 3 + IndexOf(body[k + 3..], '\n');
      [body[k + 3..e]] + RawActionItems(body, e)
  }

  /** The end of `re.search(r"\[ \]\s?" + re.escape(item), body)` scanning from `from`:
      at each `[ ]`, one whitespace character before the item is taken when possible. */
  function ItemMatchEnd(body: string, item: string, from: nat): (r: Option<nat>)
    requires from <= |body|
    ensures r.Some? ==> r.value <= |body|
    decreases |body| - from
  {
    var k := Find(body, "[ ]", from);
    if k == -1 then None
    else if MatchAtBox(body, item, k).Some? then MatchAtBox(body, item, k)
    else ItemMatchEnd(body, item, k + 1)
  }

  /** The match at the `[ ]` found at `k`, if the item follows it there. */
  function MatchAtBox(body: string, item: string, k: nat): (r: Option<nat>)
    ensures r.Some? ==> r.value <= |body|
    ensures OccursAt(body, item, k + 3) ==> r.Some?
  {
    if k + 3 < |body| && IsSpace(body[k + 3]) && OccursAt(body, item, k + 4) then Some(k + 4 + |item|)
    else if OccursAt(body, item, k + 3) then Some(k + 3 + |item|)
    else None
  }

  /** The comment of an action item: when the line after it holds `<comment>`, the
      stripped text between the first `<comment>` and the next `</comment>`. */
  function CommentAfter(remaining: string): string {
    var lines := SplitLines(remaining);
    var nextLine := if |lines| > 1 then Strip(lines[1]) else [];
    if !Contains(nextLine, "<comment>") then []
    else
      var i := Find(remaining, "<comment>", 0);
      if i == -1 then []
      else
        var j := Find(remaining, "</comment>", i + 9);
        if j == -1 then [] else Strip(remaining[i + 9..j])
  }

  /** `actionItemsWithComments`, filled item by item; a later item with the same
      stripped text overwrites an earlier one. */
  function CommentsOf(body: string, raw: seq<string>): map<string, string> {
    if raw == [] then map[]
    else
      var m := CommentsOf(body, raw[..|raw| - 1]);
      var item := raw[|raw| - 1];
      match ItemMatchEnd(body, item, 0)
      case None => m
      case Some(e) => m[Strip(item) := CommentAfter(body[e..])]
  }

  /** The action-item loop of `get_Note_from_path`. */
  method ActionItems(body: string) returns (items: seq<string>, comments: map<string, string>)
    ensures items == StripEach(RawActionItems(body, 0))
    ensures comments == CommentsOf(body, RawActionItems(body, 0))
    ensures forall key :: key in comments ==> key in items
    ensures forall item :: item in items ==> item in comments
  {
    var raw := RawActionItems(body, 0);
    items := [];
    comments := map[];
    for i := 0 to |raw|
      invariant items == StripEach(raw[..i])
      invariant comments == CommentsOf(body, raw[..i])
    {
      var item := raw[i];
      ActionStep(body, raw, i);
      items := items + [Strip(item)];
      var m := ItemMatchEnd(body, item, 0);
      if m.Some? {
        comments := comments[Strip(item) := CommentAfter(body[m.value..])];
      }
    }
    assert raw[..|raw|] == raw;
    CommentKeys(body, raw);
    forall key | key in comments
      ensures key in items
    {
      var j :| 0 <= j < |raw| && key == Strip(raw[j]);
      StripEachAt(raw, j);
    }
    ItemsHaveComments(body);
  }

  lemma ActionStep(body: string, raw: seq<string>, i: nat)
    requires i < |raw|
    ensures StripEach(raw[..i + 1]) == StripEach(raw[..i]) + [Strip(raw[i])]
    ensures CommentsOf(body, raw[..i + 1]) ==
      match ItemMatchEnd(body, raw[i], 0)
      case None => CommentsOf(body, raw[..i])
      case Some(e) => CommentsOf(body, raw[..i])[Strip(raw[i]) := CommentAfter(body[e..])]
  {
    assert raw[..i + 1][..i] == raw[..i];
    assert raw[..i + 1] == raw[..i] + [raw[i]];
    StripEachSnoc(raw[..i], raw[i]);
  }

  /** Every key of the comment map is one of the (stripped) action items. */
  lemma {:induction false} CommentKeys(body: string, raw: seq<string>)
    ensures forall key :: key in CommentsOf(body, raw) ==> exists j :: 0 <= j < |raw| && key == Strip(raw[j])
  {
    if raw != [] {
      var init := raw[..|raw| - 1];
      CommentKeys(body, init);
      CommentKeysStep(body, raw);
      forall key | key in CommentsOf(body, raw)
        ensures exists j :: 0 <= j < |raw| && key == Strip(raw[j])
      {
        if key in CommentsOf(body, init) {
          var j :| 0 <= j < |init| && key == Strip(init[j]);
          assert raw[j] == init[j];
        } else {
          assert key == Strip(raw[|raw| - 1]);
        }
      }
    }
  }

  lemma CommentKeysStep(body: string, raw: seq<string>)
    requires raw != []
    ensures forall key :: key in CommentsOf(body, raw) ==>
      key in CommentsOf(body, raw[..|raw| - 1]) || key == Strip(raw[|raw| - 1])
  {
  }

  /** Every action item is a key of the comment map. */
  lemma ItemsHaveComments(body: string)
    ensures forall item :: item in StripEach(RawActionItems(body, 0)) ==>
      item in CommentsOf(body, RawActionItems(body, 0))
  {
    var raw := RawActionItems(body, 0);
    RawItemsMatched(body, 0);
    forall item | item in StripEach(raw)
      ensures item in CommentsOf(body, raw)
    {
      var j :| 0 <= j < |raw| && StripEach(raw)[j] == item;
      StripEachAt(raw, j);
      CommentKeyOf(body, raw, j);
    }
  }

  /** Every raw item sits right after its own `[ ]`, so the comment search finds
      each of them. */
  lemma {:induction false} RawItemsMatched(body: string, from: nat)
    requires from <= |body|
    ensures forall item :: item in RawActionItems(body, from) ==> ItemMatchEnd(body, item, 0).Some?
    decreases |body| - from
  {
    var k := Find(body, "[ ]", from);
    if k != -1 {
      var e := k + 3 + IndexOf(body[k + 3..], '\n');
      var item := body[k + 3..e];
      assert RawActionItems(body, from) == [item] + RawActionItems(body, e);
      assert OccursAt(body, item, k + 3);
      ItemMatched(body, 0, k, item);
      RawItemsMatched(body, e);
    }
  }

  /** When the search finds every item, the stripped item `j` is a key of the
      comment map. */
  lemma {:induction false} CommentKeyOf(body: string, raw: seq<string>, j: nat)
    requires j < |raw| && forall item :: item in raw ==> ItemMatchEnd(body, item, 0).Some?
    ensures Strip(raw[j]) in CommentsOf(body, raw)
    decreases |raw|
  {
    var init := raw[..|raw| - 1];
    var m := CommentsOf(body, raw);
    CommentsOfGrows(body, raw);
    if j < |raw| - 1 {
      var item := init[j];
      assert raw[j] == item;
      CommentKeyOf(body, init, j);
      KeyKept(CommentsOf(body, init), m, Strip(item));
    } else {
      assert raw[j] == raw[|raw| - 1];
    }
  }

  lemma KeyKept(m: map<string, string>, m': map<string, string>, key: string)
    requires key in m && forall k :: k in m ==> k in m'
    ensures key in m'
  {
  }

  /** A matched item adds its key and keeps the earlier ones. */
  lemma CommentsOfGrows(body: string, raw: seq<string>)
    requires raw != [] && ItemMatchEnd(body, raw[|raw| - 1], 0).Some?
    ensures forall key :: key in CommentsOf(body, raw[..|raw| - 1]) ==> key in CommentsOf(body, raw)
    ensures Strip(raw[|raw| - 1]) in CommentsOf(body, raw)
  {
  }

  /** A body has action items exactly when it holds `[ ]`. */
  lemma ActionItemsExactlyWhenBox(body: string)
    ensures RawActionItems(body, 0) != [] <==> Contains(body, "[ ]")
  {
  }

  /** Every action item is found again by the comment search, so no item is missing
      from `actionItemsWithComments`. */
  lemma {:induction false} ItemMatched(body: string, from: nat, k: nat, item: string)
    requires from <= k && OccursAt(body, "[ ]", k) && OccursAt(body, item, k + 3)
    ensures ItemMatchEnd(body, item, from).Some?
    decreases |body| - from
  {
    var f := Find(body, "[ ]", from);
    FindBefore(body, "[ ]", from, k);
    if f < k {
      ItemMatched(body, f + 1, k, item);
    }
    ItemMatchAtBox(body, item, from, f, k);
  }

  /** At the next `[ ]` the search either matches or moves one character on. */
  lemma ItemMatchAtBox(body: string, item: string, from: nat, f: int, k: nat)
    requires from <= |body| && f == Find(body, "[ ]", from) && f != -1 && f <= k
    requires OccursAt(body, item, k + 3)
    requires f < k ==> ItemMatchEnd(body, item, f + 1).Some?
    ensures ItemMatchEnd(body, item, from).Some?
  {
    ItemMatchStep(body, item, from, f);
    if f == k {
      assert OccursAt(body, item, f + 3);
    }
  }

  /** The search succeeds at the next `[ ]` when the item follows it, and otherwise
      when it succeeds one character on. */
  lemma ItemMatchStep(body: string, item: string, from: nat, f: int)
    requires from <= |body| && f == Find(body, "[ ]", from) && f != -1
    ensures f + 3 <= |body|
    ensures ItemMatchEnd(body, item, from)
         == if MatchAtBox(body, item, f).Some? then MatchAtBox(body, item, f) else ItemMatchEnd(body, item, f + 1)
  {
  }

  /** Action items as a checklist writes them: one `- [ ] item` line each. */
  function Checklist(items: seq<string>): string {
    if items == [] then [] else "\n- [ ] " + items[0] + Checklist(items[1..])
  }

  /** The lines of a checklist give back its items, each after the one space. */
  lemma {:induction false} RawItemsOfChecklist(text: string, from: nat, items: seq<string>)
    requires from <= |text| && text[from..] == Checklist(items)
    requires forall i :: 0 <= i < |items| ==> '\n' !in items[i]
    ensures RawActionItems(text, from) == Spaced(items)
    decreases items
  {
    if items == [] {
      assert from == |text|;
    } else {
      var item := items[0];
      var rest := Checklist(items[1..]);
      assert Checklist(items) == "\n- [ ] " + item + rest;
      assert rest == [] || rest[0] == '\n';
      ChecklistLine(text, from, item, rest);
      forall i | 0 <= i < |items[1..]| ensures '\n' !in items[1..][i] {
        assert items[1..][i] == items[i + 1];
      }
      RawItemsOfChecklist(text, from + 7 + |item|, items[1..]);
      assert Spaced(items) == [" " + item] + Spaced(items[1..]);
    }
  }

  lemma ChecklistLine(text: string, from: nat, item: string, rest: string)
    requires from <= |text| && text[from..] == "\n- [ ] " + item + rest
    requires '\n' !in item && (rest == [] || rest[0] == '\n')
    ensures from + 7 + |item| <= |text| && text[from + 7 + |item|..] == rest
    ensures RawActionItems(text, from) == [" " + item] + RawActionItems(text, from + 7 + |item|)
  {
    var e := from + 7 + |item|;
    ChecklistLineParts(text, from, item, rest);
    BoxAfterDash(text, from);
    var line := text[from + 6..];
    assert line[..1 + |item|] == " " + item;
    IndexOfAt(line, '\n', 1 + |item|);
  }

  lemma ChecklistLineParts(text: string, from: nat, item: string, rest: string)
    requires from <= |text| && text[from..] == "\n- [ ] " + item + rest
    ensures from + 7 + |item| <= |text|
    ensures text[from..from + 7] == "\n- [ ] "
    ensures text[from + 6..] == " " + item + rest
    ensures text[from + 6..from + 7 + |item|] == " " + item
    ensures text[from + 7 + |item|..] == rest
  {
    var t := text[from..];
    assert t == "\n- [ ] " + (item + rest);
    assert t[..7] == "\n- [ ] ";
    assert t[6..] == " " + item + rest;
    assert t[6..7 + |item|] == " " + item;
    assert t[7 + |item|..] == rest;
  }

  lemma BoxAfterDash(text: string, from: nat)
    requires from + 7 <= |text| && text[from..from + 7] == "\n- [ ] "
    ensures Find(text, "[ ]", from) == from + 3
  {
    var w := text[from..from + 7];
    assert text[from] == w[0] == '\n';
    assert text[from + 1] == w[1] == '-';
    assert text[from + 2] == w[2] == ' ';
    assert text[from + 3] == w[3] == '[';
    assert text[from + 4] == w[4] == ' ';
    assert text[from + 5] == w[5] == ']';
    assert !OccursAt(text, "[ ]", from) && !OccursAt(text, "[ ]", from + 1) && !OccursAt(text, "[ ]", from + 2);
    assert OccursAt(text, "[ ]", from + 3);
  }

  /** Writing items as a checklist and reading the action items back gives the items. */
  lemma ActionItemsOfChecklist(items: seq<string>)
    requires forall i :: 0 <= i < |items| ==> '\n' !in items[i] && IsStripped(items[i])
    ensures StripEach(RawActionItems(Checklist(items), 0)) == items
  {
    var text := Checklist(items);
    assert text[0..] == text;
    RawItemsOfChecklist(text, 0, items);
    forall i | 0 <= i < |items|
      ensures StripEach(Spaced(items))[i] == items[i]
    {
      SpacedAt(items, i);
      StripAfterSpace(items[i]);
      StripEachAt(Spaced(items), i);
    }
  }

  lemma StripAfterSpace(item: string)
    requires IsStripped(item)
    ensures Strip(" " + item) == item
  {
    StripPadded(" ", item, []);
    assert " " + item + [] == " " + item;
    StripOfStripped(item);
  }

  lemma {:induction false} SpacedAt(items: seq<string>, i: nat)
    requires i < |items|
    ensures Spaced(items)[i] == " " + items[i]
  {
    if i > 0 {
      SpacedAt(items[1..], i - 1);
    }
  }

  // ---------------------------------------------------------------------------
  // The record

  /** The identifier taken from a file name: cut at the first `.`, then at the first `_`. */
  function FileNameStem(fileName: string): (r: string)
    ensures StartsWith(fileName, r) && '.' !in r && '_' !in r
    ensures fileName != [] && fileName[0] != '.' && fileName[0] != '_' ==> r != []
  {
    StemFacts(fileName);
    BeforeFirst(BeforeFirst(fileName, '.'), '_')
  }

  lemma StemFacts(fileName: string)
    ensures var base := BeforeFirst(fileName, '.'); var stem := BeforeFirst(base, '_');
      StartsWith(fileName, stem) && (fileName != [] && fileName[0] != '.' && fileName[0] != '_' ==> stem != [])
  {
    var base := BeforeFirst(fileName, '.');
    var stem := BeforeFirst(base, '_');
    assert fileName[..|base|] == base && base[..|stem|] == stem;
    assert fileName[..|stem|] == stem;
    if fileName != [] && fileName[0] != '.' && fileName[0] != '_' {
      assert base != [];
      assert base[0] == fileName[0];
      assert stem != [];
    }
  }

  /** The front-matter answers read as "private". */
  predicate IsPrivateAnswer(v: string) {
    Lower(v) in {"true", "t", "yes", "y", "positive"}
  }

  /** The identifier: the front-matter `id`, else the file-name stem. */
  function NoteId(fm: string, fileName: string): (r: string)
    ensures FileNameStem(fileName) != [] ==> r != []
  {
    var frontId := StringValueFromFrontMatter("id", fm);
    if frontId == [] then FileNameStem(fileName) else frontId
  }

  /** The title: the front-matter `title`, else the identifier. */
  function NoteTitle(fm: string, id: string): (r: string)
    ensures id != [] ==> r != []
  {
    var frontTitle := StringValueFromFrontMatter("title", fm);
    if frontTitle == [] then id else frontTitle
  }

  /** The type: the front-matter `type`, else "unknown". */
  function NoteType(fm: string): (r: string)
    ensures r != []
  {
    var frontType := StringValueFromFrontMatter("type", fm);
    if frontType == [] then "unknown" else frontType
  }

  /** The date: the `start date` (or `created`) of the front matter, else the file time. */
  function NoteDate(fm: string, osFileDateTime: string): (r: string)
    ensures osFileDateTime != [] ==> r != []
  {
    var startDate := DateFromFrontMatter(fm, "start date");
    if startDate == [] then osFileDateTime else startDate
  }

  /** The record of a note file that exists. */
  function NoteOfText(text: string, fileName: string, osFileDateTime: string, archivedProjects: set<string>): (r: NoteData)
    ensures r.noteType != [] && r.fileName == fileName && r.osFileDateTime == osFileDateTime
    ensures osFileDateTime != [] ==> r.date != []
    ensures FileNameStem(fileName) != [] ==> r.id != [] && r.title != []
    ensures r.archivedProject ==> r.project != [] && r.project in archivedProjects
  {
    var fm := FrontMatter(text);
    var id := NoteId(fm, fileName);
    var project := StringValueFromFrontMatter("project", fm);
    var body := Body(text);
    var raw := RawActionItems(body, 0);
    NoteData(
      id := id,
      fileName := fileName,
      date := NoteDate(fm, osFileDateTime),
      osFileDateTime := osFileDateTime,
      noteType := NoteType(fm),
      title := NoteTitle(fm, id),
      project := project,
      archivedProject := project != [] && project in archivedProjects,
      tags := SetOf(FrontMatterTags(text)) + SetOf(InlineTags(text, 0)),
      keywords := ListValueFromFrontMatter("keywords", fm),
      retention := StringValueFromFrontMatter("retention", fm),
      author := StringValueFromFrontMatter("author", fm),
      private := IsPrivateAnswer(StringValueFromFrontMatter("private", fm)),
      frontMatter := fm,
      noteBody := body,
      backLinks := Backlinks(text),
      archived := StringValueFromFrontMatter("archived", fm) == "True",
      hasActionItems := Contains(body, "[ ]"),
      actionItems := StripEach(raw),
      actionItemsWithComments := CommentsOf(body, raw),
      endDate := DateFromFrontMatter(fm, "end date"))
  }

  /** `get_Note_from_path` once the file is read: `None` for a missing file. */
  function NoteOf(content: Option<string>, fileName: string, osFileDateTime: string, archivedProjects: set<string>): (r: NoteData)
    ensures content.None? ==> r == EmptyNote
  {
    match content
    case None => EmptyNote
    case Some(text) => NoteOfText(text, fileName, osFileDateTime, archivedProjects)
  }

  /** A note says it has action items exactly when it lists some. */
  lemma HasActionItemsExactly(text: string, fileName: string, osFileDateTime: string, archivedProjects: set<string>)
    ensures var note := NoteOfText(text, fileName, osFileDateTime, archivedProjects);
      note.hasActionItems <==> note.actionItems != []
  {
    ActionItemsExactlyWhenBox(Body(text));
  }

  /** `get_Note_from_path` with the file read done: the tag set and the action items
      are gathered by their loops. */
  method NoteFromText(content: Option<string>, fileName: string, osFileDateTime: string, archivedProjects: set<string>)
    returns (note: NoteData)
    ensures note == NoteOf(content, fileName, osFileDateTime, archivedProjects)
  {
    if content.None? {
      return EmptyNote;
    }
    var text := content.value;
    var fm := FrontMatter(text);
    var date := NoteDate(fm, osFileDateTime);
    var dateEnd := DateFromFrontMatter(fm, "end date");
    var id := NoteId(fm, fileName);
    var project := StringValueFromFrontMatter("project", fm);
    var archivedProject := project != [] && project in archivedProjects;
    var noteType := NoteType(fm);
    var title := NoteTitle(fm, id);
    var tags := TagsFromText(text);
    var body := Body(text);
    var actionItems, comments := ActionItems(body);
    note := NoteData(
      id := id,
      fileName := fileName,
      date := date,
      osFileDateTime := osFileDateTime,
      noteType := noteType,
      title := title,
      project := project,
      archivedProject := archivedProject,
      tags := tags,
      keywords := ListValueFromFrontMatter("keywords", fm),
      retention := StringValueFromFrontMatter("retention", fm),
      author := StringValueFromFrontMatter("author", fm),
      private := IsPrivateAnswer(StringValueFromFrontMatter("private", fm)),
      frontMatter := fm,
      noteBody := body,
      backLinks := Backlinks(text),
      archived := StringValueFromFrontMatter("archived", fm) == "True",
      hasActionItems := Contains(body, "[ ]"),
      actionItems := actionItems,
      actionItemsWithComments := comments,
      endDate := dateEnd);
  }

  /** A note file whose name allows it to exist has an identifier and a title. */
  lemma EligibleNoteNamed(text: string, fileName: string, osFileDateTime: string, archivedProjects: set<string>)
    requires IsEligibleNoteFile(fileName)
    ensures var note := NoteOfText(text, fileName, osFileDateTime, archivedProjects);
      note.id != [] && note.title != []
  {
    EligibleStem(fileName);
  }

  // ---------------------------------------------------------------------------
  // The note list

  /** The file names `get_Notes_as_list` reads: not hidden, not starting with `_`,
      ending with `.md`. */
  predicate IsEligibleNoteFile(name: string) {
    !StartsWith(name, ".") && !StartsWith(name, "_") && EndsWith(name, ".md")
  }

  lemma EligibleStem(name: string)
    requires IsEligibleNoteFile(name)
    ensures FileNameStem(name) != []
  {
    assert |name| >= 3;
    assert name[..1] == [name[0]];
  }

  /** A file met by the directory walk: its name, its text and its formatted time. */
  datatype FileEntry = FileEntry(name: string, content: string, osFileDateTime: string)

  /** The private and archived-project filters applied to a built note. */
  predicate Listed(note: NoteData, archivedProjects: set<string>, includePrivate: bool, includeArchived: bool) {
    if note.private && !includePrivate then false
    else if note.project != [] && !includeArchived then note.project !in archivedProjects
    else true
  }

  function NoteOfEntry(e: FileEntry, archivedProjects: set<string>): NoteData {
    NoteOfText(e.content, e.name, e.osFileDateTime, archivedProjects)
  }

  /** What one walked file contributes to the list: its note, when the name is eligible
      and the note passes the filters. */
  function Kept(name: string, note: NoteData, archivedProjects: set<string>, includePrivate: bool, includeArchived: bool): (r: seq<NoteData>)
    ensures |r| <= 1
  {
    if IsEligibleNoteFile(name) && Listed(note, archivedProjects, includePrivate, includeArchived) then [note] else []
  }

  /** The notes `get_Notes_as_list` returns for the files in walk order. */
  function NotesListed(entries: seq<FileEntry>, archivedProjects: set<string>, includePrivate: bool, includeArchived: bool)
    : (r: seq<NoteData>)
    ensures |r| <= |entries|
  {
    if entries == [] then []
    else
      NotesListed(entries[..|entries| - 1], archivedProjects, includePrivate, includeArchived)
        + Kept(entries[|entries| - 1].name, NoteOfEntry(entries[|entries| - 1], archivedProjects),
               archivedProjects, includePrivate, includeArchived)
  }

  /** The private and archived-project filters on one built note. */
  method FilterNote(note: NoteData, archivedProjects: set<string>, includePrivate: bool, includeArchived: bool)
    returns (kept: seq<NoteData>)
    ensures kept == if Listed(note, archivedProjects, includePrivate, includeArchived) then [note] else []
  {
    kept := [];
    if note.private && !includePrivate {
    } else if note.project != [] && !includeArchived {
      if note.project in archivedProjects {
      } else {
        kept := [note];
      }
    } else {
      kept := [note];
    }
  }

  /** One walked file: skipped unless its name is eligible, else built and filtered. */
  method KeepEntry(e: FileEntry, archivedProjects: set<string>, includePrivate: bool, includeArchived: bool)
    returns (kept: seq<NoteData>)
    ensures kept == Kept(e.name, NoteOfEntry(e, archivedProjects), archivedProjects, includePrivate, includeArchived)
  {
    kept := [];
    if IsEligibleNoteFile(e.name) {
      var note := NoteFromText(Some(e.content), e.name, e.osFileDateTime, archivedProjects);
      kept := FilterNote(note, archivedProjects, includePrivate, includeArchived);
    }
  }

  lemma NotesListedSnoc(entries: seq<FileEntry>, i: nat, archivedProjects: set<string>, includePrivate: bool, includeArchived: bool)
    requires i < |entries|
    ensures NotesListed(entries[..i + 1], archivedProjects, includePrivate, includeArchived)
      == NotesListed(entries[..i], archivedProjects, includePrivate, includeArchived)
         + Kept(entries[i].name, NoteOfEntry(entries[i], archivedProjects), archivedProjects, includePrivate, includeArchived)
  {
    assert entries[..i + 1][..i] == entries[..i];
  }

  /** `get_Notes_as_list` over the walked files. */
  method NotesAsList(entries: seq<FileEntry>, archivedProjects: set<string>, includePrivate: bool, includeArchived: bool)
    returns (notes: seq<NoteData>)
    ensures notes == NotesListed(entries, archivedProjects, includePrivate, includeArchived)
  {
    notes := [];
    for i := 0 to |entries|
      invariant notes == NotesListed(entries[..i], archivedProjects, includePrivate, includeArchived)
    {
      notes := ListEntry(entries, i, notes, archivedProjects, includePrivate, includeArchived);
    }
    assert entries[..|entries|] == entries;
  }

  /** One iteration of the walk: the list so far, extended by the entry's note when kept. */
  method ListEntry(entries: seq<FileEntry>, i: nat, notes: seq<NoteData>, archivedProjects: set<string>, includePrivate: bool, includeArchived: bool)
    returns (notes': seq<NoteData>)
    requires i < |entries| && notes == NotesListed(entries[..i], archivedProjects, includePrivate, includeArchived)
    ensures notes' == NotesListed(entries[..i + 1], archivedProjects, includePrivate, includeArchived)
  {
    var kept := KeepEntry(entries[i], archivedProjects, includePrivate, includeArchived);
    NotesListedSnoc(entries, i, archivedProjects, includePrivate, includeArchived);
    notes' := notes + kept;
  }

  lemma KeptSound(e: FileEntry, archivedProjects: set<string>, includePrivate: bool, includeArchived: bool)
    ensures var r := Kept(e.name, NoteOfEntry(e, archivedProjects), archivedProjects, includePrivate, includeArchived);
      forall n | n in r :: Listed(n, archivedProjects, includePrivate, includeArchived) && n.id != [] && n.title != []
  {
    var note := NoteOfEntry(e, archivedProjects);
    if IsEligibleNoteFile(e.name) {
      EligibleNoteNamed(e.content, e.name, e.osFileDateTime, archivedProjects);
    }
    KeptOf(e.name, note, archivedProjects, includePrivate, includeArchived);
  }

  lemma KeptOf(name: string, note: NoteData, archivedProjects: set<string>, includePrivate: bool, includeArchived: bool)
    requires IsEligibleNoteFile(name) ==> note.id != [] && note.title != []
    ensures forall n | n in Kept(name, note, archivedProjects, includePrivate, includeArchived) ::
      Listed(n, archivedProjects, includePrivate, includeArchived) && n.id != [] && n.title != []
  {
  }

  /** Every listed note passes the filters, came from an eligible file, and so has an
      identifier and a title. */
  lemma {:induction false} NotesListedSound(entries: seq<FileEntry>, archivedProjects: set<string>, includePrivate: bool, includeArchived: bool)
    ensures var r := NotesListed(entries, archivedProjects, includePrivate, includeArchived);
      forall n | n in r :: Listed(n, archivedProjects, includePrivate, includeArchived) && n.id != [] && n.title != []
  {
    if entries != [] {
      NotesListedSound(entries[..|entries| - 1], archivedProjects, includePrivate, includeArchived);
      KeptSound(entries[|entries| - 1], archivedProjects, includePrivate, includeArchived);
    }
  }

  /** Without private notes asked for, none is listed; without archived projects asked
      for, no note of an archived project is listed. */
  lemma ListedExcludes(note: NoteData, archivedProjects: set<string>, includePrivate: bool, includeArchived: bool)
    requires Listed(note, archivedProjects, includePrivate, includeArchived)
    ensures !includePrivate ==> !note.private
    ensures !includeArchived && note.project != [] ==> note.project !in archivedProjects
  {
  }

  /** Every eligible file whose note passes the filters is listed. */
  lemma {:induction false} NotesListedComplete(entries: seq<FileEntry>, archivedProjects: set<string>, includePrivate: bool, includeArchived: bool, k: nat)
    requires k < |entries| && IsEligibleNoteFile(entries[k].name)
    requires Listed(NoteOfEntry(entries[k], archivedProjects), archivedProjects, includePrivate, includeArchived)
    ensures NoteOfEntry(entries[k], archivedProjects) in NotesListed(entries, archivedProjects, includePrivate, includeArchived)
  {
    var init := entries[..|entries| - 1];
    var note := NoteOfEntry(entries[k], archivedProjects);
    if k == |entries| - 1 {
      assert Kept(entries[k].name, note, archivedProjects, includePrivate, includeArchived) == [note];
    } else {
      assert init[k] == entries[k];
      NotesListedComplete(init, archivedProjects, includePrivate, includeArchived, k);
    }
  }

  // ---------------------------------------------------------------------------
  // Order by date

  /** `x` sorts strictly before `y`: a later date first when descending, an earlier one
      first otherwise (dates compare as strings). */
  predicate StrictlyBefore(x: NoteData, y: NoteData, descending: bool) {
    if descending then Less(y.date, x.date) else Less(x.date, y.date)
  }

  predicate SortedByDate(notes: seq<NoteData>, descending: bool) {
    forall i, j :: 0 <= i < j < |notes| ==> !StrictlyBefore(notes[j], notes[i], descending)
  }

  /** Inserting into a sorted list, after every note it does not sort strictly before. */
  function InsertByDate(x: NoteData, sorted: seq<NoteData>, descending: bool): (r: seq<NoteData>)
    ensures multiset(r) == multiset(sorted) + multiset{x}
  {
    if sorted == [] then [x]
    else if StrictlyBefore(x, sorted[0], descending) then [x] + sorted
    else
      assert sorted == [sorted[0]] + sorted[1..];
      [sorted[0]] + InsertByDate(x, sorted[1..], descending)
  }

  /** Dates compare as a total order: at most and then at most is at most. */
  lemma AtMostTransitive(x: string, y: string, z: string)
    requires x == y || Less(x, y)
    requires y == z || Less(y, z)
    ensures !Less(z, x)
  {
    if Less(z, x) {
      if x == y {
        if y == z {
          LessIrreflexive(x);
        } else {
          LessTransitive(z, x, z);
          LessIrreflexive(z);
        }
      } else if y == z {
        LessTransitive(x, y, x);
        LessIrreflexive(x);
      } else {
        LessTransitive(x, y, z);
        LessTransitive(x, z, x);
        LessIrreflexive(x);
      }
    }
  }

  /** `!StrictlyBefore` is transitive. */
  lemma NotBeforeTransitive(a: NoteData, b: NoteData, c: NoteData, descending: bool)
    requires !StrictlyBefore(b, a, descending) && !StrictlyBefore(c, b, descending)
    ensures !StrictlyBefore(c, a, descending)
  {
    LessTotal(a.date, b.date);
    LessTotal(b.date, c.date);
    if descending {
      AtMostTransitive(c.date, b.date, a.date);
    } else {
      AtMostTransitive(a.date, b.date, c.date);
    }
  }

  lemma NotBeforeWhenBefore(x: NoteData, y: NoteData, descending: bool)
    requires StrictlyBefore(x, y, descending)
    ensures !StrictlyBefore(y, x, descending)
  {
    if StrictlyBefore(y, x, descending) {
      if descending {
        LessTransitive(y.date, x.date, y.date);
      } else {
        LessTransitive(x.date, y.date, x.date);
      }
      LessIrreflexive(x.date);
      LessIrreflexive(y.date);
    }
  }

  /** A note no later in the order than `h` stays so after insertion among notes that are. */
  lemma {:induction false} InsertBounded(x: NoteData, sorted: seq<NoteData>, h: NoteData, descending: bool)
    requires !StrictlyBefore(x, h, descending)
    requires forall j :: 0 <= j < |sorted| ==> !StrictlyBefore(sorted[j], h, descending)
    ensures forall j :: 0 <= j < |InsertByDate(x, sorted, descending)| ==>
      !StrictlyBefore(InsertByDate(x, sorted, descending)[j], h, descending)
  {
    if sorted != [] && !StrictlyBefore(x, sorted[0], descending) {
      TailBounded(sorted, h, descending);
      InsertBounded(x, sorted[1..], h, descending);
      ConsBounded(sorted[0], InsertByDate(x, sorted[1..], descending), h, descending);
    } else {
      ConsBounded(x, sorted, h, descending);
    }
  }

  lemma TailBounded(s: seq<NoteData>, h: NoteData, descending: bool)
    requires s != []
    requires forall j :: 0 <= j < |s| ==> !StrictlyBefore(s[j], h, descending)
    ensures forall j :: 0 <= j < |s[1..]| ==> !StrictlyBefore(s[1..][j], h, descending)
  {
    var rest := s[1..];
    forall j | 0 <= j < |rest| ensures !StrictlyBefore(rest[j], h, descending) {
      assert rest[j] == s[j + 1];
    }
  }

  lemma ConsBounded(y: NoteData, t: seq<NoteData>, h: NoteData, descending: bool)
    requires !StrictlyBefore(y, h, descending)
    requires forall j :: 0 <= j < |t| ==> !StrictlyBefore(t[j], h, descending)
    ensures forall j :: 0 <= j < |[y] + t| ==> !StrictlyBefore(([y] + t)[j], h, descending)
  {
    var r := [y] + t;
    forall j | 0 <= j < |r| ensures !StrictlyBefore(r[j], h, descending) {
      if j > 0 {
        assert r[j] == t[j - 1];
      }
    }
  }

  lemma ConsSorted(h: NoteData, t: seq<NoteData>, descending: bool)
    requires SortedByDate(t, descending)
    requires forall j :: 0 <= j < |t| ==> !StrictlyBefore(t[j], h, descending)
    ensures SortedByDate([h] + t, descending)
  {
    var r := [h] + t;
    forall i, j | 0 <= i < j < |r|
      ensures !StrictlyBefore(r[j], r[i], descending)
    {
      if i > 0 {
        assert r[i] == t[i - 1] && r[j] == t[j - 1];
      } else {
        assert r[j] == t[j - 1];
      }
    }
  }

  /** Insertion keeps a list sorted. */
  lemma {:induction false} InsertSorted(x: NoteData, sorted: seq<NoteData>, descending: bool)
    requires SortedByDate(sorted, descending)
    ensures SortedByDate(InsertByDate(x, sorted, descending), descending)
  {
    if sorted == [] {
    } else if StrictlyBefore(x, sorted[0], descending) {
      NotBeforeWhenBefore(x, sorted[0], descending);
      forall j | 0 <= j < |sorted|
        ensures !StrictlyBefore(sorted[j], x, descending)
      {
        if j > 0 {
          NotBeforeTransitive(x, sorted[0], sorted[j], descending);
        }
      }
      ConsSorted(x, sorted, descending);
    } else {
      var rest := sorted[1..];
      assert SortedByDate(rest, descending);
      InsertSorted(x, rest, descending);
      forall j | 0 <= j < |rest|
        ensures !StrictlyBefore(rest[j], sorted[0], descending)
      {
        assert rest[j] == sorted[j + 1];
      }
      InsertBounded(x, rest, sorted[0], descending);
      ConsSorted(sorted[0], InsertByDate(x, rest, descending), descending);
    }
  }

  /** `sort_Notes_by_date`: Python's stable sort by the date string, latest first when
      `descending`; the result holds exactly the given notes. */
  function SortByDate(notes: seq<NoteData>, descending: bool): (r: seq<NoteData>)
    ensures multiset(r) == multiset(notes)
    ensures SortedByDate(r, descending)
  {
    if notes == [] then []
    else
      var init := notes[..|notes| - 1];
      assert notes == init + [notes[|notes| - 1]];
      var sortedInit := SortByDate(init, descending);
      InsertSorted(notes[|notes| - 1], sortedInit, descending);
      InsertByDate(notes[|notes| - 1], sortedInit, descending)
  }
}

# Personal Knowledge Vault — a verified model of the note-processing core

Personal Knowledge Vault keeps a folder of markdown notes with a front-matter
block between `---` lines. The helpers modelled here read those notes and write
new ones:

- they split a note into front matter and body and read single values, keyword
  lists, labelled body values (`**Budget Amount:** 1000`), sections,
  `[[backlinks]]`, dates and tags out of it;
- they build the note record (`NoteData`) with its fallbacks, filter the notes
  of a folder walk and sort them by date;
- they merge a template's `[placeholders]` with the merge data, the author and
  the timestamps, and pick a free note identifier;
- they sanitise titles, encode Obsidian URIs, make project tags and parse
  decimal amounts;
- they derive a task from a task note, choose its kanban column and lay out the
  kanban boards by state and by assignee;
- they turn a markdown string into a small HTML page.

The model is in Dafny, one module per concern:

| module | file | models |
|---|---|---|
| `Wrappers` | `Wrappers.dfy` | `Option` and `Result` |
| `Text` | `Text.dfy` | Python's `str.strip`, `find`, `replace`, `split`, `splitlines`, `startswith` and the ASCII `lower`/`upper` used by the helpers |
| `Decimals` | `Decimals.dfy` | the `Decimal(...)` constructor on the strings the helpers hand it |
| `Notes` | `Notes.dfy` | the readers of `_library/Notes.py` |
| `NoteRecords` | `NoteRecords.dfy` | `get_Note_from_path` as a pure builder, the filters of `get_Notes_as_list`, `sort_Notes_by_date` |
| `Tools` | `Tools.dfy` | the helpers of `_library/Tools.py`, including its own front-matter, body and date readers |
| `Templates` | `Templates.dfy` | `_library/Templates.py` |
| `Projects` | `Projects.dfy` | `TaskData.KanBanColumn`, `loadTaskFromNote` and the two kanban boards of `_library/Projects.py` |
| `Html` | `Html.dfy` | `_library/HTML.py` |

Pure helpers are functions. The helpers that work by updating state are
methods with loops, each proved equal to a specification function:

- the section reader, the tag collector and the header remover of `Notes.py`;
- the action-item loop, the folder walk and the note builder;
- the identifier retry loop;
- the template merge, which also updates the caller's merge data
  (`Templates.MergeData`, a class);
- the bucket-filling loops of the kanban boards;
- the line loop of the HTML converter.

The properties the helpers promise are stated about those specification
functions.

Regular expressions are modelled by what they match:

- `[^\n](.*)` after a label skips exactly one character that is not a line
  break and captures the rest of the line;
- `\[(.*?)\]` stops at the first `]` or line break;
- `#(\w+)` takes the longest run of ASCII word characters.

The Python calls these helpers depend on are parameters of the model:

- the folder walk: a sequence of file entries (name, text, formatted time);
- the project configuration: the set of archived project names;
- the author name;
- the prompt for a missing placeholder: a function `ask`;
- the existing notes: a sequence of records;
- reading and writing identifier timestamps: `parse` and `format`, with
  `parse(format(n)) == Some(n)`. The next timestamp is `format(n + 1)`.

A tags value is merged raw: `_library/Templates.py:97` substitutes the raw
value first, so the `#tag` form built at lines 98-102 finds no placeholder left
(`Templates.TagStepsLone`).

Where the source has a defect (see "## Findings"), the operations model it as
written: the template merge blanks or asks for checkbox placeholders, and the
boards write the fixed example ticket URL. The corrected behaviour is stated
beside it by its own members.

## Model

| member | source | states |
|---|---|---|
| Notes.FrontMatter | _library/Notes.py:689-705 | The front matter is stripped, holds no `---`, and is either empty or a piece of the note. |
| Notes.Body | _library/Notes.py:707-722 | The body is stripped. |
| Notes.FrontMatterBodyRoundTrip | _library/Notes.py:699-722 | For `---\n` + FM + `\n---\n\n` + BODY, with FM stripped and neither part holding `---`, the front matter read back is FM and the body is BODY stripped. |
| Notes.StringValueFromFrontMatter | _library/Notes.py:812-827 | The value is stripped and lies on one line. |
| Notes.StringValueFromLine | _library/Notes.py:822-827 | `prefix:` in any case, then any one non-line-break character, then v up to a line break: the value is v stripped. |
| Notes.StringValueAbsent | _library/Notes.py:822-827 | When `prefix:` occurs nowhere (in any case), the value is "". |
| Notes.ListValueFromFrontMatter | _library/Notes.py:794-810 | Every keyword returned is non-empty, stripped and free of commas. |
| Notes.KeywordsRoundTrip | _library/Notes.py:805-810 | A `keywords: a, b, c` line reads back as exactly `[a, b, c]`, whatever prefix the caller passes. |
| Notes.StringValueFromBody | _library/Notes.py:829-866 | The labelled body value is stripped and lies on one line. |
| Notes.DropLabelResidueOnce | _library/Notes.py:852-862 | A captured `:**x` loses only its colon (the `:**` branch is never reached), and `**:x` loses all three characters. |
| Notes.DropLabelResidueKeeps | _library/Notes.py:852-862 | A value that starts with neither `:` nor `*` is returned unchanged. |
| Notes.ReplaceLineLabelValueAbsent | _library/Notes.py:777-792 | A body in which the label never occurs (in any case) is returned unchanged. |
| Notes.ReplaceThenRead | _library/Notes.py:789-791 | After replacing a label's value in a body that holds the label, the capture after the label is the new value. Reading it back gives the value stripped, unless the stripped value starts with `:` or `*` (the residue step would trim those). |
| Notes.Backlinks | _library/Notes.py:724-736 | Every backlink is non-empty, stripped and free of `]`. |
| Notes.BacklinksOfLinks | _library/Notes.py:735-736 | A text made of `[[t1]]…[[tn]]` with stripped, non-empty targets free of `]` yields exactly `[t1, …, tn]`, duplicates kept, in order. |
| Notes.DateFromFrontMatter | _library/Notes.py:738-758 | The date is stripped and lies on one line. |
| Notes.DateFromProperty | _library/Notes.py:750-753 | A `property: v` line gives v, whatever follows it, `created:` lines included. |
| Notes.DateFromCreated | _library/Notes.py:754-756 | Without the property, a `created: c` line gives c. |
| Notes.DateAbsent | _library/Notes.py:750-758 | With neither the property (after removing `*`) nor `created:`, the date is "". |
| Notes.InlineTags | _library/Notes.py:405 | Every inline tag is a non-empty run of ASCII word characters. |
| Notes.InlineTagFound | _library/Notes.py:405-410 | A `#word` whose word ends at a non-word character or the end of the text is found. |
| Notes.FrontMatterTags | _library/Notes.py:396-402 | The tags of the front-matter `tags:` line are non-empty and hold no `:`, `#` or `,`. |
| Notes.FrontMatterTagsOfLine | _library/Notes.py:396-402 | A `tags: a, b` line yields exactly `[a, b]`. |
| Notes.TagsFromText | _library/Notes.py:382-412 | The loops collect the set of front-matter tags united with the set of inline tags. No tag is empty or holds `:` or `#`, and as a set it has no duplicates. |
| Notes.CollectFrontTags | _library/Notes.py:399-402 | The first loop adds exactly the stripped, non-empty, colon-free pieces. |
| Notes.CollectInlineTags | _library/Notes.py:405-410 | The second loop adds exactly the inline tags. |
| Notes.WordStripped | _library/Notes.py:407-409 | `strip()` and the removal of a leading `#` never change a `\w+` match. |
| Notes.SectionValueFromBody | _library/Notes.py:868-893 | The loop computes the section text: the stripped lines after a line that starts with `# label`, each ended by a line break, up to the next line holding `# `. A line starting with `# label` is itself never kept. |
| Notes.SectionAbsent | _library/Notes.py:880-893 | Without a line starting with `# label`, the section is "". |
| Notes.SectionOfBody | _library/Notes.py:880-893 | Lines before the heading are skipped. The section is exactly its stripped item lines, each with a line break, ending at the next heading or at the end. |
| Notes.RemoveNoteHeaders | _library/Notes.py:760-775 | The loop deletes every `###### ` … `# ` in that order, then strips. |
| Notes.RemoveNoteHeadersChars | _library/Notes.py:770-775 | Removing headers adds no character. |
| Notes.RemoveNoteHeadersPlain | _library/Notes.py:770-775 | A body without `# ` is only stripped. |
| Notes.RemoveNoteHeadersHeading | _library/Notes.py:770-775 | `# title`, with no `#` in the title, becomes the title stripped. |
| NoteRecords.RawActionItems | _library/Notes.py:267 | Every raw action item (the text after `[ ]`) lies on one line. |
| NoteRecords.ActionItems | _library/Notes.py:264-285 | The loop yields the stripped items in order. Its comment map holds the comment of each item whose `[ ]` match is found, and its keys are exactly the items. |
| NoteRecords.CommentKeys | _library/Notes.py:285 | Every key of the comment map is one of the stripped items. |
| NoteRecords.ActionItemsExactlyWhenBox | _library/Notes.py:264-267 | There are action items exactly when the body holds `[ ]`. |
| NoteRecords.ItemMatched | _library/Notes.py:273-274 | An item that follows a `[ ]` is always found again, so its comment is recorded. |
| NoteRecords.RawItemsMatched | _library/Notes.py:267-274 | Every item `findall` returns is found again by the comment search. |
| NoteRecords.CommentKeyOf | _library/Notes.py:267-285 | When the search finds every item, each stripped item is a key of the comment map. |
| NoteRecords.ItemsHaveComments | _library/Notes.py:264-285 | Every action item of a body is a key of its comment map. |
| NoteRecords.ActionItemsOfChecklist | _library/Notes.py:267-268 | A checklist `- [ ] a`, `- [ ] b` … of stripped items yields exactly those items. |
| NoteRecords.FileNameStem | _library/Notes.py:237 | The stem is a prefix of the file name with no `.` and no `_`. It is non-empty when the name starts with neither. |
| NoteRecords.NoteId | _library/Notes.py:235-237 | The identifier is non-empty whenever the file-name stem is. |
| NoteRecords.NoteTitle | _library/Notes.py:250-260 | The title is non-empty whenever the identifier is. |
| NoteRecords.NoteType | _library/Notes.py:247-249 | The type is never empty ("unknown" by default). |
| NoteRecords.NoteDate | _library/Notes.py:228-233 | The date is non-empty whenever the file time is. |
| NoteRecords.NoteOfText | _library/Notes.py:225-314 | The record keeps the file name and file time and has a type. It has a date when the file time is given, an id and a title when the stem is non-empty, and is marked archived only for a listed archived project. |
| NoteRecords.NoteOf | _library/Notes.py:216-220 | A missing file gives the empty record. |
| NoteRecords.HasActionItemsExactly | _library/Notes.py:264-268 | A record says it has action items exactly when its list of them is non-empty. |
| NoteRecords.NoteFromText | _library/Notes.py:202-314 | The builder method, with its action-item loop, computes the record of the note text. |
| NoteRecords.EligibleNoteNamed | _library/Notes.py:235-260 | Every note the walk admits by name (no leading `.` or `_`, ending in `.md`) has a non-empty id and title. |
| NoteRecords.NotesAsList | _library/Notes.py:316-341 | The walk loop returns the listed notes of the entries in walk order. |
| NoteRecords.NotesListed | _library/Notes.py:323-341 | The list is no longer than the walk. |
| NoteRecords.NotesListedSound | _library/Notes.py:326-339 | Every listed note passes the private and archived filters and has an id and a title. |
| NoteRecords.ListedExcludes | _library/Notes.py:330-335 | Without private notes nothing private is listed. Without archived projects, no note of an archived project is listed. |
| NoteRecords.NotesListedComplete | _library/Notes.py:326-339 | Every eligible file whose note passes the filters is listed. |
| NoteRecords.InsertSorted | _library/Notes.py:355 | Inserting into a date-sorted list keeps it sorted. |
| NoteRecords.SortByDate | _library/Notes.py:343-355 | The result is a permutation of the notes, sorted by date, descending or ascending as asked. |
| Tools.LettersAndNumbersOnly | _library/Tools.py:95-105 | Only ASCII letters, digits, `_` and whitespace remain. The result is a subsequence of the input and no longer than the limit. |
| Tools.LettersAndNumbersOnlyTwice | _library/Tools.py:105 | Sanitising twice is sanitising once with the smaller limit, so the function is idempotent. |
| Tools.EncodeForUriEach | _library/Tools.py:145 | The replacement chain encodes character by character: space becomes `%2520`, `#` `%2523`, `:` `%253A`, `/` `%252F` and `%` `%25`. |
| Tools.EncodeForUriShape | _library/Tools.py:135-146 | The encoding holds no space, `#`, `:` or `/`, and every `%` in it is followed by `25`. |
| Tools.EncodeForUriDoubleEncodes | _library/Tools.py:145 | A space encodes as `%2520`, which percent-decodes to `%20`, not to a space. |
| Tools.EncodeForUriIntendedRoundTrip | _library/Tools.py:135-146 | With `%` escaped first, percent-decoding the encoding gives back the input. |
| Tools.TagFromProjectName | _library/Tools.py:540-555 | The tag starts with `#p_` and holds no space. |
| Tools.TagFromProjectNameShape | _library/Tools.py:551-555 | The tag is `#p_` followed by the sanitised name with spaces turned into `_`. The `&`→`and` step never fires, because sanitising removed every `&`. |
| Tools.UniqueMeansNoNoteHasIt | _library/Tools.py:498-514 | An identifier is free exactly when no note has it as its id. |
| Tools.UniqueByIdOnly | _library/Tools.py:508-514 | Freedom depends only on the notes' ids, not on file names or anything else. |
| Tools.GenerateUniqueIdentifier | _library/Tools.py:516-538 | A free first candidate is returned unchanged. Otherwise the timestamp advances one second per retry, keeping the `_type_title` suffix, and the result is the first free candidate: every earlier one is taken. A taken first candidate with an unreadable timestamp fails. |
| Tools.FrontMatterAtStart | _library/Tools.py:655-670 | The front matter is stripped, and "" unless the note opens with `---` and a line break. |
| Tools.BodyOfNote | _library/Tools.py:672-690 | The body is stripped. |
| Tools.FrontMatterAtStartRoundTrip | _library/Tools.py:666-690 | The composed note reads back as FM and BODY stripped, as in the `Notes.py` copy. |
| Tools.AfterFirstMarker | _library/Tools.py:687-688 | After removing the block, a body still holding `---` keeps only the stripped text after the first one; otherwise it is unchanged. |
| Tools.FrontMatterDate | _library/Tools.py:706-725 | This module's date reader is the `Notes.py` reader with the property fixed to `date`. The date is stripped and on one line. |
| Tools.FrontMatterDateOfLine | _library/Tools.py:717-719 | A `date: v` line gives v. |
| Tools.FrontMatterDateFromCreated | _library/Tools.py:721-723 | Without `date:`, a `created: c` line gives c. |
| Tools.LabelValueFromBody | _library/Tools.py:780-804 | The value is stripped and lies on one line. |
| Tools.LabelValueFromLine | _library/Tools.py:796-802 | The label in any case, one character, then v up to a line break gives v stripped. |
| Tools.BodyValueReadersAgree | _library/Tools.py:780-804 | The `Notes.py` reader returns this module's value with its leading colon residue dropped. |
| Tools.CleanAmountUndecorated | _library/Tools.py:819 | Cleaning removes exactly the characters `,`, `$`, space and `%`. |
| Tools.DecimalOfDecoratedDigits | _library/Tools.py:819-828 | An amount that is digits once decorations are removed parses to that integer. |
| Tools.DecimalWithoutDigits | _library/Tools.py:819-828 | An amount with no digit gives `0.00`. |
| Tools.HasDigitIfParsed | _library/Tools.py:821-826 | Only a string holding a digit parses. |
| Decimals.ParseDigitString | _library/Projects.py:109-111 | A digit string parses to its integer value with exponent 0. |
| Templates.RawTags | _library/Templates.py:40 | Each captured placeholder name holds no `]` and no line break. |
| Templates.MergeableTagsAreNames | _library/Templates.py:40-43 | The mergeable tags are distinct, and `[name]` is among them exactly when name was captured. |
| Templates.TagsOpenWithBracket | _library/Templates.py:42 | Every mergeable tag starts with `[`. |
| Templates.LinkIsTag | _library/Templates.py:40-43 | A backlink `[[name]]` yields the single tag `[[name]`. |
| Templates.MergeData.Put | _library/Templates.py:83 | Assigning a key overwrites its value. A new key joins the end of the key order; an existing key keeps its place. |
| Templates.FixedLookup | _library/Templates.py:66-73 | The fixed placeholders get these values: the timestamp before its first `_`, the full timestamp, its part before the first space, and the author. |
| Templates.FixedPlaceholdersLone | _library/Templates.py:66-73 | A template holding one placeholder `[x]` gets x's fixed value, or is left as it is. |
| Templates.ReplaceEachLone | _library/Templates.py:86-93 | The synonym loop of the project or author group fills a lone placeholder `[x]` exactly when x is one of the group's names. |
| Templates.TagStepsLone | _library/Templates.py:94-102 | A tags key fills a tags placeholder with the raw value, not the `#tag` form. |
| Templates.ReplaceIgnoreCaseLone | _library/Templates.py:106-109 | Another key fills `[x]` exactly when it equals x ignoring ASCII case. |
| Templates.KeyStepLone | _library/Templates.py:85-109 | One merge-data entry fills a lone placeholder exactly when its group or its name matches. |
| Templates.MergeKeysLone | _library/Templates.py:85-109 | The merge data fills a lone placeholder with the value of the first entry, in key order, whose group or name matches it. Later entries find no placeholder left. |
| Templates.TitleOfLast | _library/Templates.py:103-105 | The title is the value of the last key that spells `TITLE` in any case and belongs to no group, else "". |
| Templates.AsWrittenIgnoresCheckboxes | _library/Templates.py:115-128 | As written, a bracketed leftover never equals a checkbox synonym, so it is blanked (silent) or asked for. |
| Templates.CheckboxBlankedAsWritten | _library/Templates.py:116-125 | As written, `[CHECKBOX_UNCHECKED]` vanishes in silent mode. |
| Templates.CheckboxFilled | _library/Templates.py:116-121 | With the comparison made on the name, `[CHECKBOX_UNCHECKED]` becomes `- [ ] `. |
| Templates.LeftoversLone | _library/Templates.py:113-128 | As written, a lone leftover, a checkbox name included, becomes "" in silent mode, or the answer `ask` gives. |
| Templates.LeftoversLoneIntended | _library/Templates.py:113-128 | With the comparison made on the name, a lone leftover becomes a checkbox for a checkbox synonym, otherwise "" in silent mode or the answer `ask` gives. |
| Templates.LeftoversNoBracket | _library/Templates.py:113-128 | A template without `[` passes the leftover step unchanged. |
| Templates.MergedTemplateLone | _library/Templates.py:46-133 | A template with one placeholder is merged into its fill: fixed value, merge-data value, then "" or the prompt's answer (checkbox names included). Leftovers are skipped when processing is off. |
| Templates.MergedTemplateNoBracket | _library/Templates.py:46-133 | A template without placeholders is returned as it is. |
| Templates.MergeTemplateWithValues | _library/Templates.py:46-133 | The merge records the author under `Current User` in the caller's merge data and returns the merged template, leftovers handled as written. The identifier is the candidate for the stamp before the first `_`, the type `task` or (with leftover processing off) `atomic`, and the merge data's title; when that is taken, the candidate for the first later second that is free; it fails only when the first is taken and the stamp does not parse. |
| Templates.MergeEntries | _library/Templates.py:85-109 | The loop over the merge data applies each entry in key order and picks up the title. |
| Templates.ApplyKey | _library/Templates.py:86-109 | One entry is applied by its group, or case-insensitively by its name. |
| Templates.ReplaceSynonyms | _library/Templates.py:86-93 | The synonym loop replaces every placeholder of the group with the value. |
| Templates.ReplaceTagSynonyms | _library/Templates.py:94-102 | The tags loop substitutes each synonym, the raw value first. |
| Templates.JoinHashTags | _library/Templates.py:98-102 | The loop builds the `#tag` form: each part stripped, spaces made `_`, `#` in front, joined by spaces. |
| Templates.FillLeftovers | _library/Templates.py:113-128 | The leftover loop applies the source's step to each mergeable tag of the merged text in turn. |
| Templates.ApplyLeftover | _library/Templates.py:115-128 | One leftover tag: the bracketed tag is tested against the unbracketed checkbox names, then blanked in silent mode or replaced by the answer. |
| Projects.KanBanColumn | _library/Projects.py:67-83 | The column is one of To Do, In Progress, Done, Cancelled and Backlog. |
| Projects.DoneColumn | _library/Projects.py:70-79 | A task is Done exactly when its state is not a to-do or in-progress state, and it is a done state or at least 100 % complete. |
| Projects.ColumnPrecedence | _library/Projects.py:70-81 | To-do and in-progress states win over 100 %. A cancelled task at 100 % is Done. |
| Projects.NormaliseState | _library/Projects.py:121-131 | The normalised state is never empty. A non-empty state is kept verbatim unless it becomes one of the four canonical states. |
| Projects.NormaliseStateIdempotent | _library/Projects.py:121-131 | Normalising twice is normalising once. |
| Projects.CanonicalStatesFixed | _library/Projects.py:123-131 | The four canonical states normalise to themselves. |
| Projects.PercentOf | _library/Projects.py:107-113 | An unparsable percentage is 0. |
| Projects.TaskOfNote | _library/Projects.py:104-161 | A derived task always has an assignee and a state, and at least one dependency entry. |
| Projects.NormalisedTo | _library/Projects.py:121-131 | Each spelling of a state group normalises to its canonical state. |
| Projects.CanonicalColumns | _library/Projects.py:67-83 | Each canonical state gives its column; Cancelled at 100 % gives Done. |
| Projects.ColumnOfNormalisedState | _library/Projects.py:121-131 | A normalised written state lands in the column its group names: empty and to-do spellings in To Do, and so on. A cancelled task at 100 % goes to Done. |
| Projects.ColumnOfLoadedTask | _library/Projects.py:104-161 | The same, for the `State:` value read from a task note. |
| Projects.BlankTask | _library/Projects.py:107-158 | A note with none of the labels gives 0 %, Unassigned, Not Started, `[""]` and the To Do column. |
| Projects.PercentFromLine | _library/Projects.py:107-111 | A `Percent Complete: n` line gives n %, and the task counts as complete exactly when n ≥ 100. |
| Projects.MembersExactly | _library/Projects.py:178-237 | A bucket holds exactly the tasks that belong to it, in task order. |
| Projects.BucketKeysDistinct | _library/Projects.py:175-229 | No bucket appears twice on a board. |
| Projects.StateKeysStart | _library/Projects.py:175-176 | The state board always starts with the three configured columns. |
| Projects.StateKeysCover | _library/Projects.py:182 | Every task's column is a bucket of the state board. |
| Projects.StateBucketOfTask | _library/Projects.py:178-182 | On the state board a task goes into a bucket exactly when it is its column. |
| Projects.StateBoardPartitions | _library/Projects.py:175-182 | Across the state board's buckets the cards number exactly the tasks: each task is placed once. |
| Projects.AssigneeKeysCover | _library/Projects.py:226-229 | Every stripped assignee name of every task is a bucket. |
| Projects.AssignedTaskPlaced | _library/Projects.py:226-237 | An assigned task lands in the bucket of its first name. |
| Projects.FirstNameOccurs | _library/Projects.py:227-237 | The stripped first name of an assignee list occurs in it, so the substring test places the task. |
| Projects.SubstringBucket | _library/Projects.py:235-237 | With tasks for `Al` and `Alice`, the bucket `Al` holds both. |
| Projects.EmptyBucketTakesAll | _library/Projects.py:235-237 | A bucket named "" (from an assignee list like `a,`) receives every task. |
| Projects.UnassignedTaskNotPlaced | _library/Projects.py:227-237 | A task with an empty assignee opens the `Unassigned` bucket but is not placed in it. |
| Projects.SingleName | _library/Projects.py:227-229 | A stripped assignee without commas is its own single name. |
| Projects.AssigneeKeysStripped | _library/Projects.py:229 | Assignee bucket names are stripped. |
| Projects.HeaderIgnoresUrlAsWritten | _library/Projects.py:185-199 | As written, two different ticket URLs give the same header. |
| Projects.HeaderCarriesUrl | _library/Projects.py:163-199 | The corrected header contains the given URL, so different URLs give different headers. |
| Projects.KanbanDiagramByState | _library/Projects.py:163-211 | The method writes the state board: the header as written (the fixed example URL for any non-empty ticket URL), each bucket with its cards, footer. |
| Projects.KanbanDiagramByAssigned | _library/Projects.py:214-266 | The method writes the assignee board, with the same header. |
| Projects.BoardIgnoresUrl | _library/Projects.py:185-211 | Any two non-empty ticket URLs give the same board, whose header holds the example URL. |
| Projects.StateBuckets | _library/Projects.py:170-182 | The loop fills each state bucket with exactly the cards of its tasks, in task order. |
| Projects.PlaceStateCard | _library/Projects.py:178-182 | One task's card is appended to its column's bucket, opened if new; the buckets then hold the cards of the tasks so far. |
| Projects.OpenColumns | _library/Projects.py:175-176 | The configured columns start as empty buckets. |
| Projects.AssigneeBuckets | _library/Projects.py:221-237 | The two loops fill each assignee bucket with exactly the cards of its tasks. |
| Projects.OpenAssigneeBuckets | _library/Projects.py:226-229 | The first loop opens an empty bucket for every assignee name. |
| Projects.OpenBuckets | _library/Projects.py:228-229 | One task's names are added as empty buckets. |
| Projects.FillAssigneeBuckets | _library/Projects.py:231-237 | The second loop appends each card to every bucket the task belongs to. |
| Projects.PlaceCard | _library/Projects.py:235-237 | One card is appended to each bucket it belongs to; the other buckets are unchanged. |
| Projects.WriteBoard | _library/Projects.py:203-209 | The board is the header, each bucket name and its cards, then the closing fence. |
| Projects.WrittenSectionsAgree | _library/Projects.py:203-204 | The written sections are the sections of the board. |
| Html.TitleOfDocumentStart | _library/HTML.py:6-32 | Different titles give different page starts. |
| Html.PageFrame | _library/HTML.py:45-94 | The page opens with the document start for its title and ends with `</body>\n</html>`. |
| Html.EscapeIsEach | _library/HTML.py:78 | The chained replacements escape each `&`, `<` and `>` on its own (`&` first, so nothing is escaped twice). |
| Html.EscapeRoundTrip | _library/HTML.py:78 | Unescaping an escaped text gives it back. |
| Html.EscapeRemovesTags | _library/HTML.py:78 | An escaped text holds no `<` or `>`. |
| Html.LinkOf | _library/HTML.py:80 | `[text](url)` becomes `<a href="url">text</a>`. |
| Html.BoldOf | _library/HTML.py:82 | `**x**` becomes `<strong>x</strong>`. |
| Html.ItalicOf | _library/HTML.py:83 | `*x*` becomes `<em>x</em>`. |
| Html.PlainParagraph | _library/HTML.py:76-90 | A line without markup characters passes the paragraph rewrites unchanged. |
| Html.EscapedParagraph | _library/HTML.py:76-90 | A non-empty line without `[` or `*` is only escaped. |
| Html.BoldParagraph | _library/HTML.py:78-87 | A paragraph `**x**` renders as `<strong>x</strong>`. |
| Html.UncheckedParagraph | _library/HTML.py:86 | A paragraph `[ ] x` renders as a disabled unchecked box, a space, then x. |
| Html.CheckedParagraph | _library/HTML.py:87 | A paragraph `[x] x` renders as a disabled checked box, a space, then x. |
| Html.HeadingLine | _library/HTML.py:51-52 | `# t` becomes `<h1>t</h1>` in any mode. |
| Html.SubheadingLine | _library/HTML.py:53-54 | `## t` becomes `<h2>t</h2>`. |
| Html.ThirdLevelLine | _library/HTML.py:55-56 | `### t` becomes `<h3>t</h3>`. |
| Html.ItemLine | _library/HTML.py:57-58 | `- t` becomes `<li>t</li>`, even inside a mermaid block. |
| Html.TaskItemLine | _library/HTML.py:57-58 | `- [ ] x` becomes `<li>[ ] x</li>`, without a checkbox. |
| Html.KindOfFences | _library/HTML.py:59-62 | "```" is a fence and "```mermaid" opens a mermaid block. |
| Html.BlankLine | _library/HTML.py:69-90 | A blank line outside blocks gives `<p></p>`. |
| Html.BareFence | _library/HTML.py:62-68 | A fence closes a mermaid block with `</pre>`. Outside one it emits nothing. |
| Html.CodeBlockNeverOpens | _library/HTML.py:47-68 | The code-block flag, false at the start, is never set. |
| Html.PlainLine | _library/HTML.py:69-90 | A plain text line outside blocks gives `<p>line</p>`. |
| Html.MermaidBody | _library/HTML.py:69-73 | Inside a mermaid block, text lines are copied verbatim, unescaped, one per line. |
| Html.MermaidBlock | _library/HTML.py:59-73 | "```mermaid", body lines and "```" give `<pre class="mermaid">`, the body verbatim and `</pre>`, and end outside any block. |
| Html.RenderAppend | _library/HTML.py:49-90 | Converting two runs of lines is converting the first, then the second from the mode the first leaves. |
| Html.ConvertLine | _library/HTML.py:50-90 | One stripped line gives the output and the new mermaid and code flags the line classifier prescribes. |
| Html.AppendLines | _library/HTML.py:49-90 | The line loop appends the conversion of every line, starting outside any block. |
| Html.ConvertMarkdownToHtml | _library/HTML.py:34-96 | The converter returns the page: document start, the converted stripped lines, closing tags. |

## Left out

- File and folder I/O: reading and writing notes and templates, `os.walk`, file times and `os.path.exists`. They become parameters: file entries and `Option` text.
- `filePath` (`os.path.join`) is not a field of the note record.
- `get_ProjectConfig_as_dict` (`_library/Tools.py:352-394`): replaced by a set of archived project names.
- The author name, normally read from the preferences, is a parameter.
- `ask_for_template_Tag_Value_from_user`: an injected function `ask`.
- `selectedProjectName` of `merge_template_with_values`: unused by the merge.
- Calendar arithmetic and `strptime`/`strftime` in `generate_unique_identifier`: `parse`/`format` parameters with `format(n + 1)` as the next second.
- Tools.GenerateUniqueIdentifier, Templates.MergeTemplateWithValues: they require `parse(format(n)) == Some(n)`, a timestamp format that keeps the seconds. The `timestamp_id_format` preference (`_library/Preferences.py:165`) can drop them, for example `%Y%m%d%H%M`. Then adding a second formats back to the same stamp, and once the first candidate is taken the loop at `_library/Tools.py:530-536` never ends. The model does not cover such formats. Both shipped defaults keep the seconds.
- `datetime_fromString` (`_library/Tools.py:107-133`): a loop over `strptime` formats, which are foreign code; it is not part of this model.
- `get_ProjectTasks` (`_library/Projects.py:89-101`): loading a project's task notes is I/O. The boards are modelled from the task list onward, as if the loader resolved.
- Projects.KanbanDiagramByState, Projects.KanbanDiagramByAssigned: as written, the loader at `_library/Projects.py:94` calls `get_TaskNotes_from_Project` on the `Tools` module. That module neither defines nor imports it; the function exists only in `Notes` (`_library/Notes.py:123`). So both board builders raise `AttributeError` before any board is built. The model takes the task list that `Notes.get_TaskNotes_from_Project` would give.
- `TaskData.to_dict`, `TaskData.__str__`, `NoteData.to_dict`, `NoteData.__str__`: formatting for display only.
- `convertMarkDownFileToHTML`, `openMarkDownFileInBrowser`, `openHTMLFileInBrowser`: file I/O and the browser.
- `Tools.merge_template_with_values` (`_library/Tools.py:578-653`): duplicates the template merge and adds file writing and git commits.
- Preferences, version control, terminal output, interactive inputs, summaries, searches and the top-level scripts: configuration and interaction around the core.
- Python set order: the tag list and the mergeable tags come from sets. The model gives tags as a set and mergeable tags in first-appearance order. The merged text does not depend on that order for lone placeholders.
- Unicode: `lower`/`upper`, `re.IGNORECASE` and `\w` are modelled on ASCII only. `strip()` and `splitlines()` use Python's full whitespace and line-boundary sets.
- Labels and prefixes are assumed to hold no regular-expression metacharacters other than `*`, which the body reader escapes.
- Backslash escapes in `re.sub` replacement strings (a merge value holding `\1`) are not interpreted.
- `Decimal` values are integer coefficients with a decimal exponent. Infinity, NaN and underscores between digits are not modelled.
- NoteRecords.SortByDate: proves sortedness and permutation, not the stability of Python's `sorted`.
- Html.ConvertMarkdownToHtml: every line is stripped before the loop rather than inside it, which gives the same output.
- The page start has no `<body>` opening tag, while the end closes one; the model reproduces that literally.

## Findings

| source | as written | input that shows it | evidently intended | confidence | as-written member | corrected member |
|---|---|---|---|---|---|---|
| _library/Tools.py:145 | `%` is replaced last, so the `%` of every escape just made becomes `%25` | a space encodes as `%2520`, which a URI decoder reads as `%20` | escape `%` first, so the encoding decodes back to the input | not executed | Tools.EncodeForUriDoubleEncodes | Tools.EncodeForUriIntendedRoundTrip |
| _library/Templates.py:116-121 | the bracketed tag (`[CHECKBOX_UNCHECKED]`) is compared with the unbracketed synonyms, so the checkbox branches never fire | template `[CHECKBOX_UNCHECKED]` in silent mode merges to "" | checkbox placeholders become `- [ ] ` / `- [x] ` | not executed | Templates.CheckboxBlankedAsWritten | Templates.CheckboxFilled |
| _library/Projects.py:190-199 | a non-empty `ticketBaseUrl` only switches the config block on; the block holds a fixed example URL | `ticketBaseUrl = "https://tickets.example.org/#TICKET#"` gives the mermaid-js issues URL | the header carries the caller's URL, as the docstring at lines 164-166 says | not executed | Projects.HeaderIgnoresUrlAsWritten | Projects.HeaderCarriesUrl |

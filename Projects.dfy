/** Project tasks: the task record read from a task note, the kanban column a task
    belongs to, and the two mermaid kanban boards, one grouped by state and one
    grouped by assignee. */
module Projects {
  import opened Wrappers
  import opened Text
  import opened Decimals
  import opened NoteRecords
  import Notes
  import Tools

  const ToDo := "To Do"
  const InProgress := "In Progress"
  const Done := "Done"
  const Cancelled := "Cancelled"
  const Backlog := "Backlog"

  /** The configured board columns, in board order. */
  const BoardColumns: seq<string> := [ToDo, InProgress, Done]

  /** The task fields of a task note (the file path is not part of this model). */
  datatype TaskData = TaskData(
    id: string,
    fileName: string,
    date: string,
    osFileDateTime: string,
    title: string,
    project: string,
    plannedStart: string,
    actualStart: string,
    plannedEnd: string,
    endDate: string,
    estimatedEffort: string,
    percentComplete: Decimal,
    assignedTo: string,
    state: string,
    ticket: string,
    dependantOn: seq<string>)

  // ---------------------------------------------------------------------------
  // Kanban column

  const ToDoStates: seq<string> := ["not started", "pending", "to do"]
  const InProgressStates: seq<string> := ["in progress", "ongoing", "doing"]
  const DoneStates: seq<string> := ["completed", "done", "finished"]
  const CancelledStates: seq<string> := ["cancelled", "canceled", "abandoned"]

  /** The board column of a task: the state decides first, then a task at 100% or
      more is done, and anything unrecognised is backlog. */
  function KanBanColumn(task: TaskData): (column: string)
    ensures column in [ToDo, InProgress, Done, Cancelled, Backlog]
  {
    var state := Lower(task.state);
    if state in ToDoStates then ToDo
    else if state in InProgressStates then InProgress
    else if state in DoneStates || AtLeast(task.percentComplete, 100) then Done
    else if state in CancelledStates then Cancelled
    else Backlog
  }

  /** A task is done exactly when its state is not a to-do or in-progress state and
      it is either marked done or at 100% or more. */
  lemma DoneColumn(task: TaskData)
    ensures KanBanColumn(task) == Done <==>
      Lower(task.state) !in ToDoStates && Lower(task.state) !in InProgressStates
      && (Lower(task.state) in DoneStates || AtLeast(task.percentComplete, 100))
  {
  }

  /** The state tests for "to do" and "in progress" come before the percentage test,
      so such a task stays in its column at 100%, while a cancelled task at 100% is
      done. */
  lemma ColumnPrecedence(task: TaskData)
    ensures Lower(task.state) in ToDoStates ==> KanBanColumn(task) == ToDo
    ensures Lower(task.state) in InProgressStates ==> KanBanColumn(task) == InProgress
    ensures Lower(task.state) in CancelledStates ==>
      KanBanColumn(task) == (if AtLeast(task.percentComplete, 100) then Done else Cancelled)
  {
    var state := Lower(task.state);
    assert "cancelled" != "not started" && "cancelled" != "pending" && "cancelled" != "to do";
    assert forall x :: x in CancelledStates ==> x !in ToDoStates && x !in InProgressStates && x !in DoneStates;
    assert forall x :: x in InProgressStates ==> x !in ToDoStates;
  }

  // ---------------------------------------------------------------------------
  // Task from note

  /** The state as written in a task note, mapped onto the canonical names; a state
      nobody recognises is kept as written. */
  function NormaliseState(state: string): (r: string)
    ensures r != []
    ensures state != [] && r != state ==> r in ["Not Started", "In Progress", "Completed", "Cancelled"]
  {
    if state == "" then "Not Started"
    else if Lower(state) in ["todo", "to do", "pending"] then "Not Started"
    else if Lower(state) in ["doing", "in progress", "ongoing"] then "In Progress"
    else if Lower(state) in ["done", "completed", "finished"] then "Completed"
    else if Lower(state) in ["cancelled", "canceled", "abandoned"] then "Cancelled"
    else state
  }

  lemma LowerCanonicalStates()
    ensures Lower("Not Started") == "not started"
    ensures Lower("In Progress") == "in progress"
    ensures Lower("Completed") == "completed"
    ensures Lower("Cancelled") == "cancelled"
  {
  }

  /** A normalised state normalises to itself. */
  lemma NormaliseStateIdempotent(state: string)
    ensures NormaliseState(NormaliseState(state)) == NormaliseState(state)
  {
    var r := NormaliseState(state);
    if r != state {
      CanonicalStatesFixed(r);
    }
  }

  lemma CanonicalStatesFixed(canonical: string)
    requires canonical in ["Not Started", "In Progress", "Completed", "Cancelled"]
    ensures NormaliseState(canonical) == canonical
  {
    if canonical == "Not Started" {
      NotStartedFixed();
    } else if canonical == "In Progress" {
      InProgressFixed();
    } else if canonical == "Completed" {
      CompletedFixed();
    } else {
      CancelledFixed();
    }
  }

  lemma NotStartedFixed()
    ensures NormaliseState("Not Started") == "Not Started"
  {
    LowerCanonicalStates();
    assert "not started" !in ["todo", "to do", "pending"];
    assert "not started" !in ["doing", "in progress", "ongoing"];
    assert "not started" !in ["done", "completed", "finished"];
    assert "not started" !in ["cancelled", "canceled", "abandoned"];
  }

  lemma InProgressFixed()
    ensures NormaliseState("In Progress") == "In Progress"
  {
    LowerCanonicalStates();
    assert "in progress" !in ["todo", "to do", "pending"];
  }

  lemma CompletedFixed()
    ensures NormaliseState("Completed") == "Completed"
  {
    LowerCanonicalStates();
    assert "completed" !in ["todo", "to do", "pending"];
    assert "completed" !in ["doing", "in progress", "ongoing"];
  }

  lemma CancelledFixed()
    ensures NormaliseState("Cancelled") == "Cancelled"
  {
    LowerCanonicalStates();
    assert "cancelled" !in ["todo", "to do", "pending"];
    assert "cancelled" !in ["doing", "in progress", "ongoing"];
    assert "cancelled" !in ["done", "completed", "finished"];
  }

  /** `Decimal(value)`, with 0 where the constructor raises. */
  function PercentOf(value: string): (d: Decimal)
    ensures ParseDecimal(value).None? ==> d == Decimal(0, 0)
  {
    match ParseDecimal(value)
    case Some(parsed) => parsed
    case None => Decimal(0, 0)
  }

  /** The task read from a note: body labels give the schedule, effort, percentage,
      assignee, state and dependencies, and the front matter gives the ticket. */
  function TaskOfNote(note: NoteData): (task: TaskData)
    ensures task.assignedTo != [] && task.state != [] && |task.dependantOn| >= 1
  {
    var body := note.noteBody;
    var assignee := Tools.LabelValueFromBody("Assigned To", body);
    TaskData(
      note.id, note.fileName, note.date, note.osFileDateTime, note.title, note.project,
      Tools.LabelValueFromBody("Planned Start", body),
      Tools.LabelValueFromBody("Actual Start", body),
      Tools.LabelValueFromBody("Planned End", body),
      Tools.LabelValueFromBody("End Date", body),
      Tools.LabelValueFromBody("Estimated Effort", body),
      PercentOf(Tools.LabelValueFromBody("Percent Complete", body)),
      if assignee == "" then "Unassigned" else assignee,
      NormaliseState(Tools.LabelValueFromBody("State", body)),
      Notes.StringValueFromFrontMatter("Ticket", note.frontMatter),
      Split(Tools.LabelValueFromBody("Dependant On", body), ','))
  }

  /** The column of a task whose state was normalised from `written`: the synonyms
      "todo", "doing", "finished" and "abandoned" reach their columns too. */
  lemma ColumnOfNormalisedState(task: TaskData, written: string)
    requires task.state == NormaliseState(written)
    ensures written == "" || Lower(written) in ["todo", "to do", "pending"] ==> KanBanColumn(task) == ToDo
    ensures Lower(written) in ["doing", "in progress", "ongoing"] ==> KanBanColumn(task) == InProgress
    ensures Lower(written) in ["done", "completed", "finished"] ==> KanBanColumn(task) == Done
    ensures Lower(written) in ["cancelled", "canceled", "abandoned"] ==>
      KanBanColumn(task) == if AtLeast(task.percentComplete, 100) then Done else Cancelled
  {
    NormalisedTo(written);
    CanonicalColumns(task);
  }

  /** Where each group of synonyms is normalised to. */
  lemma NormalisedTo(written: string)
    ensures written == "" || Lower(written) in ["todo", "to do", "pending"] ==> NormaliseState(written) == "Not Started"
    ensures Lower(written) in ["doing", "in progress", "ongoing"] ==> NormaliseState(written) == "In Progress"
    ensures Lower(written) in ["done", "completed", "finished"] ==> NormaliseState(written) == "Completed"
    ensures Lower(written) in ["cancelled", "canceled", "abandoned"] ==> NormaliseState(written) == "Cancelled"
  {
  }

  /** The column of each canonical state. */
  lemma CanonicalColumns(task: TaskData)
    ensures task.state == "Not Started" ==> KanBanColumn(task) == ToDo
    ensures task.state == "In Progress" ==> KanBanColumn(task) == InProgress
    ensures task.state == "Completed" ==> KanBanColumn(task) == Done
    ensures task.state == "Cancelled" ==>
      KanBanColumn(task) == if AtLeast(task.percentComplete, 100) then Done else Cancelled
  {
    LowerCanonicalStates();
  }

  /** The state written in the note, before normalisation, decides the column of the
      task read from it. */
  lemma ColumnOfLoadedTask(note: NoteData)
    ensures var written := Lower(Tools.LabelValueFromBody("State", note.noteBody));
      && (written == "" || written in ["todo", "to do", "pending"] ==> KanBanColumn(TaskOfNote(note)) == ToDo)
      && (written in ["doing", "in progress", "ongoing"] ==> KanBanColumn(TaskOfNote(note)) == InProgress)
      && (written in ["done", "completed", "finished"] ==> KanBanColumn(TaskOfNote(note)) == Done)
      && (written in ["cancelled", "canceled", "abandoned"] ==>
            KanBanColumn(TaskOfNote(note)) ==
              if AtLeast(TaskOfNote(note).percentComplete, 100) then Done else Cancelled)
  {
    var written := Tools.LabelValueFromBody("State", note.noteBody);
    var task := TaskOfNote(note);
    assert task.state == NormaliseState(written);
    assert Lower(written) == "" ==> written == "";
    ColumnOfNormalisedState(task, written);
  }

  lemma NoPercent()
    ensures PercentOf("") == Decimal(0, 0)
  {
    assert ExponentIndex("") == 0;
    assert ParseUnsigned("") == None;
  }

  /** A note without the task labels gives an unassigned, not started task at 0%
      with one empty dependency, in the To Do column. */
  lemma BlankTask(note: NoteData)
    requires Tools.LabelValueFromBody("Percent Complete", note.noteBody) == ""
    requires Tools.LabelValueFromBody("Assigned To", note.noteBody) == ""
    requires Tools.LabelValueFromBody("State", note.noteBody) == ""
    requires Tools.LabelValueFromBody("Dependant On", note.noteBody) == ""
    ensures TaskOfNote(note).percentComplete == Decimal(0, 0)
    ensures TaskOfNote(note).assignedTo == "Unassigned"
    ensures TaskOfNote(note).state == "Not Started"
    ensures TaskOfNote(note).dependantOn == [""]
    ensures KanBanColumn(TaskOfNote(note)) == ToDo
  {
    NoPercent();
    var task := TaskOfNote(note);
    ColumnOfNormalisedState(task, "");
  }

  lemma NumeralIsStripped(n: nat)
    ensures '\n' !in Numeral(n) && Strip(Numeral(n)) == Numeral(n)
  {
    var digits := Numeral(n);
    assert forall k :: 0 <= k < |digits| ==> IsDigit(digits[k]);
    assert !IsSpace(digits[0]) && !IsSpace(digits[|digits| - 1]);
    StripOfStripped(digits);
  }

  /** A "Percent Complete" line holding a whole number is read as that number. */
  lemma {:induction false} PercentValue(body: string, n: nat, rest: string)
    requires body == "Percent Complete" + ":" + Numeral(n) + rest
    requires rest == [] || rest[0] == '\n'
    ensures PercentOf(Tools.LabelValueFromBody("Percent Complete", body)) == Decimal(n, 0)
  {
    var digits := Numeral(n);
    NumeralIsStripped(n);
    assert body == "Percent Complete" + [':'] + digits + rest;
    Tools.LabelValueFromLine("Percent Complete", "Percent Complete", ':', digits, rest);
    ParseNumeral(n);
  }

  /** The task of such a note reaches the Done threshold exactly when the number is at
      least 100. */
  lemma PercentFromLine(note: NoteData, n: nat, rest: string)
    requires note.noteBody == "Percent Complete" + ":" + Numeral(n) + rest
    requires rest == [] || rest[0] == '\n'
    ensures TaskOfNote(note).percentComplete == Decimal(n, 0)
    ensures AtLeast(TaskOfNote(note).percentComplete, 100) <==> n >= 100
  {
    PercentValue(note.noteBody, n, rest);
  }

  // ---------------------------------------------------------------------------
  // Boards

  /** The two boards: buckets are kanban columns, or assignee names. */
  datatype Grouping = ByState | ByAssignee

  function TicketStatement(ticket: string): string {
    if ticket == "" then "" else " ticket: '" + ticket + "', "
  }

  /** A board card; its `assigned` field shows the assignee on the state board and
      the state on the assignee board. */
  function Card(task: TaskData, g: Grouping): string {
    "\t" + task.id + "[" + task.title + "]@{" + TicketStatement(task.ticket)
      + " assigned: '" + (if g == ByState then task.assignedTo else task.state) + "'}\n"
  }

  /** Whether a task's card goes into a bucket: its column on the state board; on the
      assignee board, every bucket whose name occurs anywhere in its assignee text.
      (The assignee board strips each name once more before the test; its names are
      already stripped, see `AssigneeKeysStripped`.) */
  predicate InBucket(task: TaskData, bucket: string, g: Grouping) {
    if g == ByState then KanBanColumn(task) == bucket else Contains(task.assignedTo, bucket)
  }

  /** The tasks of a bucket, in task order. */
  function Members(tasks: seq<TaskData>, bucket: string, g: Grouping): (r: seq<TaskData>)
    ensures |r| <= |tasks|
  {
    if tasks == [] then []
    else
      var last := tasks[|tasks| - 1];
      Members(tasks[..|tasks| - 1], bucket, g) + (if InBucket(last, bucket, g) then [last] else [])
  }

  /** A bucket holds exactly the tasks that belong in it. */
  lemma {:induction false} MembersExactly(tasks: seq<TaskData>, bucket: string, g: Grouping)
    ensures forall t :: t in Members(tasks, bucket, g) <==> t in tasks && InBucket(t, bucket, g)
  {
    if tasks != [] {
      var init := tasks[..|tasks| - 1];
      MembersExactly(init, bucket, g);
      assert tasks == init + [tasks[|tasks| - 1]];
    }
  }

  /** The cards of some tasks, one after another. */
  function Cards(tasks: seq<TaskData>, g: Grouping): string {
    if tasks == [] then []
    else Cards(tasks[..|tasks| - 1], g) + Card(tasks[|tasks| - 1], g)
  }

  /** The text a bucket holds once every task has been placed. */
  function BucketText(tasks: seq<TaskData>, bucket: string, g: Grouping): string {
    Cards(Members(tasks, bucket, g), g)
  }

  /** Adding a key to a dictionary keeps the position of one already present. */
  function AddKey(keys: seq<string>, k: string): (r: seq<string>)
    ensures forall x :: x in r <==> x in keys || x == k
  {
    if k in keys then keys else keys + [k]
  }

  /** The buckets of the state board: the configured columns, then any further
      column in the order a task first needs it. */
  function StateKeys(tasks: seq<TaskData>): seq<string> {
    if tasks == [] then BoardColumns
    else AddKey(StateKeys(tasks[..|tasks| - 1]), KanBanColumn(tasks[|tasks| - 1]))
  }

  /** The names a task contributes to the assignee board: its comma-separated
      assignees, stripped ("Unassigned" when it has none). */
  function AssigneeNames(task: TaskData): seq<string> {
    StripEach(Split(if task.assignedTo != "" then task.assignedTo else "Unassigned", ','))
  }

  function AddKeys(keys: seq<string>, names: seq<string>): (r: seq<string>)
    ensures forall x :: x in r <==> x in keys || x in names
  {
    if names == [] then keys
    else AddKey(AddKeys(keys, names[..|names| - 1]), names[|names| - 1])
  }

  /** The buckets of the assignee board, in the order their names first appear. */
  function AssigneeKeys(tasks: seq<TaskData>): seq<string> {
    if tasks == [] then []
    else AddKeys(AssigneeKeys(tasks[..|tasks| - 1]), AssigneeNames(tasks[|tasks| - 1]))
  }

  function BucketKeys(tasks: seq<TaskData>, g: Grouping): seq<string> {
    if g == ByState then StateKeys(tasks) else AssigneeKeys(tasks)
  }

  predicate Distinct(keys: seq<string>) {
    forall i, j :: 0 <= i < j < |keys| ==> keys[i] != keys[j]
  }

  const BoardFooter := "\n```\n"

  /** The example URL the board header carries whatever URL the caller gives. */
  const ExampleTicketUrl := "https://github.com/mermaid-js/mermaid/issues/#TICKET#"

  function ConfiguredHeader(url: string): string {
    "\n```mermaid\n---\nconfig:\nkanban:\n    ticketBaseUrl: '" + url + "'\n---\nkanban\n"
  }

  /** The board header as written: a non-empty ticket URL only switches the
      configuration block on, with the example URL in it. */
  function BoardHeaderAsWritten(ticketBaseUrl: string): string {
    if ticketBaseUrl == "" then "\n```mermaid\nkanban\n" else ConfiguredHeader(ExampleTicketUrl)
  }

  /** The header with the caller's ticket URL, as the board's documentation says. */
  function BoardHeader(ticketBaseUrl: string): string {
    if ticketBaseUrl == "" then "\n```mermaid\nkanban\n" else ConfiguredHeader(ticketBaseUrl)
  }

  /** Two different ticket URLs give the same header as written. */
  lemma HeaderIgnoresUrlAsWritten()
    ensures BoardHeaderAsWritten("https://tickets.example.org/#TICKET#")
         == BoardHeaderAsWritten("https://other.example.org/#TICKET#")
  {
  }

  /** The corrected header carries the given URL, so different URLs give different
      headers. */
  lemma {:induction false} HeaderCarriesUrl(url: string, other: string)
    requires url != ""
    ensures Contains(BoardHeader(url), url)
    ensures other != "" && other != url ==> BoardHeader(other) != BoardHeader(url)
  {
    var pre := "\n```mermaid\n---\nconfig:\nkanban:\n    ticketBaseUrl: '";
    var h := BoardHeader(url);
    assert h == pre + url + "'\n---\nkanban\n";
    assert h[|pre|..|pre| + |url|] == url;
    ContainsAt(h, url, |pre|);
    if other != "" && other != url {
      var g := BoardHeader(other);
      assert g == pre + other + "'\n---\nkanban\n";
      assert |g| != |h| || g[|pre|..|pre| + |other|] != h[|pre|..|pre| + |url|];
    }
  }

  /** One board section: the bucket name, then its cards. */
  function Section(bucket: string, tasks: seq<TaskData>, g: Grouping): string {
    bucket + "\n" + BucketText(tasks, bucket, g) + "\n"
  }

  function Sections(keys: seq<string>, tasks: seq<TaskData>, g: Grouping): string {
    if keys == [] then []
    else Sections(keys[..|keys| - 1], tasks, g) + Section(keys[|keys| - 1], tasks, g)
  }

  /** The whole board text, with the header as the source writes it. */
  function Board(tasks: seq<TaskData>, g: Grouping, ticketBaseUrl: string): string {
    BoardHeaderAsWritten(ticketBaseUrl) + Sections(BucketKeys(tasks, g), tasks, g) + BoardFooter
  }

  /** As written, the board does not depend on which non-empty ticket URL is given. */
  lemma BoardIgnoresUrl(tasks: seq<TaskData>, g: Grouping, url: string, other: string)
    requires url != "" && other != ""
    ensures Board(tasks, g, url) == Board(tasks, g, other)
    ensures Board(tasks, g, url) == ConfiguredHeader(ExampleTicketUrl) + Sections(BucketKeys(tasks, g), tasks, g) + BoardFooter
  {
  }

  // ---------------------------------------------------------------------------
  // Properties of the boards

  lemma {:induction false} AddKeysDistinct(keys: seq<string>, names: seq<string>)
    requires Distinct(keys)
    ensures Distinct(AddKeys(keys, names))
  {
    if names != [] {
      AddKeysDistinct(keys, names[..|names| - 1]);
    }
  }

  /** Bucket names are never repeated. */
  lemma {:induction false} BucketKeysDistinct(tasks: seq<TaskData>, g: Grouping)
    ensures Distinct(BucketKeys(tasks, g))
  {
    if tasks != [] {
      BucketKeysDistinct(tasks[..|tasks| - 1], g);
      if g == ByAssignee {
        AddKeysDistinct(AssigneeKeys(tasks[..|tasks| - 1]), AssigneeNames(tasks[|tasks| - 1]));
      }
    }
  }

  /** The state board always opens with the three configured columns. */
  lemma {:induction false} StateKeysStart(tasks: seq<TaskData>)
    ensures |StateKeys(tasks)| >= 3 && StateKeys(tasks)[..3] == BoardColumns
  {
    if tasks != [] {
      var init := tasks[..|tasks| - 1];
      StateKeysStart(init);
      var k := StateKeys(init);
      assert (k + [KanBanColumn(tasks[|tasks| - 1])])[..3] == k[..3];
    }
  }

  /** The state board has a bucket for the column of every task. */
  lemma {:induction false} StateKeysCover(tasks: seq<TaskData>)
    ensures forall t :: t in tasks ==> KanBanColumn(t) in StateKeys(tasks)
  {
    if tasks != [] {
      var init := tasks[..|tasks| - 1];
      StateKeysCover(init);
      assert tasks == init + [tasks[|tasks| - 1]];
    }
  }

  /** On the state board a task's card is in exactly one bucket: its column. */
  lemma StateBucketOfTask(tasks: seq<TaskData>, t: TaskData, bucket: string)
    requires t in tasks && bucket in StateKeys(tasks)
    ensures KanBanColumn(t) in StateKeys(tasks)
    ensures t in Members(tasks, bucket, ByState) <==> bucket == KanBanColumn(t)
  {
    StateKeysCover(tasks);
    MembersExactly(tasks, bucket, ByState);
  }

  /** The number of cards over a list of buckets. */
  function CardCount(keys: seq<string>, tasks: seq<TaskData>, g: Grouping): nat {
    if keys == [] then 0
    else CardCount(keys[..|keys| - 1], tasks, g) + |Members(tasks, keys[|keys| - 1], g)|
  }

  function Occurrences(keys: seq<string>, k: string): nat {
    if keys == [] then 0
    else Occurrences(keys[..|keys| - 1], k) + (if keys[|keys| - 1] == k then 1 else 0)
  }

  lemma {:induction false} OccursOnce(keys: seq<string>, k: string)
    requires Distinct(keys)
    ensures Occurrences(keys, k) == if k in keys then 1 else 0
  {
    if keys != [] {
      var init := keys[..|keys| - 1];
      OccursOnce(init, k);
      assert keys == init + [keys[|keys| - 1]];
    }
  }

  lemma {:induction false} CardCountSnoc(keys: seq<string>, tasks: seq<TaskData>, t: TaskData)
    ensures CardCount(keys, tasks + [t], ByState)
         == CardCount(keys, tasks, ByState) + Occurrences(keys, KanBanColumn(t))
  {
    if keys != [] {
      CardCountSnoc(keys[..|keys| - 1], tasks, t);
      assert (tasks + [t])[..|tasks|] == tasks;
    }
  }

  lemma {:induction false} CardCountPartition(keys: seq<string>, tasks: seq<TaskData>)
    requires Distinct(keys)
    requires forall t :: t in tasks ==> KanBanColumn(t) in keys
    ensures CardCount(keys, tasks, ByState) == |tasks|
  {
    if tasks == [] {
      CardCountNone(keys);
    } else {
      var init := tasks[..|tasks| - 1];
      var last := tasks[|tasks| - 1];
      assert tasks == init + [last];
      CardCountPartition(keys, init);
      CardCountSnoc(keys, init, last);
      OccursOnce(keys, KanBanColumn(last));
    }
  }

  lemma {:induction false} CardCountNone(keys: seq<string>)
    ensures CardCount(keys, [], ByState) == 0
  {
    if keys != [] {
      CardCountNone(keys[..|keys| - 1]);
    }
  }

  /** The state board holds one card per task. */
  lemma StateBoardPartitions(tasks: seq<TaskData>)
    ensures CardCount(StateKeys(tasks), tasks, ByState) == |tasks|
  {
    StateKeysCover(tasks);
    BucketKeysDistinct(tasks, ByState);
    assert Distinct(StateKeys(tasks));
    CardCountPartition(StateKeys(tasks), tasks);
  }

  lemma {:induction false} AssigneeKeysCover(tasks: seq<TaskData>)
    ensures forall t, name :: t in tasks && name in AssigneeNames(t) ==> name in AssigneeKeys(tasks)
  {
    if tasks != [] {
      var init := tasks[..|tasks| - 1];
      AssigneeKeysCover(init);
      assert tasks == init + [tasks[|tasks| - 1]];
    }
  }

  /** The stripped text occurs in the text. */
  lemma StripOccurs(s: string)
    ensures OccursAt(s, Strip(s), |s| - |LStrip(s)|)
  {
    var l := LStrip(s);
    assert l == s[|s| - |l|..];
    var r := RStrip(l);
    assert r == l[..|r|];
  }

  /** A task with an assignee is on the assignee board: the bucket of its first
      assignee takes its card. */
  lemma AssignedTaskPlaced(tasks: seq<TaskData>, t: TaskData)
    requires t in tasks && t.assignedTo != ""
    ensures Strip(BeforeFirst(t.assignedTo, ',')) in AssigneeKeys(tasks)
    ensures t in Members(tasks, Strip(BeforeFirst(t.assignedTo, ',')), ByAssignee)
  {
    var name := Strip(BeforeFirst(t.assignedTo, ','));
    assert AssigneeNames(t)[0] == name;
    AssigneeKeysCover(tasks);
    FirstNameOccurs(t.assignedTo);
    MembersExactly(tasks, name, ByAssignee);
  }

  /** The first comma-separated name, stripped, occurs in the text. */
  lemma FirstNameOccurs(s: string)
    ensures Contains(s, Strip(BeforeFirst(s, ',')))
  {
    var first := BeforeFirst(s, ',');
    var name := Strip(first);
    StripOccurs(first);
    var d := |first| - |LStrip(first)|;
    assert s[..|first|] == first;
    OccursInPrefix(s, |first|, name, d);
    ContainsAt(s, name, d);
  }

  lemma NoCommaSplit(s: string)
    requires ',' !in s
    ensures Split(s, ',') == [s]
  {
    assert IndexOf(s, ',') == |s|;
  }

  /** A stripped name without commas splits into just itself. */
  lemma SingleNameText(s: string)
    requires ',' !in s && IsStripped(s)
    ensures StripEach(Split(s, ',')) == [s]
  {
    NoCommaSplit(s);
    assert StripEach([s]) == [Strip(s)] + StripEach([]);
    StripOfStripped(s);
  }

  /** A task whose assignee text is one stripped name without commas contributes
      just that name. */
  lemma SingleName(t: TaskData)
    requires t.assignedTo != "" && ',' !in t.assignedTo && IsStripped(t.assignedTo)
    ensures AssigneeNames(t) == [t.assignedTo]
  {
    SingleNameText(t.assignedTo);
  }

  lemma PlainNames()
    ensures ',' !in "Al" && IsStripped("Al") && ',' !in "Alice" && IsStripped("Alice")
  {
    var al, alice := "Al", "Alice";
    assert al[0] == 'A' && al[|al| - 1] == 'l';
    assert alice[0] == 'A' && alice[|alice| - 1] == 'e';
  }

  /** Buckets are matched by substring: the bucket "Al" also takes the card of a task
      assigned to "Alice". */
  lemma SubstringBucket(al: TaskData, alice: TaskData)
    requires al.assignedTo == "Al" && alice.assignedTo == "Alice"
    ensures "Al" in AssigneeKeys([al, alice])
    ensures Members([al, alice], "Al", ByAssignee) == [al, alice]
  {
    PlainNames();
    AliceContainsAl(al, alice);
    ContainingBucket(al, alice);
  }

  /** A task whose assignee text contains a single name opens that name's bucket and
      also lands in it. */
  lemma ContainingBucket(t: TaskData, next: TaskData)
    requires t.assignedTo != "" && ',' !in t.assignedTo && IsStripped(t.assignedTo)
    requires InBucket(t, t.assignedTo, ByAssignee) && InBucket(next, t.assignedTo, ByAssignee)
    ensures t.assignedTo in AssigneeKeys([t, next])
    ensures Members([t, next], t.assignedTo, ByAssignee) == [t, next]
  {
    NameOpensBucket(t, next);
    MembersAll([t, next], t.assignedTo, ByAssignee);
  }

  /** A single stripped name opens its bucket whatever the next task holds. */
  lemma NameOpensBucket(t: TaskData, next: TaskData)
    requires t.assignedTo != "" && ',' !in t.assignedTo && IsStripped(t.assignedTo)
    ensures t.assignedTo in AssigneeKeys([t, next])
  {
    SingleName(t);
    var both := [t, next];
    assert both[..1] == [t] && [t][..0] == [];
    var one := [t];
    assert one[..0] == [] && one[0] == t;
    var first := AssigneeKeys(one);
    assert first == AddKeys(AssigneeKeys([]), AssigneeNames(t));
    assert AssigneeKeys(both) == AddKeys(first, AssigneeNames(next));
  }

  lemma AliceContainsAl(al: TaskData, alice: TaskData)
    requires al.assignedTo == "Al" && alice.assignedTo == "Alice"
    ensures InBucket(al, "Al", ByAssignee) && InBucket(alice, "Al", ByAssignee)
  {
    assert "Alice"[0..2] == "Al";
    ContainsAt("Alice", "Al", 0);
    ContainsAt("Al", "Al", 0);
  }

  /** An empty assignee name (from a trailing comma) makes a bucket that takes every
      task's card. */
  lemma {:induction false} EmptyBucketTakesAll(tasks: seq<TaskData>)
    ensures Members(tasks, "", ByAssignee) == tasks
  {
    if tasks != [] {
      var init := tasks[..|tasks| - 1];
      var last := tasks[|tasks| - 1];
      EmptyBucketTakesAll(init);
      ContainsAt(last.assignedTo, "", 0);
      assert InBucket(last, "", ByAssignee);
      assert init + [last] == tasks;
    }
  }

  /** A task with no assignee opens the "Unassigned" bucket, but its card does not
      go there, because "Unassigned" is not part of its empty assignee text. */
  lemma UnassignedTaskNotPlaced(t: TaskData)
    requires t.assignedTo == ""
    ensures "Unassigned" in AssigneeKeys([t])
    ensures Members([t], "Unassigned", ByAssignee) == []
  {
    UnassignedName(t);
    assert AssigneeKeys([t]) == AddKeys([], AssigneeNames(t)) by {
      assert [t][..0] == [];
    }
    NotContainsFirstChar("", "Unassigned");
    assert !InBucket(t, "Unassigned", ByAssignee);
    assert Members([t], "Unassigned", ByAssignee) == Members([], "Unassigned", ByAssignee) + [];
  }

  lemma UnassignedName(t: TaskData)
    requires t.assignedTo == ""
    ensures AssigneeNames(t) == ["Unassigned"]
  {
    UnassignedPlain();
    SingleNameText("Unassigned");
  }

  lemma UnassignedPlain()
    ensures ',' !in "Unassigned" && IsStripped("Unassigned")
  {
    var u := "Unassigned";
    assert forall k :: 0 <= k < |u| ==> u[k] != ',';
    assert u[0] == 'U' && u[|u| - 1] == 'd';
  }

  /** Every assignee bucket name is already stripped, so stripping it again before
      the membership test changes nothing. */
  lemma {:induction false} AssigneeKeysStripped(tasks: seq<TaskData>)
    ensures forall k :: k in AssigneeKeys(tasks) ==> Strip(k) == k
  {
    if tasks != [] {
      AssigneeKeysStripped(tasks[..|tasks| - 1]);
      var t := tasks[|tasks| - 1];
      StripEachStripped(Split(if t.assignedTo != "" then t.assignedTo else "Unassigned", ','));
    }
  }

  // ---------------------------------------------------------------------------
  // Building the boards

  lemma CardsSnoc(tasks: seq<TaskData>, t: TaskData, g: Grouping)
    ensures Cards(tasks + [t], g) == Cards(tasks, g) + Card(t, g)
  {
    assert (tasks + [t])[..|tasks|] == tasks;
  }

  /** Placing task `i` adds its card to the buckets it belongs in and to no other. */
  lemma BucketNext(tasks: seq<TaskData>, i: nat, bucket: string, g: Grouping)
    requires i < |tasks|
    ensures BucketText(tasks[..i + 1], bucket, g)
         == BucketText(tasks[..i], bucket, g) + (if InBucket(tasks[i], bucket, g) then Card(tasks[i], g) else "")
  {
    var m := Members(tasks[..i], bucket, g);
    MembersNext(tasks, i, bucket, g);
    if InBucket(tasks[i], bucket, g) {
      CardsSnoc(m, tasks[i], g);
    } else {
      assert m + [] == m;
    }
  }

  lemma MembersNext(tasks: seq<TaskData>, i: nat, bucket: string, g: Grouping)
    requires i < |tasks|
    ensures Members(tasks[..i + 1], bucket, g)
         == Members(tasks[..i], bucket, g) + (if InBucket(tasks[i], bucket, g) then [tasks[i]] else [])
  {
    var prefix := tasks[..i + 1];
    assert prefix[..i] == tasks[..i] && prefix[i] == tasks[i];
  }

  lemma {:induction false} MembersAll(tasks: seq<TaskData>, bucket: string, g: Grouping)
    requires forall t :: t in tasks ==> InBucket(t, bucket, g)
    ensures Members(tasks, bucket, g) == tasks
  {
    if tasks != [] {
      var init := tasks[..|tasks| - 1];
      assert tasks == init + [tasks[|tasks| - 1]];
      MembersAll(init, bucket, g);
    }
  }

  lemma {:induction false} BucketEmpty(tasks: seq<TaskData>, bucket: string, g: Grouping)
    requires forall t :: t in tasks ==> !InBucket(t, bucket, g)
    ensures Members(tasks, bucket, g) == [] && BucketText(tasks, bucket, g) == ""
  {
    if tasks != [] {
      var init := tasks[..|tasks| - 1];
      assert tasks == init + [tasks[|tasks| - 1]];
      BucketEmpty(init, bucket, g);
    }
  }

  /** The state board, as the project's tasks fill it. */
  method KanbanDiagramByState(tasks: seq<TaskData>, ticketBaseUrl: string) returns (board: string)
    ensures board == Board(tasks, ByState, ticketBaseUrl)
  {
    var keys, buckets := StateBuckets(tasks);
    board := WriteBoard(BoardHeaderAsWritten(ticketBaseUrl), keys, buckets);
    WrittenSectionsAgree(keys, buckets, tasks, ByState);
  }

  /** The assignee board, as the project's tasks fill it. */
  method KanbanDiagramByAssigned(tasks: seq<TaskData>, ticketBaseUrl: string) returns (board: string)
    ensures board == Board(tasks, ByAssignee, ticketBaseUrl)
  {
    var keys, buckets := AssigneeBuckets(tasks);
    board := WriteBoard(BoardHeaderAsWritten(ticketBaseUrl), keys, buckets);
    WrittenSectionsAgree(keys, buckets, tasks, ByAssignee);
  }

  /** The state board's buckets: the configured columns start empty, and each task's
      card is appended to the bucket of its column. */
  method StateBuckets(tasks: seq<TaskData>) returns (keys: seq<string>, buckets: map<string, string>)
    ensures keys == StateKeys(tasks)
    ensures forall k :: k in keys ==> k in buckets && buckets[k] == BucketText(tasks, k, ByState)
  {
    keys, buckets := OpenColumns();
    assert keys == StateKeys(tasks[..0]);
    var i := 0;
    while i < |tasks|
      invariant 0 <= i <= |tasks|
      invariant keys == StateKeys(tasks[..i])
      invariant forall k :: k in buckets <==> k in keys
      invariant forall k :: k in keys ==> buckets[k] == BucketText(tasks[..i], k, ByState)
    {
      keys, buckets := PlaceStateCard(tasks, i, keys, buckets);
      i := i + 1;
    }
    assert tasks[..i] == tasks;
  }

  /** One step of `StateBuckets`: the card of task `i` is appended to the bucket of
      its column, opened if new. */
  method PlaceStateCard(tasks: seq<TaskData>, i: nat, keys: seq<string>, buckets: map<string, string>)
    returns (keys': seq<string>, buckets': map<string, string>)
    requires i < |tasks|
    requires keys == StateKeys(tasks[..i])
    requires forall k :: k in buckets <==> k in keys
    requires forall k :: k in keys ==> buckets[k] == BucketText(tasks[..i], k, ByState)
    ensures keys' == StateKeys(tasks[..i + 1])
    ensures forall k :: k in buckets' <==> k in keys'
    ensures forall k :: k in keys' ==> buckets'[k] == BucketText(tasks[..i + 1], k, ByState)
  {
    var column := KanBanColumn(tasks[i]);
    var current := if column in buckets then buckets[column] else "";
    StatePlaced(tasks, i);
    buckets' := buckets[column := current + Card(tasks[i], ByState)];
    keys' := AddKey(keys, column);
    AppendToBucket(keys, buckets, column, Card(tasks[i], ByState), keys', buckets');
    forall k | k in keys' ensures buckets'[k] == BucketText(tasks[..i + 1], k, ByState) {
      var before := BucketText(tasks[..i], k, ByState);
      var card := Card(tasks[i], ByState);
      assert BucketText(tasks[..i + 1], k, ByState) == before + (if column == k then card else "");
      if k == column {
        if k in keys {
          assert buckets[k] == before;
          assert buckets'[k] == before + card;
        } else {
          assert before == "";
          assert buckets'[k] == card;
          assert "" + card == card;
        }
      } else {
        assert k in keys;
        assert buckets'[k] == before;
        assert before + "" == before;
      }
    }
  }

  /** Appending a card to one bucket of a dictionary of buckets, opening it if new. */
  lemma AppendToBucket(keys: seq<string>, buckets: map<string, string>, column: string, card: string,
                       keys': seq<string>, buckets': map<string, string>)
    requires forall k :: k in buckets <==> k in keys
    requires keys' == AddKey(keys, column)
    requires buckets' == buckets[column := (if column in buckets then buckets[column] else "") + card]
    ensures forall k :: k in buckets' <==> k in keys'
    ensures forall k :: k in keys' && k in keys && k != column ==> buckets'[k] == buckets[k]
    ensures column in keys ==> buckets'[column] == buckets[column] + card
    ensures column !in keys ==> buckets'[column] == card
  {
  }

  /** An empty bucket per configured column. */
  method OpenColumns() returns (keys: seq<string>, buckets: map<string, string>)
    ensures keys == BoardColumns
    ensures forall k :: k in buckets <==> k in keys
    ensures forall k :: k in buckets ==> buckets[k] == ""
  {
    keys := [];
    buckets := map[];
    for c := 0 to |BoardColumns|
      invariant keys == BoardColumns[..c]
      invariant forall k :: k in buckets <==> k in keys
      invariant forall k :: k in buckets ==> buckets[k] == ""
    {
      keys := keys + [BoardColumns[c]];
      buckets := buckets[BoardColumns[c] := ""];
    }
  }

  /** The facts one step of `StateBuckets` needs about the buckets it does not touch
      and the one it extends. */
  lemma StatePlaced(tasks: seq<TaskData>, i: nat)
    requires i < |tasks|
    ensures StateKeys(tasks[..i + 1]) == AddKey(StateKeys(tasks[..i]), KanBanColumn(tasks[i]))
    ensures KanBanColumn(tasks[i]) !in StateKeys(tasks[..i]) ==>
      BucketText(tasks[..i], KanBanColumn(tasks[i]), ByState) == ""
    ensures forall k :: (BucketText(tasks[..i + 1], k, ByState)
      == BucketText(tasks[..i], k, ByState) + (if KanBanColumn(tasks[i]) == k then Card(tasks[i], ByState) else ""))
  {
    assert tasks[..i + 1][..i] == tasks[..i];
    StateKeysCover(tasks[..i]);
    var column := KanBanColumn(tasks[i]);
    if column !in StateKeys(tasks[..i]) {
      BucketEmpty(tasks[..i], column, ByState);
    }
    forall k {
      BucketNext(tasks, i, k, ByState);
    }
  }

  /** The assignee board's buckets: every assignee name opens an empty bucket, then
      each task's card is appended to every bucket whose name it contains. */
  method AssigneeBuckets(tasks: seq<TaskData>) returns (keys: seq<string>, buckets: map<string, string>)
    ensures keys == AssigneeKeys(tasks)
    ensures forall k :: k in keys ==> k in buckets && buckets[k] == BucketText(tasks, k, ByAssignee)
  {
    keys, buckets := OpenAssigneeBuckets(tasks);
    BucketKeysDistinct(tasks, ByAssignee);
    buckets := FillAssigneeBuckets(tasks, keys, buckets);
  }

  /** The first pass: an empty bucket per assignee name. */
  method OpenAssigneeBuckets(tasks: seq<TaskData>) returns (keys: seq<string>, buckets: map<string, string>)
    ensures keys == AssigneeKeys(tasks)
    ensures forall k :: k in buckets <==> k in keys
    ensures forall k :: k in buckets ==> buckets[k] == ""
  {
    keys := [];
    buckets := map[];
    for i := 0 to |tasks|
      invariant keys == AssigneeKeys(tasks[..i])
      invariant forall k :: k in buckets <==> k in keys
      invariant forall k :: k in buckets ==> buckets[k] == ""
    {
      AssigneeKeysNext(tasks, i);
      keys, buckets := OpenBuckets(keys, buckets, AssigneeNames(tasks[i]));
    }
    assert tasks[..|tasks|] == tasks;
  }

  lemma AssigneeKeysNext(tasks: seq<TaskData>, i: nat)
    requires i < |tasks|
    ensures AssigneeKeys(tasks[..i + 1]) == AddKeys(AssigneeKeys(tasks[..i]), AssigneeNames(tasks[i]))
  {
    assert tasks[..i + 1][..i] == tasks[..i];
  }

  /** The second pass: each task's card goes to every bucket whose name it contains. */
  method FillAssigneeBuckets(tasks: seq<TaskData>, keys: seq<string>, buckets: map<string, string>)
    returns (filled: map<string, string>)
    requires Distinct(keys)
    requires forall k :: k in buckets <==> k in keys
    requires forall k :: k in buckets ==> buckets[k] == ""
    ensures forall k :: k in keys ==> k in filled && filled[k] == BucketText(tasks, k, ByAssignee)
  {
    filled := buckets;
    for i := 0 to |tasks|
      invariant forall k :: k in filled <==> k in keys
      invariant forall k :: k in keys ==> filled[k] == BucketText(tasks[..i], k, ByAssignee)
    {
      filled := PlaceCard(keys, filled, tasks[i]);
      forall k | k in keys
        ensures filled[k] == BucketText(tasks[..i + 1], k, ByAssignee)
      {
        BucketNext(tasks, i, k, ByAssignee);
      }
    }
    assert tasks[..|tasks|] == tasks;
  }

  /** Opens an empty bucket for each name not seen before. */
  method OpenBuckets(keys: seq<string>, buckets: map<string, string>, names: seq<string>)
    returns (keys': seq<string>, buckets': map<string, string>)
    requires forall k :: k in buckets <==> k in keys
    requires forall k :: k in buckets ==> buckets[k] == ""
    ensures keys' == AddKeys(keys, names)
    ensures forall k :: k in buckets' <==> k in keys'
    ensures forall k :: k in buckets' ==> buckets'[k] == ""
  {
    keys', buckets' := keys, buckets;
    for j := 0 to |names|
      invariant keys' == AddKeys(keys, names[..j])
      invariant forall k :: k in buckets' <==> k in keys'
      invariant forall k :: k in buckets' ==> buckets'[k] == ""
    {
      assert names[..j + 1][..j] == names[..j];
      keys' := AddKey(keys', names[j]);
      buckets' := buckets'[names[j] := ""];
    }
    assert names[..|names|] == names;
  }

  /** Appends a task's card to every bucket whose name occurs in its assignee text. */
  method PlaceCard(keys: seq<string>, buckets: map<string, string>, task: TaskData)
    returns (buckets': map<string, string>)
    requires Distinct(keys)
    requires forall k :: k in buckets <==> k in keys
    ensures forall k :: k in buckets' <==> k in keys
    ensures forall k :: k in keys ==> buckets'[k] == buckets[k] + Share(task, k)
  {
    buckets' := buckets;
    for j := 0 to |keys|
      invariant forall k :: k in buckets' <==> k in keys
      invariant forall m :: 0 <= m < j ==> buckets'[keys[m]] == buckets[keys[m]] + Share(task, keys[m])
      invariant forall m :: j <= m < |keys| ==> buckets'[keys[m]] == buckets[keys[m]]
    {
      // the bucket name is already stripped (`AssigneeKeysStripped`)
      if Contains(task.assignedTo, keys[j]) {
        buckets' := buckets'[keys[j] := buckets'[keys[j]] + Card(task, ByAssignee)];
      }
    }
    forall k | k in keys
      ensures buckets'[k] == buckets[k] + Share(task, k)
    {
      var m :| 0 <= m < |keys| && keys[m] == k;
    }
  }

  /** What the assignee board adds to a bucket for one task. */
  function Share(task: TaskData, bucket: string): string {
    if InBucket(task, bucket, ByAssignee) then Card(task, ByAssignee) else ""
  }

  /** The board sections written from the buckets as the board builder holds them. */
  function WrittenSections(keys: seq<string>, buckets: map<string, string>): string
    requires forall k :: k in keys ==> k in buckets
  {
    if keys == [] then []
    else
      var k := keys[|keys| - 1];
      WrittenSections(keys[..|keys| - 1], buckets) + (k + "\n" + buckets[k] + "\n")
  }

  lemma {:induction false} WrittenSectionsAgree(keys: seq<string>, buckets: map<string, string>,
                                                tasks: seq<TaskData>, g: Grouping)
    requires forall k :: k in keys ==> k in buckets && buckets[k] == BucketText(tasks, k, g)
    ensures WrittenSections(keys, buckets) == Sections(keys, tasks, g)
  {
    if keys != [] {
      WrittenSectionsAgree(keys[..|keys| - 1], buckets, tasks, g);
    }
  }

  lemma WrittenSectionsNext(keys: seq<string>, j: nat, buckets: map<string, string>)
    requires j < |keys| && forall k :: k in keys ==> k in buckets
    ensures WrittenSections(keys[..j + 1], buckets)
         == WrittenSections(keys[..j], buckets) + (keys[j] + "\n" + buckets[keys[j]] + "\n")
  {
    assert keys[..j + 1][..j] == keys[..j];
  }

  /** Writes the header, then each bucket's name and cards, then the closing fence. */
  method WriteBoard(header: string, keys: seq<string>, buckets: map<string, string>)
    returns (board: string)
    requires forall k :: k in keys ==> k in buckets
    ensures board == header + WrittenSections(keys, buckets) + BoardFooter
  {
    board := header;
    for j := 0 to |keys|
      invariant board == header + WrittenSections(keys[..j], buckets)
    {
      WrittenSectionsNext(keys, j, buckets);
      board := board + (keys[j] + "\n" + buckets[keys[j]] + "\n");
    }
    assert keys[..|keys|] == keys;
    board := board + BoardFooter;
  }
}

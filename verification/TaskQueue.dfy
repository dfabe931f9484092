/** The execution-plan task queue: task files on disk and the commands that move a task through its states. */
module TaskQueue {
  import opened Common
  import opened FrontMatter
  import StringOrder

  const PENDING: string := "pending"
  const IN_PROGRESS: string := "in_progress"
  const DONE: string := "done"

  type Files = map<string, string>

  type Documents = map<string, Document>

  datatype Task = Task(path: string, document: Document)

  /**
   * How tasks are referred to: `name` gives the file name of a path, `id` the
   * number, `matches` the references `resolve_task` takes for a task, `called`
   * the narrower test `set-status` uses to leave that one aside.
   */
  datatype Names = Names(
    name: string -> string, id: Task -> int, matches: (Task, string) -> bool, called: (Task, string) -> bool)

  datatype Refusal = Unloadable | Multiple | NotFound | NotInProgress | Busy(path: string)

  function Field(document: Document, key: string): string {
    if key in document.fields then Strip(document.fields[key]) else ""
  }

  function StatusOf(document: Document): string {
    Field(document, "status")
  }

  predicate Is(task: Task, status: string) {
    StatusOf(task.document) == status
  }

  predicate HasStatus(documents: Documents, path: string, status: string) {
    path in documents && StatusOf(documents[path]) == status
  }

  ghost predicate AtMostOne(documents: Documents, status: string) {
    forall p, q :: HasStatus(documents, p, status) && HasStatus(documents, q, status) ==> p == q
  }

  predicate Loadable(files: Files) {
    forall path :: path in files ==> Parse(files[path]).Ok?
  }

  /** What the files that parse hold. */
  function Contents(files: Files): Documents {
    map path | path in files && Parse(files[path]).Ok? :: Parse(files[path]).value
  }

  // ---- The sorted list ----------------------------------------------------

  /** `t` sorts strictly before `u`: by number, then by file name. */
  predicate Ahead(names: Names, t: Task, u: Task) {
    names.id(t) < names.id(u) ||
    (names.id(t) == names.id(u) && StringOrder.Less(names.name(t.path), names.name(u.path)))
  }

  lemma AheadIsOrder(names: Names, t: Task, u: Task, v: Task)
    ensures !(Ahead(names, t, u) && Ahead(names, u, t))
    ensures !Ahead(names, u, t) && !Ahead(names, v, u) ==> !Ahead(names, v, t)
  {
    var a, b, c := names.name(t.path), names.name(u.path), names.name(v.path);
    StringOrder.LessTotal(a, b);
    StringOrder.LessTotal(b, c);
    if StringOrder.Less(a, b) && StringOrder.Less(b, c) { StringOrder.LessTransitive(a, b, c); }
    StringOrder.LessTotal(a, c);
  }

  predicate Sorted(names: Names, tasks: seq<Task>) {
    forall i, j :: 0 <= i < j < |tasks| ==> tasks[i].path != tasks[j].path && !Ahead(names, tasks[j], tasks[i])
  }

  /** All tasks, each once, none behind one it sorts before. */
  predicate Loaded(names: Names, documents: Documents, tasks: seq<Task>) {
    (forall i :: 0 <= i < |tasks| ==> tasks[i].path in documents && documents[tasks[i].path] == tasks[i].document)
    && (forall path :: path in documents ==> exists i :: 0 <= i < |tasks| && tasks[i].path == path)
    && Sorted(names, tasks)
  }

  ghost predicate IsFirst(names: Names, tasks: set<Task>, first: Task) {
    first in tasks && forall task :: task in tasks ==> !Ahead(names, task, first)
  }

  lemma {:induction false} HasFirst(names: Names, tasks: set<Task>)
    requires tasks != {}
    ensures exists first :: IsFirst(names, tasks, first)
  {
    var some :| some in tasks;
    var others := tasks - {some};
    assert forall task :: task in tasks ==> task == some || task in others;
    AheadIsOrder(names, some, some, some);
    if others == {} {
      assert IsFirst(names, tasks, some);
    } else {
      HasFirst(names, others);
      var first :| IsFirst(names, others, first);
      if Ahead(names, some, first) {
        forall task | task in others ensures !Ahead(names, task, some) {
          AheadIsOrder(names, some, first, task);
        }
        assert IsFirst(names, tasks, some);
      } else {
        assert IsFirst(names, tasks, first);
      }
    }
  }

  /** The sort by number and name. */
  method SortTasks(names: Names, found: set<Task>) returns (tasks: seq<Task>)
    requires forall t, u :: t in found && u in found && t.path == u.path ==> t == u
    ensures forall task :: task in tasks <==> task in found
    ensures Sorted(names, tasks)
  {
    tasks := [];
    var rest := found;
    while rest != {}
      invariant rest <= found
      invariant forall task :: task in tasks <==> task in found && task !in rest
      invariant forall i, task :: 0 <= i < |tasks| && task in rest ==> !Ahead(names, task, tasks[i])
      invariant Sorted(names, tasks)
    {
      HasFirst(names, rest);
      var first :| first in rest && forall task :: task in rest ==> !Ahead(names, task, first);
      assert forall i :: 0 <= i < |tasks| ==> tasks[i] in found && tasks[i] !in rest;
      tasks, rest := tasks + [first], rest - {first};
    }
  }

  /** `load_tasks`: every file parsed, then sorted; one that does not parse fails the whole. */
  method LoadTasks(names: Names, files: Files) returns (r: Result<seq<Task>, Refusal>)
    ensures r.Ok? <==> Loadable(files)
    ensures r.Ok? ==> Loaded(names, Contents(files), r.value)
    ensures r.Ok? ==> forall i, j :: 0 <= i < j < |r.value| ==>
      || names.id(r.value[i]) < names.id(r.value[j])
      || (names.id(r.value[i]) == names.id(r.value[j])
        && !StringOrder.Less(names.name(r.value[j].path), names.name(r.value[i].path)))
    ensures r.Err? ==> r.error == Unloadable
  {
    var found: set<Task> := {};
    var paths := files.Keys;
    ghost var documents := Contents(files);
    while paths != {}
      invariant paths <= files.Keys
      invariant forall path :: path in files && path !in paths ==> Parse(files[path]).Ok?
      invariant forall task :: task in found <==>
        task.path in documents && task.path !in paths && documents[task.path] == task.document
    {
      var path :| path in paths;
      var parsed := ParseFrontMatter(files[path]);
      if parsed.Err? {
        return Err(Unloadable);
      }
      found, paths := found + {Task(path, parsed.value)}, paths - {path};
    }
    var tasks := SortTasks(names, found);
    AllLoaded(names, documents, found, tasks);
    return Ok(tasks);
  }

  lemma AllLoaded(names: Names, documents: Documents, found: set<Task>, tasks: seq<Task>)
    requires forall task :: task in found <==> task.path in documents && documents[task.path] == task.document
    requires (forall task :: task in tasks <==> task in found) && Sorted(names, tasks)
    ensures Loaded(names, documents, tasks)
  {
    forall path | path in documents ensures exists i :: 0 <= i < |tasks| && tasks[i].path == path {
      assert Task(path, documents[path]) in tasks;
    }
  }

  /** `ensure_single_in_progress`, for any test of a task. */
  method EnsureSingle(tasks: seq<Task>, fits: Task -> bool) returns (r: Result<Option<nat>, Refusal>)
    ensures r.Err? ==> r.error == Multiple
    ensures r.Err? ==> exists i, j :: 0 <= i < j < |tasks| && fits(tasks[i]) && fits(tasks[j])
    ensures r.Ok? ==> IsSingle(tasks, fits, r.value)
  {
    var found: seq<nat> := [];
    for i := 0 to |tasks|
      invariant forall k :: 0 <= k < |found| ==> found[k] < i && fits(tasks[found[k]])
      invariant forall k :: 0 <= k < i && fits(tasks[k]) ==> k in found
      invariant forall j, k :: 0 <= j < k < |found| ==> found[j] < found[k]
    {
      if fits(tasks[i]) {
        found := found + [i];
      }
    }
    if |found| > 1 {
      assert found[0] < found[1];
      return Err(Multiple);
    }
    return Ok(if |found| == 0 then None else Some(found[0]));
  }

  predicate IsSingle(tasks: seq<Task>, fits: Task -> bool, single: Option<nat>) {
    (single.Some? ==> single.value < |tasks|)
    && forall i :: 0 <= i < |tasks| ==> (fits(tasks[i]) <==> single == Some(i))
  }

  /** The first task of a kind. */
  method FirstWhere(tasks: seq<Task>, fits: Task -> bool) returns (found: Option<nat>)
    ensures found.Some? ==> found.value < |tasks| && fits(tasks[found.value])
    ensures found.Some? ==> forall i :: 0 <= i < found.value ==> !fits(tasks[i])
    ensures found.None? ==> forall i :: 0 <= i < |tasks| ==> !fits(tasks[i])
  {
    for i := 0 to |tasks|
      invariant forall k :: 0 <= k < i ==> !fits(tasks[k])
    {
      if fits(tasks[i]) {
        return Some(i);
      }
    }
    return None;
  }

  /** The successor a task names. */
  function Wanted(document: Document): string {
    Field(document, "next_task")
  }

  predicate Named(names: Names, task: Task, wanted: string, status: string) {
    wanted != "" && names.name(task.path) == wanted && Is(task, status)
  }

  /** The tasks a queue may go on with: the named successor if that is pending, else the first pending task. */
  predicate IsChoice(names: Names, tasks: seq<Task>, wanted: string, status: string, n: nat) {
    n < |tasks| && Is(tasks[n], status)
    && (Named(names, tasks[n], wanted, status)
      || ((forall i :: 0 <= i < |tasks| ==> !Named(names, tasks[i], wanted, status))
        && forall i :: 0 <= i < n ==> !Is(tasks[i], status)))
  }

  /** `next_pending`. */
  method NextPending(names: Names, tasks: seq<Task>, wanted: string, status: string) returns (next: Option<nat>)
    ensures next.Some? ==> IsChoice(names, tasks, wanted, status, next.value)
    ensures next.None? ==> forall i :: 0 <= i < |tasks| ==> !Is(tasks[i], status)
  {
    if wanted != "" {
      next := FirstWhere(tasks, task => Named(names, task, wanted, status));
      if next.Some? { return; }
    }
    next := FirstWhere(tasks, task => Is(task, status));
  }

  // ---- From the list to the files -----------------------------------------

  lemma LoadedStatus(names: Names, documents: Documents, tasks: seq<Task>, path: string) returns (i: nat)
    requires Loaded(names, documents, tasks) && path in documents
    ensures i < |tasks| && tasks[i] == Task(path, documents[path])
  {
    i :| 0 <= i < |tasks| && tasks[i].path == path;
  }

  /** The single task in progress, if there is one, is the one found. */
  lemma SingleIsAtMostOne(names: Names, documents: Documents, tasks: seq<Task>, status: string, single: Option<nat>)
    requires Loaded(names, documents, tasks) && IsSingle(tasks, task => Is(task, status), single)
    ensures forall p :: HasStatus(documents, p, status) <==> single.Some? && p == tasks[single.value].path
  {
    forall p | p in documents
      ensures HasStatus(documents, p, status) <==> single.Some? && p == tasks[single.value].path
    {
      var i := LoadedStatus(names, documents, tasks, p);
      assert Is(tasks[i], status) <==> single == Some(i);
    }
  }

  lemma TwoAreTooMany(names: Names, documents: Documents, tasks: seq<Task>, status: string, i: nat, j: nat)
    requires Loaded(names, documents, tasks) && i < j < |tasks| && Is(tasks[i], status) && Is(tasks[j], status)
    ensures !AtMostOne(documents, status)
  {
    assert HasStatus(documents, tasks[i].path, status) && HasStatus(documents, tasks[j].path, status);
  }

  ghost predicate NoneHas(documents: Documents, status: string) {
    forall p :: !HasStatus(documents, p, status)
  }

  lemma NoneIsLeft(names: Names, documents: Documents, tasks: seq<Task>, status: string)
    requires Loaded(names, documents, tasks) && forall i :: 0 <= i < |tasks| ==> !Is(tasks[i], status)
    ensures NoneHas(documents, status)
  {
    forall p | p in documents ensures !HasStatus(documents, p, status) {
      var i := LoadedStatus(names, documents, tasks, p);
    }
  }

  ghost predicate NamedTask(names: Names, documents: Documents, path: string, wanted: string, status: string) {
    wanted != "" && HasStatus(documents, path, status) && names.name(path) == wanted
  }

  /** A fitting task no other fitting one sorts before. */
  ghost predicate FirstFitting(names: Names, documents: Documents, path: string, fits: Task -> bool) {
    path in documents && fits(Task(path, documents[path]))
    && forall p :: p in documents && fits(Task(p, documents[p])) ==>
      !Ahead(names, Task(p, documents[p]), Task(path, documents[path]))
  }

  /** What `resolve_task` finds for a reference. */
  ghost predicate Resolves(names: Names, documents: Documents, ref: string, path: string) {
    FirstFitting(names, documents, path, task => names.matches(task, ref))
  }

  lemma FirstFits(names: Names, documents: Documents, tasks: seq<Task>, n: nat, fits: Task -> bool)
    requires Loaded(names, documents, tasks) && n < |tasks| && fits(tasks[n])
    requires forall i :: 0 <= i < n ==> !fits(tasks[i])
    ensures FirstFitting(names, documents, tasks[n].path, fits)
  {
    forall p | p in documents && fits(Task(p, documents[p]))
      ensures !Ahead(names, Task(p, documents[p]), tasks[n])
    {
      var i := LoadedStatus(names, documents, tasks, p);
      AheadIsOrder(names, tasks[n], tasks[n], tasks[n]);
    }
  }

  ghost predicate IsNext(names: Names, documents: Documents, wanted: string, status: string, path: string) {
    NamedTask(names, documents, path, wanted, status)
    || (FirstFitting(names, documents, path, task => Is(task, status))
      && forall p :: !NamedTask(names, documents, p, wanted, status))
  }

  lemma ChoiceIsNext(names: Names, documents: Documents, tasks: seq<Task>, wanted: string, status: string, n: nat)
    requires Loaded(names, documents, tasks) && IsChoice(names, tasks, wanted, status, n)
    ensures IsNext(names, documents, wanted, status, tasks[n].path)
  {
    if !Named(names, tasks[n], wanted, status) {
      FirstFits(names, documents, tasks, n, task => Is(task, status));
      forall p | HasStatus(documents, p, status) ensures !NamedTask(names, documents, p, wanted, status) {
        var i := LoadedStatus(names, documents, tasks, p);
        assert !Named(names, tasks[i], wanted, status);
      }
    }
  }

  // ---- Updates ------------------------------------------------------------

  /** A document with its status and date set; its other fields and its body are kept. */
  function Restamped(document: Document, status: string, today: string): Document {
    document.(fields := document.fields["status" := status]["updated" := today])
  }

  lemma RestampedStatus(document: Document, status: string, today: string)
    requires Stripped(status)
    ensures StatusOf(Restamped(document, status, today)) == status
  {
    StatusIsNotUpdated(document.fields, status, today);
  }

  lemma StatusIsNotUpdated(fields: Fields, status: string, today: string)
    ensures "status" in fields["status" := status]["updated" := today]
    ensures fields["status" := status]["updated" := today]["status"] == status
  {
    assert |"status"| == 6 && |"updated"| == 7;
  }

  /** `after` is `before` with this status and date: the body and every other field are the same. */
  ghost predicate SetIn(before: Document, after: Document, status: string, today: string) {
    && after.body == before.body
    && "status" in after.fields && after.fields["status"] == status
    && "updated" in after.fields && after.fields["updated"] == today
    && forall key :: key != "status" && key != "updated" ==>
      && (key in after.fields <==> key in before.fields)
      && (key in before.fields ==> after.fields[key] == before.fields[key])
  }

  lemma RestampedSets(document: Document, status: string, today: string)
    ensures SetIn(document, Restamped(document, status, today), status, today)
  {
    StatusIsNotUpdated(document.fields, status, today);
  }

  /** Of all files, the one at `path` alone is rewritten, and reads as before but for its status and date. */
  ghost predicate OneFileSet(before: Files, after: Files, path: string, status: string, today: string) {
    && after.Keys == before.Keys && path in before
    && (forall p :: p in before && p != path ==> after[p] == before[p])
    && Parse(before[path]).Ok? && Parse(after[path]).Ok?
    && SetIn(Parse(before[path]).value, Parse(after[path]).value, status, today)
  }

  /** `complete` on the files: the task done, and the successor, another file, in progress. */
  ghost predicate FilesCompleted(before: Files, after: Files, path: string, next: Option<string>, today: string) {
    match next
    case None => OneFileSet(before, after, path, "done", today)
    case Some(q) =>
      && q != path && q in before && path in before && after.Keys == before.Keys
      && (forall p :: p in before && p != path && p != q ==> after[p] == before[p])
      && Parse(before[path]).Ok? && Parse(after[path]).Ok? && Parse(before[q]).Ok? && Parse(after[q]).Ok?
      && SetIn(Parse(before[path]).value, Parse(after[path]).value, "done", today)
      && SetIn(Parse(before[q]).value, Parse(after[q]).value, "in_progress", today)
  }

  lemma TwoFilesSet(before: Files, between: Files, after: Files, path: string, next: string, today: string)
    requires OneFileSet(before, between, path, "done", today)
    requires OneFileSet(between, after, next, "in_progress", today) && next != path
    ensures FilesCompleted(before, after, path, Some(next), today)
  {
  }

  function Update(documents: Documents, path: string, status: string, today: string): Documents
    requires path in documents
  {
    documents[path := Restamped(documents[path], status, today)]
  }

  /** What an update does to the status of every task. */
  lemma UpdatedStatus(documents: Documents, path: string, status: string, today: string, p: string, s: string)
    requires path in documents && Stripped(status)
    ensures HasStatus(Update(documents, path, status, today), p, s) <==>
      if p == path then s == status else HasStatus(documents, p, s)
  {
    RestampedStatus(documents[path], status, today);
    ReplacedStatus(documents, path, Restamped(documents[path], status, today), p, s);
  }

  lemma ReplacedStatus(documents: Documents, path: string, document: Document, p: string, s: string)
    ensures HasStatus(documents[path := document], p, s) <==>
      if p == path then StatusOf(document) == s else HasStatus(documents, p, s)
  {
  }

  /** Promoting a task while no other is in progress leaves exactly that one in progress. */
  lemma Promoted(documents: Documents, path: string, status: string, today: string)
    requires path in documents && Stripped(status)
    requires forall p :: HasStatus(documents, p, status) ==> p == path
    ensures AtMostOne(Update(documents, path, status, today), status)
    ensures HasStatus(Update(documents, path, status, today), path, status)
  {
    forall p ensures HasStatus(Update(documents, path, status, today), p, status) <==> p == path {
      UpdatedStatus(documents, path, status, today, p, status);
    }
  }

  /** Moving a task to another status puts no other task in progress. */
  lemma Demoted(documents: Documents, path: string, status: string, today: string, running: string)
    requires path in documents && Stripped(status) && status != running
    ensures forall p :: HasStatus(Update(documents, path, status, today), p, running) <==>
      HasStatus(documents, p, running) && p != path
  {
    forall p ensures HasStatus(Update(documents, path, status, today), p, running) <==>
      HasStatus(documents, p, running) && p != path
    {
      UpdatedStatus(documents, path, status, today, p, running);
    }
  }

  lemma RestampedIsWellFormed(document: Document, status: string, today: string)
    requires WellFormed(document.fields) && Clean(status) && Clean(today)
    ensures WellFormed(Restamped(document, status, today).fields)
    ensures "status" in Restamped(document, status, today).fields
  {
    KeyIsClean("status", status);
    KeyIsClean("updated", today);
    WellFormedUpdate(document.fields, "status", status);
    WellFormedUpdate(document.fields["status" := status], "updated", today);
  }

  lemma KeyIsClean(key: string, value: string)
    requires key == "status" || key == "updated"
    requires Clean(value)
    ensures CleanField(key, value)
  {
  }

  lemma StatusesAreClean()
    ensures Clean(PENDING) && Clean(IN_PROGRESS) && Clean(DONE)
  {
  }

  lemma SavedContents(files: Files, path: string, text: string, document: Document)
    requires Loadable(files) && path in files && Parse(text) == Ok(document)
    ensures Loadable(files[path := text]) && Contents(files[path := text]) == Contents(files)[path := document]
  {
  }

  class Queue {
    const names: Names
    var files: Files

    constructor (names: Names, files: Files)
      ensures this.names == names && this.files == files
    {
      this.names, this.files := names, files;
    }

    /** Sets the status and the date of a loaded task and saves it; what is read back is what was meant. */
    method Save(task: Task, status: string, today: string)
      requires Loadable(files) && task.path in files && Contents(files)[task.path] == task.document
      requires Clean(status) && Clean(today)
      modifies `files
      ensures Loadable(files) && Contents(files) == Update(old(Contents(files)), task.path, status, today)
      ensures OneFileSet(old(files), files, task.path, status, today)
    {
      var document := Restamped(task.document, status, today);
      RestampedSets(task.document, status, today);
      ParsedIsWellFormed(files[task.path]);
      RestampedIsWellFormed(task.document, status, today);
      var text := SerializeTask(document);
      RoundTripExact(document, text);
      SavedContents(files, task.path, text, document);
      files := files[task.path := text];
    }

    /** `resume`: whichever task is in progress, or the next pending one promoted. */
    method Resume(today: string) returns (r: Result<Option<string>, Refusal>)
      requires Clean(today)
      modifies `files
      ensures r.Err? ==> files == old(files)
      ensures r.Err? ==> !Loadable(files) || !AtMostOne(Contents(files), IN_PROGRESS)
      ensures r.Ok? ==> Resumed(names, old(Contents(files)), Contents(files), r.value, today)
      ensures r.Ok? ==>
        if r.value.None? || HasStatus(old(Contents(files)), r.value.value, "in_progress") then files == old(files)
        else OneFileSet(old(files), files, r.value.value, "in_progress", today)
      ensures r.Ok? ==> AtMostOne(Contents(files), IN_PROGRESS)
    {
      var loaded := LoadTasks(names, files);
      if loaded.Err? { return Err(loaded.error); }
      var tasks := loaded.value;
      var choice := ChooseResume(names, tasks, Contents(files));
      match choice
      case Err(refusal) => r := Err(refusal);
      case Ok(Idle) => r := Ok(None);
      case Ok(Current(i)) => r := Ok(Some(tasks[i].path));
      case Ok(Promote(i)) =>
        StatusesAreClean();
        Save(tasks[i], IN_PROGRESS, today);
        r := Ok(Some(tasks[i].path));
      if r.Ok? {
        ResumedLeavesOne(names, old(Contents(files)), Contents(files), r.value, today);
      }
    }

    /** `complete`: what was in progress is done, and with `advance` the next pending one takes its place. */
    method Complete(ref: string, advance: bool, today: string) returns (r: Result<(string, Option<string>), Refusal>)
      requires Clean(today)
      modifies `files
      ensures r.Err? ==> files == old(files)
      ensures r.Err? ==> CannotComplete(names, Contents(files), ref, r.error) || !Loadable(files)
      ensures r.Ok? ==>
        Completed(names, old(Contents(files)), Contents(files), ref, r.value.0, r.value.1, advance, today)
      ensures r.Ok? ==> FilesCompleted(old(files), files, r.value.0, r.value.1, today)
      ensures r.Ok? ==> AtMostOne(Contents(files), IN_PROGRESS)
    {
      var loaded := LoadTasks(names, files);
      if loaded.Err? { return Err(loaded.error); }
      ghost var before := Contents(files);
      var choice := ChooseComplete(names, loaded.value, ref, before);
      if choice.Err? { return Err(choice.error); }
      var task := loaded.value[choice.value];
      StatusesAreClean();
      Save(task, DONE, today);
      if !advance {
        CompletedLeavesOne(names, before, Contents(files), ref, task.path, None, advance, today);
        return Ok((task.path, None));
      }
      var again := LoadTasks(names, files);
      var tasks := again.value;
      ghost var between := Contents(files);
      var next := NextPending(names, tasks, Wanted(task.document), PENDING);
      if next.None? {
        NoneIsLeft(names, between, tasks, PENDING);
        CompletedLeavesOne(names, before, between, ref, task.path, None, advance, today);
        return Ok((task.path, None));
      }
      ChoiceIsNext(names, between, tasks, Wanted(task.document), PENDING, next.value);
      var successor := tasks[next.value].path;
      DoneIsNotPending(before, task.path, today);
      ghost var filed := files;
      Save(tasks[next.value], IN_PROGRESS, today);
      TwoFilesSet(old(files), filed, files, task.path, successor, today);
      CompletedLeavesOne(names, before, Contents(files), ref, task.path, Some(successor), advance, today);
      return Ok((task.path, Some(successor)));
    }

    /** `set-status`: any status but `in_progress` at will, that one only while no other task has it. */
    method SetStatus(ref: string, status: string, today: string) returns (r: Result<string, Refusal>)
      requires Clean(today) && status in {PENDING, IN_PROGRESS, DONE}
      modifies `files
      ensures r.Err? ==> files == old(files)
      ensures r.Err? ==> Refused(names, Contents(files), ref, status, r.error) || !Loadable(files)
      ensures r.Ok? ==> WasSet(names, old(Contents(files)), Contents(files), ref, r.value, status, today)
      ensures r.Ok? ==> OneFileSet(old(files), files, r.value, status, today)
      ensures r.Ok? && old(AtMostOne(Contents(files), IN_PROGRESS)) ==> AtMostOne(Contents(files), IN_PROGRESS)
    {
      var loaded := LoadTasks(names, files);
      if loaded.Err? { return Err(loaded.error); }
      var choice := ChooseSet(names, loaded.value, ref, status, Contents(files));
      if choice.Err? { return Err(choice.error); }
      var task := loaded.value[choice.value];
      StatusesAreClean();
      ghost var before := Contents(files);
      Save(task, status, today);
      if AtMostOne(before, IN_PROGRESS) {
        SetKeepsOne(names, before, Contents(files), ref, task.path, status, today);
      }
      return Ok(task.path);
    }
  }

  /** What a successful `complete` does, and what it tested before. */
  ghost predicate Completed(names: Names, before: Documents, after: Documents, ref: string, path: string,
                            next: Option<string>, advance: bool, today: string) {
    OnlyOne(before, path, IN_PROGRESS)
    && Resolves(names, before, ref, path)
    && var between := Update(before, path, DONE, today);
    match next
    case None => after == between && (advance ==> NoneHas(between, PENDING))
    case Some(q) =>
      advance && q in between && IsNext(names, between, Field(before[path], "next_task"), PENDING, q)
      && after == Update(between, q, IN_PROGRESS, today)
  }

  /** Why `complete` refuses: too many tasks in progress, no such task, or one that is not in progress. */
  ghost predicate CannotComplete(names: Names, documents: Documents, ref: string, refusal: Refusal) {
    match refusal
    case Multiple => !AtMostOne(documents, IN_PROGRESS)
    case NotFound => forall p :: p in documents ==> !names.matches(Task(p, documents[p]), ref)
    case NotInProgress => exists p :: Resolves(names, documents, ref, p) && !HasStatus(documents, p, IN_PROGRESS)
    case _ => false
  }

  /** Which task `complete` may close. */
  method ChooseComplete(names: Names, tasks: seq<Task>, ref: string, ghost documents: Documents)
    returns (r: Result<nat, Refusal>)
    requires Loaded(names, documents, tasks)
    ensures r.Err? ==> CannotComplete(names, documents, ref, r.error)
    ensures r.Ok? ==> r.value < |tasks| && OnlyOne(documents, tasks[r.value].path, IN_PROGRESS)
    ensures r.Ok? ==> Resolves(names, documents, ref, tasks[r.value].path)
  {
    var single := EnsureSingle(tasks, task => Is(task, IN_PROGRESS));
    if single.Err? {
      ghost var i, j :| 0 <= i < j < |tasks| && Is(tasks[i], IN_PROGRESS) && Is(tasks[j], IN_PROGRESS);
      TwoAreTooMany(names, documents, tasks, IN_PROGRESS, i, j);
      return Err(Multiple);
    }
    SingleIsAtMostOne(names, documents, tasks, IN_PROGRESS, single.value);
    var found := FirstWhere(tasks, task => names.matches(task, ref));
    if found.None? {
      NoneFits(names, documents, tasks, task => names.matches(task, ref));
      return Err(NotFound);
    }
    FirstFits(names, documents, tasks, found.value, task => names.matches(task, ref));
    assert Resolves(names, documents, ref, tasks[found.value].path);
    if !Is(tasks[found.value], IN_PROGRESS) { return Err(NotInProgress); }
    return Ok(found.value);
  }

  lemma DoneLeavesNone(documents: Documents, path: string, today: string)
    requires path in documents && OnlyOne(documents, path, IN_PROGRESS)
    ensures NoneHas(Update(documents, path, DONE, today), IN_PROGRESS)
  {
    StatusesAreClean();
    Demoted(documents, path, DONE, today, IN_PROGRESS);
  }

  lemma DoneIsNotPending(documents: Documents, path: string, today: string)
    requires path in documents
    ensures !HasStatus(Update(documents, path, DONE, today), path, PENDING)
  {
    StatusesAreClean();
    UpdatedStatus(documents, path, DONE, today, path, PENDING);
  }

  lemma AdvanceLeavesOne(documents: Documents, path: string, today: string)
    requires path in documents && NoneHas(documents, IN_PROGRESS)
    ensures OnlyOne(Update(documents, path, IN_PROGRESS, today), path, IN_PROGRESS)
  {
    StatusesAreClean();
    Promoted(documents, path, IN_PROGRESS, today);
  }

  /** After `complete` none is in progress, or exactly the successor. */
  lemma CompletedLeavesOne(names: Names, before: Documents, after: Documents, ref: string, path: string,
                           next: Option<string>, advance: bool, today: string)
    requires Completed(names, before, after, ref, path, next, advance, today)
    ensures if next.None? then NoneHas(after, IN_PROGRESS) else OnlyOne(after, next.value, IN_PROGRESS)
  {
    DoneLeavesNone(before, path, today);
    if next.Some? {
      AdvanceLeavesOne(Update(before, path, DONE, today), next.value, today);
    }
  }

  /** What a successful `set-status` does, and what it tested before. */
  ghost predicate WasSet(names: Names, before: Documents, after: Documents, ref: string, path: string,
                         status: string, today: string) {
    Resolves(names, before, ref, path) && status in {PENDING, IN_PROGRESS, DONE}
    && (status == IN_PROGRESS ==> forall p :: HasStatus(before, p, IN_PROGRESS) ==> p == path)
    && after == Update(before, path, status, today)
  }

  /** Why `set-status` refuses: too many tasks in progress, no such task, or another one in progress. */
  ghost predicate Refused(names: Names, documents: Documents, ref: string, status: string, refusal: Refusal) {
    match refusal
    case Multiple => status == IN_PROGRESS && !AtMostOne(documents, IN_PROGRESS)
    case NotFound => forall p :: p in documents ==> !names.matches(Task(p, documents[p]), ref)
    case Busy(p) =>
      status == IN_PROGRESS && HasStatus(documents, p, IN_PROGRESS)
      && exists q :: q != p && Resolves(names, documents, ref, q)
    case _ => false
  }

  method ChooseSet(names: Names, tasks: seq<Task>, ref: string, status: string, ghost documents: Documents)
    returns (r: Result<nat, Refusal>)
    requires Loaded(names, documents, tasks)
    ensures r.Err? ==> Refused(names, documents, ref, status, r.error)
    ensures r.Ok? ==> r.value < |tasks|
    ensures r.Ok? ==> Resolves(names, documents, ref, tasks[r.value].path)
    ensures r.Ok? && status == IN_PROGRESS ==>
      forall p :: HasStatus(documents, p, IN_PROGRESS) ==> p == tasks[r.value].path
  {
    if status == IN_PROGRESS {
      var others := EnsureSingle(tasks, task => Is(task, IN_PROGRESS) && !names.called(task, ref));
      if others.Err? {
        ghost var i, j :| 0 <= i < j < |tasks| && Is(tasks[i], IN_PROGRESS) && Is(tasks[j], IN_PROGRESS);
        TwoAreTooMany(names, documents, tasks, IN_PROGRESS, i, j);
        return Err(Multiple);
      }
    }
    var found := FirstWhere(tasks, task => names.matches(task, ref));
    if found.None? {
      NoneFits(names, documents, tasks, task => names.matches(task, ref));
      return Err(NotFound);
    }
    FirstFits(names, documents, tasks, found.value, task => names.matches(task, ref));
    assert Resolves(names, documents, ref, tasks[found.value].path);
    if status == IN_PROGRESS {
      var single := EnsureSingle(tasks, task => Is(task, IN_PROGRESS));
      if single.Err? {
        ghost var i, j :| 0 <= i < j < |tasks| && Is(tasks[i], IN_PROGRESS) && Is(tasks[j], IN_PROGRESS);
        TwoAreTooMany(names, documents, tasks, IN_PROGRESS, i, j);
        return Err(Multiple);
      }
      SingleIsAtMostOne(names, documents, tasks, IN_PROGRESS, single.value);
      if single.value.Some? && tasks[single.value.value].path != tasks[found.value].path {
        return Err(Busy(tasks[single.value.value].path));
      }
    }
    return Ok(found.value);
  }

  lemma NoneFits(names: Names, documents: Documents, tasks: seq<Task>, fits: Task -> bool)
    requires Loaded(names, documents, tasks) && forall i :: 0 <= i < |tasks| ==> !fits(tasks[i])
    ensures forall p :: p in documents ==> !fits(Task(p, documents[p]))
  {
    forall p | p in documents ensures !fits(Task(p, documents[p])) {
      var i := LoadedStatus(names, documents, tasks, p);
    }
  }

  /** After `set-status` at most one task is in progress if that was so before; after `in_progress`, in any case. */
  lemma SetKeepsOne(names: Names, before: Documents, after: Documents, ref: string, path: string, status: string,
                    today: string)
    requires WasSet(names, before, after, ref, path, status, today)
    requires AtMostOne(before, IN_PROGRESS) || status == IN_PROGRESS
    ensures AtMostOne(after, IN_PROGRESS)
  {
    StatusesAreClean();
    if status == IN_PROGRESS {
      Promoted(before, path, IN_PROGRESS, today);
    } else {
      Demoted(before, path, status, today, IN_PROGRESS);
    }
  }

  /** What a successful `resume` does, and what it tested before. */
  ghost predicate Resumed(names: Names, before: Documents, after: Documents, current: Option<string>, today: string) {
    match current
    case None => NoneHas(before, IN_PROGRESS) && NoneHas(before, PENDING) && after == before
    case Some(p) =>
      || (OnlyOne(before, p, IN_PROGRESS) && after == before)
      || (p in before && NoneHas(before, IN_PROGRESS) && IsNext(names, before, "", PENDING, p)
        && after == Update(before, p, IN_PROGRESS, today))
  }

  datatype Resumption = Idle | Current(index: nat) | Promote(index: nat)

  /** The choice `resume` makes among the loaded tasks. */
  method ChooseResume(names: Names, tasks: seq<Task>, ghost documents: Documents)
    returns (r: Result<Resumption, Refusal>)
    requires Loaded(names, documents, tasks)
    ensures r.Err? ==> !AtMostOne(documents, IN_PROGRESS)
    ensures r == Ok(Idle) ==> NoneHas(documents, IN_PROGRESS) && NoneHas(documents, PENDING)
    ensures r.Ok? && r.value.Current? ==> r.value.index < |tasks|
    ensures r.Ok? && r.value.Current? ==> OnlyOne(documents, tasks[r.value.index].path, IN_PROGRESS)
    ensures r.Ok? && r.value.Promote? ==> r.value.index < |tasks| && NoneHas(documents, IN_PROGRESS)
    ensures r.Ok? && r.value.Promote? ==> IsNext(names, documents, "", PENDING, tasks[r.value.index].path)
  {
    var single := EnsureSingle(tasks, task => Is(task, IN_PROGRESS));
    if single.Err? {
      ghost var i, j :| 0 <= i < j < |tasks| && Is(tasks[i], IN_PROGRESS) && Is(tasks[j], IN_PROGRESS);
      TwoAreTooMany(names, documents, tasks, IN_PROGRESS, i, j);
      return Err(Multiple);
    }
    SingleIsAtMostOne(names, documents, tasks, IN_PROGRESS, single.value);
    if single.value.Some? {
      return Ok(Current(single.value.value));
    }
    var next := NextPending(names, tasks, "", PENDING);
    if next.None? {
      NoneIsLeft(names, documents, tasks, PENDING);
      return Ok(Idle);
    }
    ChoiceIsNext(names, documents, tasks, "", PENDING, next.value);
    return Ok(Promote(next.value));
  }

  ghost predicate OnlyOne(documents: Documents, path: string, status: string) {
    forall p :: HasStatus(documents, p, status) <==> p == path
  }

  /** After `resume` at most one task is in progress: the one it names. */
  lemma ResumedLeavesOne(names: Names, before: Documents, after: Documents, current: Option<string>, today: string)
    requires Resumed(names, before, after, current, today)
    ensures if current.None? then NoneHas(after, IN_PROGRESS) else OnlyOne(after, current.value, IN_PROGRESS)
  {
    if current.Some? && !HasStatus(before, current.value, IN_PROGRESS) {
      AdvanceLeavesOne(before, current.value, today);
    }
  }

  /** A command that was given, with its outcome. */
  datatype Command =
    | Refusing
    | Resuming(current: Option<string>, today: string)
    | Completing(ref: string, path: string, next: Option<string>, advance: bool, today: string)
    | Setting(ref: string, path: string, status: string, today: string)

  ghost predicate Commanded(names: Names, before: Documents, after: Documents, command: Command) {
    match command
    case Refusing => after == before
    case Resuming(current, today) => Resumed(names, before, after, current, today)
    case Completing(ref, path, next, advance, today) =>
      Completed(names, before, after, ref, path, next, advance, today)
    case Setting(ref, path, status, today) => WasSet(names, before, after, ref, path, status, today)
  }

  lemma CommandKeepsOne(names: Names, before: Documents, after: Documents, command: Command)
    requires Commanded(names, before, after, command) && AtMostOne(before, IN_PROGRESS)
    ensures AtMostOne(after, IN_PROGRESS)
  {
    match command
    case Refusing =>
    case Resuming(current, today) => ResumedLeavesOne(names, before, after, current, today);
    case Completing(ref, path, next, advance, today) =>
      CompletedLeavesOne(names, before, after, ref, path, next, advance, today);
    case Setting(ref, path, status, today) => SetKeepsOne(names, before, after, ref, path, status, today);
  }

  ghost predicate CommandedAt(names: Names, run: seq<Documents>, commands: seq<Command>, i: nat)
    requires i < |commands| < |run|
  {
    Commanded(names, run[i], run[i + 1], commands[i])
  }

  lemma CommandedKeepsOne(names: Names, run: seq<Documents>, commands: seq<Command>, i: nat)
    requires i < |commands| < |run| && CommandedAt(names, run, commands, i) && AtMostOne(run[i], IN_PROGRESS)
    ensures AtMostOne(run[i + 1], IN_PROGRESS)
  {
    CommandKeepsOne(names, run[i], run[i + 1], commands[i]);
  }

  /** However many commands are given, at most one task is in progress after each of them. */
  lemma {:induction false} RunKeepsOne(names: Names, run: seq<Documents>, commands: seq<Command>, n: nat)
    requires |run| == |commands| + 1 && n < |run| && AtMostOne(run[0], IN_PROGRESS)
    requires forall i :: 0 <= i < |commands| ==> CommandedAt(names, run, commands, i)
    ensures AtMostOne(run[n], IN_PROGRESS)
  {
    if n > 0 {
      RunKeepsOne(names, run, commands, n - 1);
      CommandedKeepsOne(names, run, commands, n - 1);
    }
  }
}

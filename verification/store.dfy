/** The task store: the collection, the edit-mode pointer, and the create and
    update operations with their failure paths. */
module TaskStore {
  import opened Wrappers
  import opened Text
  import opened Tasks
  import opened Validation
  import opened PrioritySort

  /** The in-memory state: tasks in creation order and the id being edited
      (`currentEditId`, null when not editing). */
  datatype Store = Store(tasks: seq<Task>, editing: Option<string>)

  /** The two errors the operations throw. */
  datatype Failure = ValidationError(issue: Issue) | NotFoundError {
    function Message(): string {
      match this
      case ValidationError(issue) => issue.Message()
      case NotFoundError => "Task not found"
    }
  }

  /** Distinct failures throw distinct messages, so the text of the `Error`
      identifies what went wrong. */
  lemma MessagesDistinct(a: Failure, b: Failure)
    requires a != b
    ensures a.Message() != b.Message()
  {
  }

  /** The store after an operation together with what it returned or threw. */
  datatype Step = Step(store: Store, result: Result<Task, Failure>)

  /** What storage held under the application's key at start-up. */
  datatype Blob = NoStorage | NoBlob | Unparseable | Parsed(tasks: seq<Task>)

  /** `loadTasks`: the parsed collection, or empty when storage is missing,
      empty or unparseable. */
  function Load(blob: Blob): (r: seq<Task>)
    ensures blob.Parsed? ==> r == blob.tasks
    ensures !blob.Parsed? ==> r == []
  {
    match blob
    case Parsed(tasks) => tasks
    case _ => []
  }

  /** The constructor: loaded tasks, not editing. */
  function Init(blob: Blob): (s: Store)
    ensures s.tasks == Load(blob)
    ensures s.editing.None?
  {
    Store(Load(blob), None)
  }

  predicate HasId(tasks: seq<Task>, id: string) {
    exists i :: 0 <= i < |tasks| && tasks[i].id == id
  }

  /** `findIndex` by id: the first position holding `id`, or none. */
  function FindIndex(tasks: seq<Task>, id: string): (r: Option<nat>)
    ensures r.None? <==> !HasId(tasks, id)
    ensures r.Some? ==> r.value < |tasks| && tasks[r.value].id == id
    ensures r.Some? ==> forall j :: 0 <= j < r.value ==> tasks[j].id != id
  {
    if |tasks| == 0 then None
    else if tasks[0].id == id then Some(0)
    else
      match FindIndex(tasks[1..], id)
      case None =>
        assert forall i :: 1 <= i < |tasks| ==> tasks[i] == tasks[1..][i - 1];
        None
      case Some(k) => Some(k + 1)
  }

  /** How a created task relates to the `createTask` argument. */
  predicate CreatedFrom(input: TaskInput, id: string, created: int, updated: int, t: Task) {
    && t.id == id
    && t.title == Trim(StringOf(input.title))
    && t.description == Trim(StringOf(input.description))
    && input.priority == Str(PriorityName(t.priority))
    && input.status == Str(StatusName(t.status))
    && t.createdAt == created && t.updatedAt == updated
  }

  /** `createTask`, with the generated id and the two clock readings passed
      in: `created` for `createdAt`, then `updated` for `updatedAt`.
      Validation sees the raw input; the stored title and description are
      trimmed afterwards. */
  function Create(s: Store, input: TaskInput, id: string, created: int, updated: int): (step: Step)
    ensures Validate(input) != [] ==> step == Step(s, Failure(ValidationError(Validate(input)[0])))
    ensures Validate(input) == [] ==>
      && step.result.Success?
      && step.store == s.(tasks := s.tasks + [step.result.value])
      && CreatedFrom(input, id, created, updated, step.result.value)
  {
    var errors := Validate(input);
    if |errors| > 0 then Step(s, Failure(ValidationError(errors[0])))
    else
      var task := Task(
        id,
        Trim(StringOf(input.title)),
        Trim(StringOf(input.description)),
        PriorityOf(input.priority).value,
        StatusOf(input.status).value,
        created,
        updated);
      Step(s.(tasks := s.tasks + [task]), Success(task))
  }

  /** `updatedData`: the current task with the supplied updates laid over it,
      a supplied title or description converted and trimmed. */
  function Merge(current: Task, updates: TaskInput): (m: TaskInput)
    ensures m.title.Str? && m.description.Str?
    ensures updates.title.Undefined? ==> m.title.text == current.title
    ensures !updates.title.Undefined? ==> Trimmed(m.title.text) && m.title.text == Trim(StringOf(updates.title))
    ensures updates.description.Undefined? ==> m.description.text == current.description
    ensures !updates.description.Undefined? ==>
      Trimmed(m.description.text) && m.description.text == Trim(StringOf(updates.description))
    ensures updates.priority.Undefined? ==> PriorityOf(m.priority) == Some(current.priority)
    ensures !updates.priority.Undefined? ==> m.priority == updates.priority
    ensures updates.status.Undefined? ==> StatusOf(m.status) == Some(current.status)
    ensures !updates.status.Undefined? ==> m.status == updates.status
  {
    NamesRoundTrip(current.priority, current.status);
    TaskInput(
      if updates.title.Undefined? then Str(current.title) else Str(Trim(StringOf(updates.title))),
      if updates.description.Undefined? then Str(current.description)
      else Str(Trim(StringOf(updates.description))),
      if updates.priority.Undefined? then Str(PriorityName(current.priority)) else updates.priority,
      if updates.status.Undefined? then Str(StatusName(current.status)) else updates.status)
  }

  /** How an updated task relates to the task it replaces: fields not
      supplied keep their values, supplied text is stored trimmed, the id and
      creation time are kept and the update time is the clock reading. */
  predicate UpdatedFrom(current: Task, updates: TaskInput, now: int, t: Task) {
    && t.id == current.id
    && t.createdAt == current.createdAt
    && t.updatedAt == now
    && t.title == Trim(if updates.title.Undefined? then current.title else StringOf(updates.title))
    && t.description == (if updates.description.Undefined? then current.description
                         else Trim(StringOf(updates.description)))
    && (if updates.priority.Undefined? then t.priority == current.priority
        else updates.priority == Str(PriorityName(t.priority)))
    && (if updates.status.Undefined? then t.status == current.status
        else updates.status == Str(StatusName(t.status)))
  }

  /** `updateTask`. An unknown id or a merged candidate that fails validation
      leaves the store as it was; otherwise only the first task with `id` is
      replaced, in place. */
  function Update(s: Store, id: string, updates: TaskInput, now: int): (step: Step)
    ensures !HasId(s.tasks, id) ==> step == Step(s, Failure(NotFoundError))
    ensures step.result.Failure? ==> step.store == s
    ensures HasId(s.tasks, id) ==>
      var i := FindIndex(s.tasks, id).value;
      var errors := Validate(Merge(s.tasks[i], updates));
      && (errors != [] ==> step.result == Failure(ValidationError(errors[0])))
      && (errors == [] ==>
            && step.result.Success?
            && step.store == s.(tasks := s.tasks[i := step.result.value])
            && UpdatedFrom(s.tasks[i], updates, now, step.result.value))
  {
    match FindIndex(s.tasks, id)
    case None => Step(s, Failure(NotFoundError))
    case Some(i) =>
      var current := s.tasks[i];
      var merged := Merge(current, updates);
      var errors := Validate(merged);
      if |errors| > 0 then Step(s, Failure(ValidationError(errors[0])))
      else
        TrimIdempotent(StringOf(updates.title));
        var task := Task(
          current.id,
          Trim(StringOf(merged.title)),
          StringOf(merged.description),
          PriorityOf(merged.priority).value,
          StatusOf(merged.status).value,
          current.createdAt,
          now);
        Step(s.(tasks := s.tasks[i := task]), Success(task))
  }

  // ---------------------------------------------------------------------
  // Edit mode

  /** `exitEditMode`: clears the pointer; the tasks are untouched. */
  function ExitEditMode(s: Store): (s': Store)
    ensures s'.tasks == s.tasks
    ensures !IsInEditMode(s')
  {
    s.(editing := None)
  }

  /** `enterEditMode`: leaves any current edit first, then records `id`,
      whether or not a task has it. */
  function EnterEditMode(s: Store, id: string): (s': Store)
    ensures s'.tasks == s.tasks
    ensures IsInEditMode(s') && GetEditingTaskId(s') == Some(id)
  {
    ExitEditMode(s).(editing := Some(id))
  }

  function IsInEditMode(s: Store): bool {
    s.editing.Some?
  }

  function GetEditingTaskId(s: Store): Option<string> {
    s.editing
  }

  /** Entering edit mode forgets the previous edit entirely: the result
      depends only on the tasks and the new id. */
  lemma EnterForgetsPrevious(s: Store, t: Store, id: string)
    requires s.tasks == t.tasks
    ensures EnterEditMode(s, id) == EnterEditMode(t, id)
    ensures EnterEditMode(EnterEditMode(s, t.editing.GetOr("")), id) == EnterEditMode(s, id)
  {
  }

  // ---------------------------------------------------------------------
  // The store invariant

  /** What `createTask` and `updateTask` promise of every task they write. */
  predicate ValidTask(t: Task) {
    && Trimmed(t.title)
    && t.title != ""
    && Utf16Length(t.title) <= MaxTitleLength
    && Trimmed(t.description)
    && t.createdAt <= t.updatedAt
  }

  predicate DistinctIds(tasks: seq<Task>) {
    forall i, j :: 0 <= i < j < |tasks| ==> tasks[i].id != tasks[j].id
  }

  predicate Valid(s: Store) {
    && (forall i :: 0 <= i < |s.tasks| ==> ValidTask(s.tasks[i]))
    && DistinctIds(s.tasks)
  }

  /** No stored task was created or updated after `now`. */
  predicate ClockNotBehind(s: Store, now: int) {
    forall i :: 0 <= i < |s.tasks| ==> s.tasks[i].updatedAt <= now
  }

  lemma EmptyStoreValid(blob: Blob)
    requires !blob.Parsed?
    ensures Valid(Init(blob))
  {
  }

  /** A task created from input that passed validation satisfies the task
      invariant, since a raw title of at most 100 code units trims to one,
      provided the clock did not go back between its two readings. */
  lemma CreatedTaskValid(input: TaskInput, id: string, created: int, updated: int, t: Task)
    requires Validate(input) == [] && created <= updated
    requires CreatedFrom(input, id, created, updated, t)
    ensures ValidTask(t)
  {
    ValidIff(input);
    TrimUtf16(StringOf(input.title));
  }

  /** `createTask` keeps the store valid when the generated id is fresh and
      the clock did not go back between its two readings. */
  lemma CreatePreservesValid(s: Store, input: TaskInput, id: string, created: int, updated: int)
    requires Valid(s)
    requires !HasId(s.tasks, id)
    requires created <= updated
    ensures Valid(Create(s, input, id, created, updated).store)
  {
    var step := Create(s, input, id, created, updated);
    if Validate(input) == [] {
      var t := step.result.value;
      CreatedTaskValid(input, id, created, updated, t);
      AppendKeepsValid(s, t);
    }
  }

  /** Appending a valid task with a fresh id to a valid store keeps it valid. */
  lemma AppendKeepsValid(s: Store, t: Task)
    requires Valid(s) && ValidTask(t) && !HasId(s.tasks, t.id)
    ensures Valid(s.(tasks := s.tasks + [t]))
  {
    var ts := s.tasks + [t];
    forall i | 0 <= i < |ts| ensures ValidTask(ts[i]) {
      if i < |s.tasks| { assert ts[i] == s.tasks[i]; }
    }
    forall i, j | 0 <= i < j < |ts| ensures ts[i].id != ts[j].id {
      assert ts[i] == s.tasks[i];
      if j == |s.tasks| {
        assert ts[j] == t;
      } else {
        assert ts[j] == s.tasks[j];
      }
    }
  }

  /** Replacing a task by a valid one with the same id keeps the store valid. */
  lemma ReplaceKeepsValid(s: Store, i: nat, t: Task)
    requires Valid(s) && i < |s.tasks| && ValidTask(t) && t.id == s.tasks[i].id
    ensures Valid(s.(tasks := s.tasks[i := t]))
  {
    var ts := s.tasks[i := t];
    forall a, b | 0 <= a < b < |ts| ensures ts[a].id != ts[b].id {
      assert ts[a].id == s.tasks[a].id && ts[b].id == s.tasks[b].id;
    }
  }

  /** An update that passed validation writes a valid task when the task it
      replaces was valid and the clock has not gone back. */
  lemma UpdatedTaskValid(current: Task, updates: TaskInput, now: int, t: Task)
    requires ValidTask(current) && current.updatedAt <= now
    requires Validate(Merge(current, updates)) == []
    requires UpdatedFrom(current, updates, now, t)
    ensures ValidTask(t)
  {
    var m := Merge(current, updates);
    ValidIff(m);
    TrimFixesTrimmed(current.title);
    TrimFixesTrimmed(current.description);
    TrimIdempotent(StringOf(updates.title));
  }

  /** `updateTask` keeps the store valid while the clock does not go back. */
  lemma UpdatePreservesValid(s: Store, id: string, updates: TaskInput, now: int)
    requires Valid(s)
    requires ClockNotBehind(s, now)
    ensures Valid(Update(s, id, updates, now).store)
  {
    var step := Update(s, id, updates, now);
    if HasId(s.tasks, id) {
      var i := FindIndex(s.tasks, id).value;
      if Validate(Merge(s.tasks[i], updates)) == [] {
        UpdatedTaskValid(s.tasks[i], updates, now, step.result.value);
        ReplaceKeepsValid(s, i, step.result.value);
      }
    }
  }

  /** One leading space trims away from a trimmed title. */
  lemma PaddingTrims(title: string)
    requires Trimmed(title) && title != ""
    ensures Trim([' '] + title) == title
  {
    var padded := [' '] + title;
    assert padded[1..] == title;
    assert TrimStart(padded) == TrimStart(title);
    TrimFixesTrimmed(title);
  }

  /** A space in front adds one code unit. */
  lemma PaddingLength(title: string)
    ensures Utf16Length([' '] + title) == Utf16Length(title) + 1
  {
    Utf16Concat([' '], title);
  }

  /** `createTask` checks the untrimmed title: a valid title of 100 code
      units padded with one space is refused as too long. */
  lemma CreateRefusesPaddedTitle(s: Store, title: string, p: Priority, st: Status, id: string, created: int, updated: int)
    requires Trimmed(title) && title != "" && Utf16Length(title) == MaxTitleLength
    ensures var input := TaskInput(Str([' '] + title), Undefined, Str(PriorityName(p)), Str(StatusName(st)));
      Create(s, input, id, created, updated) == Step(s, Failure(ValidationError(TitleTooLong)))
  {
    var padded := [' '] + title;
    var input := TaskInput(Str(padded), Undefined, Str(PriorityName(p)), Str(StatusName(st)));
    PaddingTrims(title);
    PaddingLength(title);
    assert StringOf(input.title) == padded && Utf16Length(padded) == MaxTitleLength + 1;
    var errors := Validate(input);
    assert TitleTooLong in errors && TitleRequired !in errors;
    FirstIssue(errors, TitleTooLong);
    var step := Create(s, input, id, created, updated);
    assert step.result == Failure(ValidationError(TitleTooLong));
  }

  /** `updateTask` trims before it validates, so the same padded title is
      accepted and stored without the padding. */
  lemma UpdateAcceptsPaddedTitle(s: Store, title: string, id: string, now: int)
    requires HasId(s.tasks, id)
    requires Trimmed(title) && title != "" && Utf16Length(title) == MaxTitleLength
    ensures var step := Update(s, id, TaskInput(Str([' '] + title), Undefined, Undefined, Undefined), now);
      step.result.Success? && step.result.value.title == title
  {
    var i := FindIndex(s.tasks, id).value;
    var padded := [' '] + title;
    var updates := TaskInput(Str(padded), Undefined, Undefined, Undefined);
    var current := s.tasks[i];
    PaddingTrims(title);
    TrimFixesTrimmed(title);
    var m := Merge(current, updates);
    assert m.title.text == title;
    ValidIff(m);
    var step := Update(s, id, updates, now);
    assert UpdatedFrom(current, updates, now, step.result.value);
  }

  /** Changing only the status keeps every other visible field. */
  lemma StatusOnlyUpdate(s: Store, id: string, st: Status, now: int)
    requires Valid(s) && HasId(s.tasks, id)
    ensures var step := Update(s, id, TaskInput(Undefined, Undefined, Undefined, Str(StatusName(st))), now);
      var current := s.tasks[FindIndex(s.tasks, id).value];
      && step.result.Success?
      && step.result.value.title == current.title
      && step.result.value.description == current.description
      && step.result.value.priority == current.priority
      && step.result.value.status == st
      && step.result.value.createdAt == current.createdAt
      && step.result.value.updatedAt == now
  {
    var i := FindIndex(s.tasks, id).value;
    var current := s.tasks[i];
    var updates := TaskInput(Undefined, Undefined, Undefined, Str(StatusName(st)));
    assert ValidTask(current);
    StatusOnlyMergeValid(current, st);
    var step := Update(s, id, updates, now);
    assert UpdatedFrom(current, updates, now, step.result.value);
    TrimFixesTrimmed(current.title);
    NamesRoundTrip(current.priority, st);
  }

  lemma StatusOnlyMergeValid(current: Task, st: Status)
    requires ValidTask(current)
    ensures Validate(Merge(current, TaskInput(Undefined, Undefined, Undefined, Str(StatusName(st))))) == []
  {
    var m := Merge(current, TaskInput(Undefined, Undefined, Undefined, Str(StatusName(st))));
    TrimFixesTrimmed(current.title);
    assert m.title.text == current.title;
    NamesRoundTrip(current.priority, st);
    ValidIff(m);
  }

  /** A supplied title that trims to nothing is refused with "Title is
      required", and the stored task keeps its old title. */
  lemma BlankTitleUpdateRefused(s: Store, id: string, updates: TaskInput, now: int)
    requires HasId(s.tasks, id)
    requires !updates.title.Undefined? && Trim(StringOf(updates.title)) == ""
    ensures Update(s, id, updates, now) == Step(s, Failure(ValidationError(TitleRequired)))
  {
    var step := Update(s, id, updates, now);
    var i := FindIndex(s.tasks, id).value;
    var m := Merge(s.tasks[i], updates);
    var blank := StringOf(updates.title);
    assert m.title == Str(Trim(blank));
    assert Trim(Trim(blank)) == "" by { TrimIdempotent(blank); }
    var errors := Validate(m);
    assert TitleRequired in errors;
    FirstIssue(errors, TitleRequired);
    assert step.result == Failure(ValidationError(TitleRequired));
  }

  // ---------------------------------------------------------------------
  // Reading the store through the priority sort and the stats

  /** The collection as the sort and the stats see it: every slot present,
      every entry carrying its task's priority. */
  function Entries(tasks: seq<Task>): (r: seq<Option<Entry<Task>>>)
    ensures |r| == |tasks|
    ensures forall i :: 0 <= i < |tasks| ==> r[i] == Some(Entry(tasks[i], Some(tasks[i].priority)))
  {
    if |tasks| == 0 then []
    else [Some(Entry(tasks[0], Some(tasks[0].priority)))] + Entries(tasks[1..])
  }

  /** A store built by the operations holds no null or priority-less
      entries, so the sort keeps every task and the stats count them all. */
  lemma {:induction false} EntriesAllPresent(tasks: seq<Task>)
    ensures |Present(Entries(tasks))| == |tasks|
    ensures forall i :: 0 <= i < |tasks| ==> Present(Entries(tasks))[i].fields == tasks[i]
  {
    if |tasks| > 0 {
      var e := Entries(tasks);
      assert e[1..] == Entries(tasks[1..]);
      EntriesAllPresent(tasks[1..]);
    }
  }

  /** The sorted view of the store holds every stored task, and the three
      counts add up to the number of tasks. */
  lemma SortedViewComplete(s: Store)
    ensures |SortByPriority(Entries(s.tasks))| == |s.tasks|
    ensures |Bucket(Present(Entries(s.tasks)), High)| + |Bucket(Present(Entries(s.tasks)), Medium)|
      + |Bucket(Present(Entries(s.tasks)), Low)| == |s.tasks|
  {
    EntriesAllPresent(s.tasks);
    BucketsPartition(Present(Entries(s.tasks)));
  }
}

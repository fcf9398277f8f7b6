/** The task record and the loosely-typed input it is built from. */
module Tasks {
  import opened Wrappers

  datatype Priority = High | Medium | Low
  datatype Status = ToDo | InProgress | Done

  /** The enum text `createTask` stores for a priority. */
  function PriorityName(p: Priority): string {
    match p
    case High => "high"
    case Medium => "medium"
    case Low => "low"
  }

  function StatusName(s: Status): string {
    match s
    case ToDo => "to-do"
    case InProgress => "in-progress"
    case Done => "done"
  }

  /** Membership of a text in `["high", "medium", "low"]`, giving the matching
      enum value. */
  function ParsePriority(s: string): (r: Option<Priority>)
    ensures r.Some? <==> s == "high" || s == "medium" || s == "low"
    ensures r.Some? ==> PriorityName(r.value) == s
  {
    if s == "high" then Some(High)
    else if s == "medium" then Some(Medium)
    else if s == "low" then Some(Low)
    else None
  }

  /** Membership of a text in `["to-do", "in-progress", "done"]`. */
  function ParseStatus(s: string): (r: Option<Status>)
    ensures r.Some? <==> s == "to-do" || s == "in-progress" || s == "done"
    ensures r.Some? ==> StatusName(r.value) == s
  {
    if s == "to-do" then Some(ToDo)
    else if s == "in-progress" then Some(InProgress)
    else if s == "done" then Some(Done)
    else None
  }

  /** Parsing inverts naming, so the enum names are pairwise distinct. */
  lemma NamesRoundTrip(p: Priority, s: Status)
    ensures ParsePriority(PriorityName(p)) == Some(p)
    ensures ParseStatus(StatusName(s)) == Some(s)
  {
  }

  /** A property of a JavaScript object as the core reads it: missing, null,
      or a value already converted to its string form. */
  datatype JsValue = Undefined | Null | Str(text: string)

  /** `String(v)` for a present value, and `""` for null or undefined. */
  function StringOf(v: JsValue): string {
    match v
    case Str(s) => s
    case _ => ""
  }

  /** The enum a property names, if it is exactly one of the enum texts. */
  function PriorityOf(v: JsValue): (r: Option<Priority>)
    ensures r.Some? <==> v.Str? && ParsePriority(v.text).Some?
  {
    if v.Str? then ParsePriority(v.text) else None
  }

  function StatusOf(v: JsValue): (r: Option<Status>)
    ensures r.Some? <==> v.Str? && ParseStatus(v.text).Some?
  {
    if v.Str? then ParseStatus(v.text) else None
  }

  /** The object passed to `createTask`, the `updates` passed to `updateTask`,
      and the candidate `validateTask` checks. */
  datatype TaskInput = TaskInput(title: JsValue, description: JsValue, priority: JsValue, status: JsValue)

  /** A stored task; timestamps are clock readings in milliseconds. */
  datatype Task = Task(
    id: string,
    title: string,
    description: string,
    priority: Priority,
    status: Status,
    createdAt: int,
    updatedAt: int)
}

/** `validateTask`: the ordered list of problems with a candidate. */
module Validation {
  import opened Text
  import opened Tasks

  /** The four problems, declared in the order they are reported. */
  datatype Issue = TitleRequired | TitleTooLong | InvalidPriority | InvalidStatus {

    /** The message of the `Error` thrown for this problem. */
    function Message(): string {
      match this
      case TitleRequired => "Title is required"
      case TitleTooLong => "Title must be less than 100 characters"
      case InvalidPriority => "Invalid priority value"
      case InvalidStatus => "Invalid status value"
    }

    function Ordinal(): nat {
      match this
      case TitleRequired => 0
      case TitleTooLong => 1
      case InvalidPriority => 2
      case InvalidStatus => 3
    }
  }

  const MaxTitleLength := 100

  /** The problems with `c`, each at most once and in declaration order. The
      emptiness check looks at the trimmed title, the length check at the raw
      one, counted in UTF-16 code units as JavaScript's `length` does. */
  function Validate(c: TaskInput): (r: seq<Issue>)
    ensures TitleRequired in r <==> Trim(StringOf(c.title)) == ""
    ensures TitleTooLong in r <==> Utf16Length(StringOf(c.title)) > MaxTitleLength
    ensures InvalidPriority in r <==> PriorityOf(c.priority).None?
    ensures InvalidStatus in r <==> StatusOf(c.status).None?
    ensures InOrder(r)
  {
    var title := StringOf(c.title);
    var errors := Push([], title == "" || Trim(title) == "", TitleRequired);
    var errors := Push(errors, title != "" && Utf16Length(title) > MaxTitleLength, TitleTooLong);
    var errors := Push(errors, PriorityOf(c.priority).None?, InvalidPriority);
    Push(errors, StatusOf(c.status).None?, InvalidStatus)
  }

  /** Each problem at most once, in declaration order. */
  predicate InOrder(r: seq<Issue>) {
    forall i, j :: 0 <= i < j < |r| ==> r[i].Ordinal() < r[j].Ordinal()
  }

  /** `errors.push(issue)` when `holds`; the list stays in order because
      every problem already in it is declared before `issue`. */
  function Push(errors: seq<Issue>, holds: bool, issue: Issue): (r: seq<Issue>)
    requires InOrder(errors)
    requires forall x :: x in errors ==> x.Ordinal() < issue.Ordinal()
    ensures InOrder(r)
    ensures forall x :: x in r <==> x in errors || (holds && x == issue)
    ensures forall x :: x in r ==> x.Ordinal() <= issue.Ordinal()
  {
    if holds then errors + [issue] else errors
  }

  /** A candidate passes validation exactly when every field is acceptable. */
  lemma ValidIff(c: TaskInput)
    ensures Validate(c) == [] <==>
      && Trim(StringOf(c.title)) != ""
      && Utf16Length(StringOf(c.title)) <= MaxTitleLength
      && PriorityOf(c.priority).Some?
      && StatusOf(c.status).Some?
  {
    var r := Validate(c);
    if r != [] {
      assert r[0] in r;
    }
  }

  /** A title of exactly 100 UTF-16 code units passes the length check;
      101 does not. For a title without characters beyond the Basic
      Multilingual Plane that is 100 and 101 characters. */
  lemma LengthBoundary(c: TaskInput)
    requires c.title.Str?
    ensures Utf16Length(c.title.text) == 100 ==> TitleTooLong !in Validate(c)
    ensures Utf16Length(c.title.text) == 101 ==> TitleTooLong in Validate(c)
    ensures (forall i :: 0 <= i < |c.title.text| ==> c.title.text[i] as int <= 0xFFFF) ==>
      (TitleTooLong in Validate(c) <==> |c.title.text| > 100)
  {
    if forall i :: 0 <= i < |c.title.text| ==> c.title.text[i] as int <= 0xFFFF {
      Utf16Bmp(c.title.text);
    }
  }

  /** A title of 51 or more characters beyond the Basic Multilingual Plane
      (emoji, say) is too long, since each takes two code units. */
  lemma AstralTitleTooLong(c: TaskInput)
    requires c.title.Str? && |c.title.text| > MaxTitleLength / 2
    requires forall i :: 0 <= i < |c.title.text| ==> c.title.text[i] as int > 0xFFFF
    ensures TitleTooLong in Validate(c)
  {
    Utf16Astral(c.title.text);
  }

  /** An all-whitespace title longer than 100 code units draws both title
      problems, and the one a caller sees first is "Title is required". */
  lemma BlankLongTitle(c: TaskInput)
    requires c.title.Str? && AllWhitespace(c.title.text) && Utf16Length(c.title.text) > MaxTitleLength
    ensures TitleTooLong in Validate(c)
    ensures Validate(c)[0] == TitleRequired
  {
    var t := c.title.text;
    TrimEmptyIff(t);
    assert Trim(t) == "";
    assert StringOf(c.title) == t;
    var r := Validate(c);
    assert TitleRequired in r;
    FirstIssue(r, TitleRequired);
  }

  /** In an ordered list, a problem that nothing before it in declaration
      order accompanies is the first one reported. */
  lemma FirstIssue(r: seq<Issue>, x: Issue)
    requires InOrder(r) && x in r
    requires forall y :: y in r ==> x.Ordinal() <= y.Ordinal()
    ensures r[0] == x
  {
    var k :| 0 <= k < |r| && r[k] == x;
    if k > 0 {
      assert r[0] in r;
    }
  }
}

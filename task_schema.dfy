/** The server's task schema (backend/src/models/Task.js): required fields,
    trimmed text, enumerated status and priority with defaults, and creation
    timestamps, as one validate-and-normalise function. Persistence, id
    generation and the clock are parameters. */
module TaskSchema {
  import opened Wrappers
  import opened Types
  import TaskApi
  import TaskForm

  /** The white space and line terminators that JavaScript's `String.prototype.trim` removes. */
  predicate IsSpace(c: char) {
    || c == '\t' || c == '\n' || c == '\U{000B}' || c == '\U{000C}' || c == '\r' || c == ' '
    || c == '\U{00A0}' || c == '\U{1680}' || ('\U{2000}' <= c <= '\U{200A}')
    || c == '\U{2028}' || c == '\U{2029}' || c == '\U{202F}' || c == '\U{205F}'
    || c == '\U{3000}' || c == '\U{FEFF}'
  }

  /** Positions `lo` up to `hi` of the text are all white space. */
  predicate SpaceBetween(s: string, lo: int, hi: int) {
    0 <= lo <= hi <= |s| && forall k :: lo <= k < hi ==> IsSpace(s[k])
  }

  /** Scanning forward from `i`: the first position that is not white space,
      or the end of the text. */
  function SkipForward(s: string, i: nat): (r: nat)
    requires i <= |s|
    ensures i <= r <= |s|
    ensures r == |s| || !IsSpace(s[r])
    decreases |s| - i
  {
    if i < |s| && IsSpace(s[i]) then SkipForward(s, i + 1) else i
  }

  /** Everything `SkipForward` passes over is white space. */
  lemma {:induction false} SkipForwardPassesSpace(s: string, i: nat)
    requires i <= |s|
    ensures SpaceBetween(s, i, SkipForward(s, i))
    decreases |s| - i
  {
    if i < |s| && IsSpace(s[i]) {
      SkipForwardPassesSpace(s, i + 1);
    }
  }

  /** Scanning backward from `j`, no further than `lo`: the position just
      after the last character that is not white space, or `lo`. */
  function SkipBackward(s: string, lo: nat, j: nat): (r: nat)
    requires lo <= j <= |s|
    ensures lo <= r <= j
    ensures r == lo || !IsSpace(s[r - 1])
    decreases j
  {
    if lo < j && IsSpace(s[j - 1]) then SkipBackward(s, lo, j - 1) else j
  }

  /** Everything `SkipBackward` passes over is white space. */
  lemma {:induction false} SkipBackwardPassesSpace(s: string, lo: nat, j: nat)
    requires lo <= j <= |s|
    ensures SpaceBetween(s, SkipBackward(s, lo, j), j)
    decreases j
  {
    if lo < j && IsSpace(s[j - 1]) {
      SkipBackwardPassesSpace(s, lo, j - 1);
    }
  }

  /** `r` is the slice of `s` starting at `i`, with only white space around it. */
  predicate SliceWithin(r: string, s: string, i: nat) {
    && i + |r| <= |s| && r == s[i..i + |r|]
    && SpaceBetween(s, 0, i)
    && SpaceBetween(s, i + |r|, |s|)
  }

  /** Neither end of the text is white space. */
  predicate Trimmed(s: string) {
    s == [] || (!IsSpace(s[0]) && !IsSpace(s[|s| - 1]))
  }

  /** `trim: true`: the text with leading and trailing white space removed. */
  function Trim(s: string): (r: string)
    ensures Trimmed(r)
    ensures SliceWithin(r, s, SkipForward(s, 0))
  {
    var a := SkipForward(s, 0);
    var b := SkipBackward(s, a, |s|);
    SkipForwardPassesSpace(s, 0);
    SkipBackwardPassesSpace(s, a, |s|);
    assert a < b ==> s[a..b][0] == s[a] && s[a..b][b - a - 1] == s[b - 1];
    s[a..b]
  }

  /** Trimming twice is trimming once. */
  lemma TrimIdempotent(s: string)
    ensures Trim(Trim(s)) == Trim(s)
  {
    var r := Trim(s);
    assert SkipForward(r, 0) == 0;
    assert SkipBackward(r, 0, |r|) == |r|;
    assert r[0..|r|] == r;
  }

  /** A text trims to nothing exactly when it is all white space. */
  lemma {:induction false} TrimEmptyIffAllSpace(s: string)
    ensures Trim(s) == [] <==> forall k :: 0 <= k < |s| ==> IsSpace(s[k])
  {
    var r := Trim(s);
    if r != [] {
      assert r[0] == s[SkipForward(s, 0)];
    }
  }

  /** A document as submitted: each path present or omitted (`undefined`). */
  datatype TaskInput = TaskInput(
    title: Option<string>,
    description: Option<string>,
    status: Option<string>,
    priority: Option<string>,
    userId: Option<string>)

  datatype Field = TitleField | DescriptionField | StatusField | PriorityField | UserIdField

  datatype SchemaError = Required(field: Field) | NotInEnum(field: Field, value: string)

  function TrimOpt(s: Option<string>): Option<string> {
    match s
    case Some(v) => Some(Trim(v))
    case None => None
  }

  /** The casting step: text trimmed, omitted enums given their defaults. */
  function Normalize(input: TaskInput): (n: TaskInput)
    ensures n.title.Some? <==> input.title.Some?
    ensures n.description.Some? <==> input.description.Some?
    ensures input.title.Some? ==> n.title.value == Trim(input.title.value)
    ensures input.description.Some? ==> n.description.value == Trim(input.description.value)
    ensures n.status.Some? && n.priority.Some?
    ensures input.status.None? ==> n.status == Some("incomplete")
    ensures input.priority.None? ==> n.priority == Some("Medium")
    ensures input.status.Some? ==> n.status == input.status
    ensures input.priority.Some? ==> n.priority == input.priority
    ensures n.userId == input.userId
  {
    TaskInput(
      TrimOpt(input.title),
      TrimOpt(input.description),
      Some(input.status.GetOr("incomplete")),
      Some(input.priority.GetOr("Medium")),
      input.userId)
  }

  /** Normalising a normalised document changes nothing. */
  lemma NormalizeIdempotent(input: TaskInput)
    ensures Normalize(Normalize(input)) == Normalize(input)
  {
    if input.title.Some? { TrimIdempotent(input.title.value); }
    if input.description.Some? { TrimIdempotent(input.description.value); }
  }

  /** A required string path fails on an absent or empty value. */
  predicate Missing(s: Option<string>) {
    s.None? || s.value == ""
  }

  /** Validation of a normalised document, every failing path in schema order. */
  function Errors(n: TaskInput): (errs: seq<SchemaError>)
    ensures Required(TitleField) in errs <==> Missing(n.title)
    ensures Required(DescriptionField) in errs <==> Missing(n.description)
    ensures Required(UserIdField) in errs <==> n.userId.None?
    ensures (exists v :: NotInEnum(StatusField, v) in errs) <==> n.status.Some? && ParseStatus(n.status.value).None?
    ensures (exists v :: NotInEnum(PriorityField, v) in errs) <==> n.priority.Some? && ParsePriority(n.priority.value).None?
    ensures forall e :: e in errs ==>
              || e == Required(TitleField) || e == Required(DescriptionField) || e == Required(UserIdField)
              || (n.status.Some? && e == NotInEnum(StatusField, n.status.value))
              || (n.priority.Some? && e == NotInEnum(PriorityField, n.priority.value))
    ensures errs == [] <==>
              && !Missing(n.title) && !Missing(n.description) && n.userId.Some?
              && (n.status.None? || ParseStatus(n.status.value).Some?)
              && (n.priority.None? || ParsePriority(n.priority.value).Some?)
  {
    var title := if Missing(n.title) then [Required(TitleField)] else [];
    var description := if Missing(n.description) then [Required(DescriptionField)] else [];
    var status := if n.status.Some? && ParseStatus(n.status.value).None? then [NotInEnum(StatusField, n.status.value)] else [];
    var priority := if n.priority.Some? && ParsePriority(n.priority.value).None? then [NotInEnum(PriorityField, n.priority.value)] else [];
    var userId := if n.userId.None? then [Required(UserIdField)] else [];
    var errs := title + description + status + priority + userId;
    assert forall e :: e in errs <==> e in title || e in description || e in status || e in priority || e in userId;
    errs
  }

  /** A text path passes `required` after trimming. */
  predicate TextPresent(s: Option<string>) {
    s.Some? && Trim(s.value) != ""
  }

  /** Saving a new document: normalise, validate, then stamp it with the
      store's fresh id and both timestamps set to the same instant. */
  function Create(input: TaskInput, id: string, now: string): (r: Result<Task, seq<SchemaError>>)
    ensures r.Ok? <==>
              && TextPresent(input.title) && TextPresent(input.description)
              && (input.status.None? || ParseStatus(input.status.value).Some?)
              && (input.priority.None? || ParsePriority(input.priority.value).Some?)
              && input.userId.Some?
    ensures r.Err? ==> r.error != [] && r.error == Errors(Normalize(input))
    ensures r.Ok? ==> r.value.title == Trim(input.title.value) && r.value.description == Trim(input.description.value)
    ensures r.Ok? ==> r.value.title != "" && Trimmed(r.value.title)
    ensures r.Ok? ==> r.value.description != "" && Trimmed(r.value.description)
    ensures r.Ok? ==> r.value.status == (if input.status.None? then Incomplete else ParseStatus(input.status.value).value)
    ensures r.Ok? ==> r.value.priority == (if input.priority.None? then Medium else ParsePriority(input.priority.value).value)
    ensures r.Ok? ==> r.value.userId == input.userId.value && r.value.id == id
    ensures r.Ok? ==> r.value.createdAt == now && r.value.updatedAt == now
  {
    var n := Normalize(input);
    assert TextPresent(input.title) <==> !Missing(n.title);
    assert TextPresent(input.description) <==> !Missing(n.description);
    var errs := Errors(n);
    if errs != [] then Err(errs)
    else
      Ok(Task(id, n.title.value, n.description.value, ParseStatus(n.status.value).value,
              ParsePriority(n.priority.value).value, now, now, n.userId.value))
  }

  /** A title the client form accepts can still be refused here: any title of
      3 to 50 white-space characters passes the form's length rule but trims
      to nothing. */
  lemma BlankTitlePassesLengthButNotSchema(title: string)
    requires 3 <= |title| <= 50
    requires forall k :: 0 <= k < |title| ==> IsSpace(title[k])
    ensures TaskForm.TitleValid(title)
    ensures !TextPresent(Some(title))
  {
    TrimEmptyIffAllSpace(title);
  }

  /** The document a creation request's body describes, owned by `userId`. */
  function InputOf(p: TaskApi.TaskPayload, userId: string): TaskInput {
    TaskInput(Some(p.title), Some(p.description), Some(StatusName(p.status)), Some(PriorityName(p.priority)), Some(userId))
  }

  /** A task created from the client's payload is accepted exactly when its
      title and description are not blank, and is then `incomplete`, keeps
      the chosen priority and has equal timestamps. */
  lemma ClientCreation(task: NewTask, userId: string, id: string, now: string)
    ensures var r := Create(InputOf(TaskApi.CreatePayload(task), userId), id, now);
            && (r.Ok? <==> Trim(task.title) != "" && Trim(task.description) != "")
            && (r.Ok? ==> r.value.status == Incomplete && r.value.priority == task.priority)
            && (r.Ok? ==> r.value.createdAt == r.value.updatedAt && r.value.userId == userId)
  {
    NamesRoundTrip(Incomplete, task.priority);
  }
}

/** The client's task service (src/services/taskApi.ts): the request each
    operation sends and the translation of the server's answer into a value
    or the message of the thrown Error. The HTTP exchange itself is a
    parameter: `Reply` is what the server answered. */
module TaskApi {
  import opened Wrappers
  import opened Types

  datatype Operation = FetchTasks | CreateTask | UpdateTask | DeleteTask

  /** What came back from the HTTP call: a 2xx response body, or a rejection
      carrying the `error` field of the response body when there was one. */
  datatype Reply<+T> = Response(data: T) | Rejected(serverError: Option<string>)

  /** A partial task, as `Partial<Task>` restricted to the editable fields. */
  datatype TaskPatch = TaskPatch(
    title: Option<string>,
    description: Option<string>,
    status: Option<Status>,
    priority: Option<Priority>)

  /** The patch that sets the status and nothing else. */
  function StatusPatch(s: Status): TaskPatch {
    TaskPatch(None, None, Some(s), None)
  }

  /** The body of a creation request. */
  datatype TaskPayload = TaskPayload(title: string, description: string, priority: Priority, status: Status)

  datatype Verb = Get | Post | Patch | Delete
  datatype Body = NoBody | PayloadBody(payload: TaskPayload) | PatchBody(patch: TaskPatch)
  datatype Request = Request(verb: Verb, path: string, body: Body)

  const TasksPath: string := "/api/tasks"

  /** The message each operation throws when the server gave no usable `error`. */
  function Fallback(op: Operation): (m: string)
    ensures m != ""
  {
    match op
    case FetchTasks => "Failed to fetch tasks"
    case CreateTask => "Failed to create task"
    case UpdateTask => "Failed to update task"
    case DeleteTask => "Failed to delete task"
  }

  /** `error.response?.data?.error || fallback`: an absent or empty server
      message falls back to the operation's fixed string. */
  function ErrorMessage(op: Operation, serverError: Option<string>): (m: string)
    ensures serverError.Some? && serverError.value != "" ==> m == serverError.value
    ensures serverError.None? || serverError.value == "" ==> m == Fallback(op)
    ensures m != ""
  {
    match serverError
    case Some(e) => if e != "" then e else Fallback(op)
    case None => Fallback(op)
  }

  /** The awaited result of an operation: the response body unchanged, or an
      Error with the translated message. */
  function Outcome<T>(op: Operation, reply: Reply<T>): (r: Result<T, string>)
    ensures reply.Response? <==> r.Ok?
    ensures reply.Response? ==> r.value == reply.data
    ensures reply.Rejected? ==> r.error == ErrorMessage(op, reply.serverError)
  {
    match reply
    case Response(data) => Ok(data)
    case Rejected(e) => Err(ErrorMessage(op, e))
  }

  /** The path of one task. */
  function TaskPath(taskId: string): (p: string)
    ensures |p| == |TasksPath| + 1 + |taskId|
    ensures p[..|TasksPath| + 1] == TasksPath + "/"
    ensures p[|TasksPath| + 1..] == taskId
  {
    TasksPath + "/" + taskId
  }

  /** Reading the id back from a task path. */
  function TaskIdOfPath(p: string): (r: Option<string>)
    ensures r.Some? ==> TaskPath(r.value) == p
  {
    var prefix := TasksPath + "/";
    if |prefix| <= |p| && p[..|prefix|] == prefix then Some(p[|prefix|..]) else None
  }

  lemma {:induction false} TaskPathRoundTrip(taskId: string)
    ensures TaskIdOfPath(TaskPath(taskId)) == Some(taskId)
  {
    var p := TaskPath(taskId);
    assert p[..|TasksPath| + 1] == TasksPath + "/";
  }

  /** Distinct ids address distinct paths. */
  lemma TaskPathInjective(a: string, b: string)
    requires TaskPath(a) == TaskPath(b)
    ensures a == b
  {
    TaskPathRoundTrip(a);
    TaskPathRoundTrip(b);
  }

  /** The creation body: the form's fields with the status forced to `incomplete`. */
  function CreatePayload(task: NewTask): (p: TaskPayload)
    ensures p.status == Incomplete
    ensures NewTask(p.title, p.description, p.priority) == task
  {
    TaskPayload(task.title, task.description, task.priority, Incomplete)
  }

  function GetTasksRequest(): (q: Request)
    ensures q.verb == Get && q.path == TasksPath && q.body == NoBody
  {
    Request(Get, TasksPath, NoBody)
  }

  function CreateTaskRequest(task: NewTask): (q: Request)
    ensures q.verb == Post && q.path == TasksPath
    ensures q.body.PayloadBody? && q.body.payload.status == Incomplete
    ensures q.body.payload == CreatePayload(task)
  {
    Request(Post, TasksPath, PayloadBody(CreatePayload(task)))
  }

  /** The update sends exactly the given patch to the task's path. */
  function UpdateTaskRequest(taskId: string, updates: TaskPatch): (q: Request)
    ensures q.verb == Patch && q.body == PatchBody(updates)
    ensures TaskIdOfPath(q.path) == Some(taskId)
  {
    TaskPathRoundTrip(taskId);
    Request(Patch, TaskPath(taskId), PatchBody(updates))
  }

  function DeleteTaskRequest(taskId: string): (q: Request)
    ensures q.verb == Delete && q.body == NoBody
    ensures TaskIdOfPath(q.path) == Some(taskId)
  {
    TaskPathRoundTrip(taskId);
    Request(Delete, TaskPath(taskId), NoBody)
  }
}

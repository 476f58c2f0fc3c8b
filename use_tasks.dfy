/** The client task state manager (src/hooks/useTasks.ts): the list of the
    signed-in user's tasks and the view filter, changed only after the server
    confirms an operation. */
module UseTasks {
  import opened Wrappers
  import opened Types
  import opened TaskApi

  /** `a` is `b` with some entries dropped, order kept. */
  predicate IsSubsequence<T(==)>(a: seq<T>, b: seq<T>)
    decreases |b|
  {
    if a == [] then true
    else if b == [] then false
    else if a[0] == b[0] then IsSubsequence(a[1..], b[1..])
    else IsSubsequence(a, b[1..])
  }

  /** `tasks.filter(task => task.status === s)` */
  function Select(tasks: seq<Task>, s: Status): (r: seq<Task>)
    ensures |r| <= |tasks|
    ensures forall t :: t in r <==> t in tasks && t.status == s
  {
    if tasks == [] then []
    else (if tasks[0].status == s then [tasks[0]] else []) + Select(tasks[1..], s)
  }

  /** Whether a task with this status passes the filter. */
  predicate Shows(f: Filter, s: Status) {
    match f
    case All => true
    case Active => s == Incomplete
    case Completed => s == Complete
  }

  /** The `filteredTasks` derivation. */
  function FilterTasks(tasks: seq<Task>, f: Filter): (r: seq<Task>)
    ensures f == All ==> r == tasks
    ensures forall t :: t in r <==> t in tasks && Shows(f, t.status)
  {
    match f
    case All => tasks
    case Active => Select(tasks, Incomplete)
    case Completed => Select(tasks, Complete)
  }

  /** `tasks.find(t => t._id === taskId)`: the first task with that id. */
  function FindById(tasks: seq<Task>, taskId: string): (r: Option<Task>)
    ensures r.None? <==> forall t :: t in tasks ==> t.id != taskId
    ensures r.Some? ==> r.value in tasks && r.value.id == taskId
  {
    if tasks == [] then None
    else if tasks[0].id == taskId then Some(tasks[0])
    else FindById(tasks[1..], taskId)
  }

  /** Entry `i` is the first one carrying `taskId`. */
  predicate IsFirstWithId(tasks: seq<Task>, i: int, taskId: string) {
    0 <= i < |tasks| && tasks[i].id == taskId && forall j :: 0 <= j < i ==> tasks[j].id != taskId
  }

  /** The task found is the first one with that id. */
  lemma {:induction false} FindByIdIsFirst(tasks: seq<Task>, taskId: string, i: nat)
    requires IsFirstWithId(tasks, i, taskId)
    ensures FindById(tasks, taskId) == Some(tasks[i])
  {
    if i > 0 {
      assert tasks[0].id != taskId;
      assert IsFirstWithId(tasks[1..], i - 1, taskId);
      FindByIdIsFirst(tasks[1..], taskId, i - 1);
    }
  }

  /** `prev.map(task => task._id === taskId ? updated : task)` */
  function ReplaceById(tasks: seq<Task>, taskId: string, updated: Task): (r: seq<Task>)
    ensures |r| == |tasks|
    ensures forall i :: 0 <= i < |tasks| ==> r[i] == if tasks[i].id == taskId then updated else tasks[i]
  {
    if tasks == [] then []
    else [if tasks[0].id == taskId then updated else tasks[0]] + ReplaceById(tasks[1..], taskId, updated)
  }

  /** `prev.filter(task => task._id !== taskId)` */
  function RemoveById(tasks: seq<Task>, taskId: string): (r: seq<Task>)
    ensures |r| <= |tasks|
    ensures forall t :: t in r <==> t in tasks && t.id != taskId
  {
    if tasks == [] then []
    else (if tasks[0].id != taskId then [tasks[0]] else []) + RemoveById(tasks[1..], taskId)
  }

  /** No two tasks share an id, as the server's ids guarantee. */
  predicate UniqueIds(tasks: seq<Task>) {
    forall i, j :: 0 <= i < j < |tasks| ==> tasks[i].id != tasks[j].id
  }

  /** How many tasks carry this id. */
  function CountId(tasks: seq<Task>, taskId: string): nat {
    if tasks == [] then 0
    else (if tasks[0].id == taskId then 1 else 0) + CountId(tasks[1..], taskId)
  }

  /** The component's state: the tasks as last confirmed by the server, and the filter. */
  class TaskStore {
    var tasks: seq<Task>
    var filter: Filter

    /** Before the first fetch: no tasks, filter `all`. */
    constructor ()
      ensures tasks == [] && filter == All
    {
      tasks := [];
      filter := All;
    }

    /** The `tasks` value the hook hands out: the filtered view. */
    function Visible(): (r: seq<Task>)
      reads this
      ensures r == FilterTasks(tasks, filter)
      ensures IsSubsequence(r, tasks)
      ensures forall t :: t in r <==> t in tasks && Shows(filter, t.status)
    {
      FilterVisibleIsSubsequence(tasks, filter);
      FilterTasks(tasks, filter)
    }

    method SetFilter(f: Filter)
      modifies this
      ensures filter == f && tasks == old(tasks)
    {
      filter := f;
    }

    /** `fetchTasks`: a successful fetch replaces the list wholesale; an error
        is logged and swallowed, leaving the list as it was. */
    method FetchTasks(reply: Reply<seq<Task>>) returns (sent: Request)
      modifies this
      ensures sent == GetTasksRequest()
      ensures filter == old(filter)
      ensures tasks == if reply.Response? then reply.data else old(tasks)
    {
      sent := GetTasksRequest();
      var r := Outcome(TaskApi.FetchTasks, reply);
      if r.Ok? {
        tasks := r.value;
      }
    }

    /** The hook's effect: the list is fetched only when the token is non-empty. */
    method OnToken(token: string, reply: Reply<seq<Task>>) returns (sent: Option<Request>)
      modifies this
      ensures sent.Some? <==> token != ""
      ensures sent.Some? ==> sent.value == GetTasksRequest()
      ensures filter == old(filter)
      ensures tasks == if sent.Some? && reply.Response? then reply.data else old(tasks)
    {
      sent := None;
      if token != "" {
        var request := FetchTasks(reply);
        sent := Some(request);
      }
    }

    /** `addTask`: append the created task on success and return it; on failure
        rethrow and keep the list. */
    method AddTask(data: NewTask, reply: Reply<Task>) returns (sent: Request, r: Result<Task, string>)
      modifies this
      ensures sent == CreateTaskRequest(data)
      ensures r == Outcome(CreateTask, reply)
      ensures filter == old(filter)
      ensures tasks == if r.Ok? then old(tasks) + [r.value] else old(tasks)
    {
      sent := CreateTaskRequest(data);
      r := Outcome(CreateTask, reply);
      if r.Ok? {
        tasks := tasks + [r.value];
      }
    }

    /** `updateTask`: replace every entry with that id by the returned task on
        success; on failure rethrow and keep the list. */
    method UpdateTask(taskId: string, updates: TaskPatch, reply: Reply<Task>) returns (sent: Request, r: Result<Task, string>)
      modifies this
      ensures sent == UpdateTaskRequest(taskId, updates)
      ensures r == Outcome(TaskApi.UpdateTask, reply)
      ensures filter == old(filter)
      ensures tasks == if r.Ok? then ReplaceById(old(tasks), taskId, r.value) else old(tasks)
    {
      sent := UpdateTaskRequest(taskId, updates);
      r := Outcome(TaskApi.UpdateTask, reply);
      if r.Ok? {
        tasks := ReplaceById(tasks, taskId, r.value);
      }
    }

    /** `deleteTask`: drop every entry with that id on success; on failure
        rethrow and keep the list. */
    method DeleteTask(taskId: string, reply: Reply<()>) returns (sent: Request, r: Result<(), string>)
      modifies this
      ensures sent == DeleteTaskRequest(taskId)
      ensures r == Outcome(TaskApi.DeleteTask, reply)
      ensures filter == old(filter)
      ensures tasks == if r.Ok? then RemoveById(old(tasks), taskId) else old(tasks)
    {
      sent := DeleteTaskRequest(taskId);
      r := Outcome(TaskApi.DeleteTask, reply);
      if r.Ok? {
        tasks := RemoveById(tasks, taskId);
      }
    }
  }

  // ---- Properties of the list operations ----

  lemma {:induction false} SelectIsSubsequence(tasks: seq<Task>, s: Status)
    ensures IsSubsequence(Select(tasks, s), tasks)
  {
    if tasks != [] {
      SelectIsSubsequence(tasks[1..], s);
      var rest := Select(tasks[1..], s);
      if tasks[0].status != s {
        // the head is skipped: it cannot match the view's first entry
        assert Select(tasks, s) == rest;
        assert rest != [] ==> rest[0] in rest && rest[0] != tasks[0];
      } else {
        assert Select(tasks, s) == [tasks[0]] + rest;
        assert ([tasks[0]] + rest)[1..] == rest;
      }
    }
  }

  lemma FilterVisibleIsSubsequence(tasks: seq<Task>, f: Filter)
    ensures IsSubsequence(FilterTasks(tasks, f), tasks)
  {
    match f
    case All => SubsequenceRefl(tasks);
    case Active => SelectIsSubsequence(tasks, Incomplete);
    case Completed => SelectIsSubsequence(tasks, Complete);
  }

  lemma {:induction false} SubsequenceRefl<T>(s: seq<T>)
    ensures IsSubsequence(s, s)
  {
    if s != [] {
      SubsequenceRefl(s[1..]);
    }
  }

  /** `active` and `completed` split the list: every task lands in exactly one. */
  lemma {:induction false} ActiveCompletedPartition(tasks: seq<Task>)
    ensures |FilterTasks(tasks, Active)| + |FilterTasks(tasks, Completed)| == |tasks|
    ensures multiset(FilterTasks(tasks, Active)) + multiset(FilterTasks(tasks, Completed)) == multiset(tasks)
    ensures forall t :: t in FilterTasks(tasks, Active) ==> t !in FilterTasks(tasks, Completed)
  {
    SelectPartition(tasks);
  }

  lemma {:induction false} SelectPartition(tasks: seq<Task>)
    ensures multiset(Select(tasks, Incomplete)) + multiset(Select(tasks, Complete)) == multiset(tasks)
    ensures |Select(tasks, Incomplete)| + |Select(tasks, Complete)| == |tasks|
  {
    if tasks != [] {
      SelectPartition(tasks[1..]);
      assert tasks == [tasks[0]] + tasks[1..];
    }
  }

  /** Filtering distributes over concatenation, so the view keeps the list's order. */
  lemma {:induction false} SelectAppend(a: seq<Task>, b: seq<Task>, s: Status)
    ensures Select(a + b, s) == Select(a, s) + Select(b, s)
  {
    if a != [] {
      assert (a + b)[1..] == a[1..] + b;
      SelectAppend(a[1..], b, s);
    } else {
      assert a + b == b;
    }
  }

  /** Replacing an id that no entry has leaves the list unchanged. */
  lemma ReplaceAbsentIsIdentity(tasks: seq<Task>, taskId: string, updated: Task)
    requires forall t :: t in tasks ==> t.id != taskId
    ensures ReplaceById(tasks, taskId, updated) == tasks
  {
    var r := ReplaceById(tasks, taskId, updated);
    forall i | 0 <= i < |tasks| ensures r[i] == tasks[i] {
      assert tasks[i] in tasks;
    }
  }

  /** With unique ids, a confirmed update leaves ids unique and exactly one
      entry with that id, the returned task. */
  lemma ReplaceKeepsUniqueIds(tasks: seq<Task>, taskId: string, updated: Task)
    requires UniqueIds(tasks)
    requires updated.id == taskId
    ensures UniqueIds(ReplaceById(tasks, taskId, updated))
    ensures forall t :: t in ReplaceById(tasks, taskId, updated) && t.id == taskId ==> t == updated
  {
    var r := ReplaceById(tasks, taskId, updated);
    forall i, j | 0 <= i < j < |r| ensures r[i].id != r[j].id {
      assert tasks[i].id != tasks[j].id;
    }
  }

  /** Removal keeps the other tasks in their original order. */
  lemma {:induction false} RemoveIsSubsequence(tasks: seq<Task>, taskId: string)
    ensures IsSubsequence(RemoveById(tasks, taskId), tasks)
  {
    if tasks != [] {
      RemoveIsSubsequence(tasks[1..], taskId);
      var rest := RemoveById(tasks[1..], taskId);
      if tasks[0].id == taskId {
        assert RemoveById(tasks, taskId) == rest;
        assert rest != [] ==> rest[0] in rest && rest[0] != tasks[0];
      } else {
        assert RemoveById(tasks, taskId) == [tasks[0]] + rest;
        assert ([tasks[0]] + rest)[1..] == rest;
      }
    }
  }

  /** Removal drops exactly the entries with that id. */
  lemma {:induction false} RemoveCount(tasks: seq<Task>, taskId: string)
    ensures |RemoveById(tasks, taskId)| == |tasks| - CountId(tasks, taskId)
  {
    if tasks != [] {
      RemoveCount(tasks[1..], taskId);
    }
  }

  /** Removing an id that no entry has leaves the list unchanged. */
  lemma {:induction false} RemoveAbsentIsIdentity(tasks: seq<Task>, taskId: string)
    requires forall t :: t in tasks ==> t.id != taskId
    ensures RemoveById(tasks, taskId) == tasks
  {
    if tasks != [] {
      assert tasks[0] in tasks;
      assert forall t :: t in tasks[1..] ==> t in tasks;
      RemoveAbsentIsIdentity(tasks[1..], taskId);
      assert tasks == [tasks[0]] + tasks[1..];
    }
  }
}

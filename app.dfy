/** The application shell (src/App.tsx): the toggle and delete handlers it
    passes to the board, wired to the task state manager. */
module App {
  import opened Wrappers
  import opened Types
  import opened TaskApi
  import opened UseTasks
  import opened TaskBoard

  /** `user?.token || ''`: the token handed to the task hook. */
  function TokenOf(user: Option<User>): (token: string)
    ensures token != "" <==> user.Some? && user.value.token != ""
    ensures token != "" ==> token == user.value.token
  {
    match user
    case Some(u) => u.token
    case None => ""
  }

  /** The update `handleToggleStatus` sends: none on a miss, otherwise only
      the status, set to the opposite of the first matching task's. */
  function ToggleRequest(visible: seq<Task>, taskId: string): (r: Option<TaskPatch>)
    ensures r.None? <==> forall t :: t in visible ==> t.id != taskId
    ensures r.Some? ==> r.value.title.None? && r.value.description.None? && r.value.priority.None?
    ensures r.Some? ==> forall i :: IsFirstWithId(visible, i, taskId) ==>
                          r.value.status == Some(Opposite(visible[i].status))
  {
    match FindById(visible, taskId)
    case None => None
    case Some(task) =>
      assert forall i :: IsFirstWithId(visible, i, taskId) ==> visible[i] == task by {
        forall i | IsFirstWithId(visible, i, taskId) ensures visible[i] == task {
          FindByIdIsFirst(visible, taskId, i);
        }
      }
      Some(StatusPatch(Opposite(task.status)))
  }

  /** `handleToggleStatus`, looking the task up in the filtered view the hook
      hands out; an update failure is logged and swallowed. */
  method HandleToggleStatus(store: TaskStore, taskId: string, reply: Reply<Task>) returns (sent: Option<TaskPatch>)
    modifies store
    ensures sent == ToggleRequest(old(store.Visible()), taskId)
    ensures store.filter == old(store.filter)
    ensures store.tasks == if sent.Some? && reply.Response? then ReplaceById(old(store.tasks), taskId, reply.data)
                           else old(store.tasks)
  {
    sent := ToggleRequest(store.Visible(), taskId);
    if sent.Some? {
      var _, _ := store.UpdateTask(taskId, sent.value, reply);
    }
  }

  /** `handleDelete`: an empty id is refused before any call; a deletion
      failure is logged and swallowed. */
  method HandleDelete(store: TaskStore, taskId: string, reply: Reply<()>) returns (called: bool)
    modifies store
    ensures called <==> taskId != ""
    ensures store.filter == old(store.filter)
    ensures store.tasks == if called && reply.Response? then RemoveById(old(store.tasks), taskId)
                           else old(store.tasks)
  {
    called := taskId != "";
    if called {
      var _, _ := store.DeleteTask(taskId, reply);
    }
  }

  /** A drop on the board, which shows the hook's filtered view: the board's
      decision, then the toggle handler. */
  method HandleDrop(store: TaskStore, drop: DropResult, reply: Reply<Task>) returns (sent: Option<TaskPatch>)
    modifies store
    ensures DragEnd(old(store.Visible()), drop).None? ==> sent.None? && store.tasks == old(store.tasks)
    ensures DragEnd(old(store.Visible()), drop).Some? ==> sent == ToggleRequest(old(store.Visible()), drop.draggableId)
    ensures DragEnd(old(store.Visible()), drop).Some? ==> sent.Some?
    ensures DragEnd(old(store.Visible()), drop).Some? ==>
              store.tasks == if reply.Response? then ReplaceById(old(store.tasks), drop.draggableId, reply.data)
                             else old(store.tasks)
    ensures store.filter == old(store.filter)
  {
    var toggle := DragEnd(store.Visible(), drop);
    sent := None;
    if toggle.Some? {
      DragToggleIsNeverAMiss(store.Visible(), drop);
      sent := HandleToggleStatus(store, toggle.value, reply);
    }
  }

  // ---- Properties ----

  /** The board only toggles tasks the toggle handler will find. */
  lemma DragToggleIsNeverAMiss(tasks: seq<Task>, drop: DropResult)
    requires DragEnd(tasks, drop).Some?
    ensures ToggleRequest(tasks, drop.draggableId).Some?
  {
  }

  /** A drag that starts in the task's own column and crosses into the other
      one asks for the destination column's status. */
  lemma {:induction false} DragSetsDestinationStatus(tasks: seq<Task>, drop: DropResult, i: nat)
    requires DragEnd(tasks, drop).Some?
    requires IsFirstWithId(tasks, i, drop.draggableId)
    requires drop.source == StatusName(tasks[i].status)
    ensures ToggleRequest(tasks, drop.draggableId) == Some(StatusPatch(ParseStatus(drop.destination.value).value))
  {
    var r := ToggleRequest(tasks, drop.draggableId);
    assert r.Some?;
    assert r.value.status == Some(Opposite(tasks[i].status));
  }

  /** With filter `active`, a completed task is hidden, so toggling it does nothing. */
  lemma HiddenTaskToggleIsIgnored(tasks: seq<Task>, taskId: string)
    requires forall t :: t in tasks && t.id == taskId ==> t.status == Complete
    ensures ToggleRequest(FilterTasks(tasks, Active), taskId).None?
  {
  }

  /** Toggling, having the server confirm the requested status, and toggling
      again asks for the original status. */
  lemma {:induction false} ToggleTwiceRestores(tasks: seq<Task>, i: nat, returned: Task)
    requires UniqueIds(tasks)
    requires i < |tasks|
    requires returned.id == tasks[i].id
    requires Some(returned.status) == ToggleRequest(tasks, tasks[i].id).value.status
    ensures ToggleRequest(ReplaceById(tasks, tasks[i].id, returned), tasks[i].id) == Some(StatusPatch(tasks[i].status))
  {
    var id := tasks[i].id;
    assert IsFirstWithId(tasks, i, id);
    assert returned.status == Opposite(tasks[i].status);
    var after := ReplaceById(tasks, id, returned);
    assert after[i] == returned;
    assert IsFirstWithId(after, i, id);
    FindByIdIsFirst(after, id, i);
  }
}

/** The list view (src/components/Tasks/TaskList.tsx): its progress counters,
    the priority chip colours, and the per-task `loading` flags set around each
    awaited call. */
module TaskList {
  import opened Wrappers
  import opened Types
  import opened UseTasks

  /** The positions of the tasks with this status. */
  function StatusIndices(tasks: seq<Task>, s: Status): set<int> {
    set i | 0 <= i < |tasks| && tasks[i].status == s
  }

  /** `completedTasks`: how many tasks are complete. */
  function CompletedCount(tasks: seq<Task>): (n: nat)
    ensures n == |StatusIndices(tasks, Complete)|
    ensures n == |FilterTasks(tasks, Completed)|
    ensures n <= |tasks|
    ensures n == |tasks| <==> forall t :: t in tasks ==> t.status == Complete
    ensures n == 0 <==> forall t :: t in tasks ==> t.status == Incomplete
  {
    SelectFull(tasks, Complete);
    SelectCountsIndices(tasks, Complete);
    var done := Select(tasks, Complete);
    assert done != [] ==> done[0] in done;
    |done|
  }

  /** The filter keeps every entry exactly when every entry has that status. */
  lemma {:induction false} SelectFull(tasks: seq<Task>, s: Status)
    ensures |Select(tasks, s)| == |tasks| <==> forall t :: t in tasks ==> t.status == s
  {
    if tasks != [] {
      SelectFull(tasks[1..], s);
      assert forall t :: t in tasks <==> t == tasks[0] || t in tasks[1..];
    }
  }

  /** The status filter is as long as the set of positions holding that status. */
  lemma {:induction false} SelectCountsIndices(tasks: seq<Task>, s: Status)
    ensures |Select(tasks, s)| == |StatusIndices(tasks, s)|
  {
    if tasks == [] {
      assert StatusIndices(tasks, s) == {};
    } else {
      var n := |tasks| - 1;
      var prefix := tasks[..n];
      SelectCountsIndices(prefix, s);
      assert tasks == prefix + [tasks[n]];
      SelectAppend(prefix, [tasks[n]], s);
      SelectSingle(tasks[n], s);
      IndicesSnoc(tasks, s);
    }
  }

  /** Filtering one task keeps it exactly when it has the status. */
  lemma SelectSingle(t: Task, s: Status)
    ensures |Select([t], s)| == if t.status == s then 1 else 0
  {
    assert [t][1..] == [];
  }

  /** The positions in a non-empty list are those in all but the last entry,
      plus the last one when it has the status. */
  lemma IndicesSnoc(tasks: seq<Task>, s: Status)
    requires tasks != []
    ensures var n := |tasks| - 1;
            |StatusIndices(tasks, s)| == |StatusIndices(tasks[..n], s)| + if tasks[n].status == s then 1 else 0
  {
    var n := |tasks| - 1;
    var a := StatusIndices(tasks[..n], s);
    assert n !in a;
    if tasks[n].status == s {
      assert StatusIndices(tasks, s) == a + {n};
    } else {
      assert StatusIndices(tasks, s) == a;
    }
  }

  /** `progress`, as an exact rational percentage (0 for an empty list). */
  function Progress(tasks: seq<Task>): (p: real)
    ensures |tasks| == 0 ==> p == 0.0
    ensures |tasks| > 0 ==> p == (CompletedCount(tasks) as real / |tasks| as real) * 100.0
    ensures 0.0 <= p <= 100.0
    ensures p == 100.0 <==> |tasks| > 0 && forall t :: t in tasks ==> t.status == Complete
    ensures p == 0.0 <==> forall t :: t in tasks ==> t.status == Incomplete
  {
    var done := CompletedCount(tasks);
    if |tasks| > 0 then
      RatioBounds(done as real, |tasks| as real);
      (done as real / |tasks| as real) * 100.0
    else 0.0
  }

  /** A part over a whole lies in [0, 1] and is 1 only when the part is the whole. */
  lemma RatioBounds(part: real, whole: real)
    requires 0.0 <= part <= whole && whole > 0.0
    ensures 0.0 <= part / whole <= 1.0
    ensures part / whole == 1.0 <==> part == whole
  {
    var q := part / whole;
    assert q * whole == part;
  }

  /** The theme palette a priority chip is tinted with. */
  datatype Palette = ErrorPalette | WarningPalette | SuccessPalette

  /** A chip's colours: a palette's main colour with a 0.1-alpha background
      and a 0.3-alpha border, or the neutral grey fallback. */
  datatype ChipStyle = Tinted(palette: Palette) | Neutral

  /** `getPriorityColor`, over the priority's string value. */
  function PriorityColor(priority: string): (style: ChipStyle)
    ensures style == Neutral <==> ParsePriority(priority).None?
    ensures style == Tinted(ErrorPalette) <==> priority == "High"
    ensures style == Tinted(WarningPalette) <==> priority == "Medium"
    ensures style == Tinted(SuccessPalette) <==> priority == "Low"
  {
    if priority == "High" then Tinted(ErrorPalette)
    else if priority == "Medium" then Tinted(WarningPalette)
    else if priority == "Low" then Tinted(SuccessPalette)
    else Neutral
  }

  /** Every priority a task can have gets its own tinted chip. */
  lemma PriorityColorInjective(p: Priority, q: Priority)
    ensures PriorityColor(PriorityName(p)).Tinted?
    ensures PriorityColor(PriorityName(p)) == PriorityColor(PriorityName(q)) ==> p == q
  {
  }

  /** The `loading` state: one flag per task id. */
  class LoadingFlags {
    var loading: map<string, bool>

    constructor ()
      ensures loading == map[]
    {
      loading := map[];
    }

    /** `loading[task._id]` as the view reads it: an absent key is not busy. */
    function IsBusy(taskId: string): bool
      reads this
    {
      taskId in loading && loading[taskId]
    }

    /** `setLoading(prev => ({ ...prev, [taskId]: busy }))` */
    method Mark(taskId: string, busy: bool)
      modifies this
      ensures loading == old(loading)[taskId := busy]
      ensures IsBusy(taskId) == busy
      ensures forall k :: k != taskId ==> IsBusy(k) == old(IsBusy(k))
    {
      loading := loading[taskId := busy];
    }

    /** `handleToggleStatus`: the flag is up while `onToggleStatus` runs and
        down afterwards whatever it did (`finally`); its error propagates.
        `during` is the map in effect while the call was outstanding. */
    method HandleToggleStatus(taskId: string, outcome: Result<(), string>) returns (during: map<string, bool>, r: Result<(), string>)
      modifies this
      ensures during == old(loading)[taskId := true]
      ensures loading == old(loading)[taskId := false]
      ensures !IsBusy(taskId)
      ensures forall k :: k != taskId ==> (k in loading <==> k in old(loading))
      ensures forall k :: k != taskId && k in loading ==> loading[k] == old(loading)[k]
      ensures r == outcome
    {
      Mark(taskId, true);
      during := loading;
      r := outcome;
      Mark(taskId, false);
    }

    /** `handleDelete`: the same set, call, clear-in-`finally` pattern around `onDelete`. */
    method HandleDelete(taskId: string, outcome: Result<(), string>) returns (during: map<string, bool>, r: Result<(), string>)
      modifies this
      ensures during == old(loading)[taskId := true]
      ensures loading == old(loading)[taskId := false]
      ensures !IsBusy(taskId)
      ensures forall k :: k != taskId ==> (k in loading <==> k in old(loading))
      ensures forall k :: k != taskId && k in loading ==> loading[k] == old(loading)[k]
      ensures r == outcome
    {
      Mark(taskId, true);
      during := loading;
      r := outcome;
      Mark(taskId, false);
    }
  }
}

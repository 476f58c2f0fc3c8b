/** The drag-and-drop board (src/components/Tasks/TaskBoard.tsx): two columns
    split by status, and the rule that turns a drop into a toggle request. */
module TaskBoard {
  import opened Wrappers
  import opened Types
  import opened UseTasks

  /** A column; its droppable id is the status name. */
  datatype Column = Column(id: Status, title: string, tasks: seq<Task>)

  /** `columns`: the `incomplete` column ("To Do") then the `complete` one ("Completed"). */
  function Columns(tasks: seq<Task>): (cols: seq<Column>)
    ensures |cols| == 2
    ensures cols[0].id == Incomplete && cols[0].title == "To Do"
    ensures cols[1].id == Complete && cols[1].title == "Completed"
    ensures forall t :: t in cols[0].tasks <==> t in tasks && t.status == Incomplete
    ensures forall t :: t in cols[1].tasks <==> t in tasks && t.status == Complete
    ensures IsSubsequence(cols[0].tasks, tasks) && IsSubsequence(cols[1].tasks, tasks)
    ensures |cols[0].tasks| + |cols[1].tasks| == |tasks|
    ensures multiset(cols[0].tasks) + multiset(cols[1].tasks) == multiset(tasks)
  {
    SelectIsSubsequence(tasks, Incomplete);
    SelectIsSubsequence(tasks, Complete);
    SelectPartition(tasks);
    [Column(Incomplete, "To Do", Select(tasks, Incomplete)),
     Column(Complete, "Completed", Select(tasks, Complete))]
  }

  /** What the drag library reports when a drag ends. */
  datatype DropResult = DropResult(destination: Option<string>, source: string, draggableId: string)

  /** `handleDragEnd`: the id handed to `onToggleStatus`, if any. A drop is
      acted on only when it lands in the other of the two known columns and
      the dragged task is on the board. */
  function DragEnd(tasks: seq<Task>, drop: DropResult): (toggle: Option<string>)
    ensures toggle.Some? <==>
              && drop.destination.Some?
              && drop.destination.value != drop.source
              && (drop.destination.value == "complete" || drop.destination.value == "incomplete")
              && exists t :: t in tasks && t.id == drop.draggableId
    ensures toggle.Some? ==> toggle.value == drop.draggableId
  {
    match drop.destination
    case None => None
    case Some(dest) =>
      if dest != drop.source && (dest == "complete" || dest == "incomplete") then
        match FindById(tasks, drop.draggableId)
        case Some(_) => Some(drop.draggableId)
        case None => None
      else None
  }
}

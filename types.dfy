/** The shared record types of the client (src/types/index.ts), with the
    string unions turned into closed enumerations. */
module Types {
  import opened Wrappers

  datatype Status = Complete | Incomplete
  datatype Priority = Low | Medium | High

  /** A task as the server returns it; `id` is the `_id` field. */
  datatype Task = Task(
    id: string,
    title: string,
    description: string,
    status: Status,
    priority: Priority,
    createdAt: string,
    updatedAt: string,
    userId: string)

  /** `Pick<Task, 'title' | 'description' | 'priority'>` */
  datatype NewTask = NewTask(title: string, description: string, priority: Priority)

  datatype User = User(id: string, email: string, token: string)

  datatype AuthUser = AuthUser(id: string, email: string)
  datatype AuthResponse = AuthResponse(token: string, user: AuthUser)

  /** The view selector held by the task hook. */
  datatype Filter = All | Active | Completed

  /** The wire spelling of a status. */
  function StatusName(s: Status): string {
    match s
    case Complete => "complete"
    case Incomplete => "incomplete"
  }

  function ParseStatus(name: string): (r: Option<Status>)
    ensures r.Some? <==> name == "complete" || name == "incomplete"
    ensures r.Some? ==> StatusName(r.value) == name
  {
    if name == "complete" then Some(Complete)
    else if name == "incomplete" then Some(Incomplete)
    else None
  }

  /** The wire spelling of a priority. */
  function PriorityName(p: Priority): string {
    match p
    case Low => "Low"
    case Medium => "Medium"
    case High => "High"
  }

  function ParsePriority(name: string): (r: Option<Priority>)
    ensures r.Some? <==> name == "Low" || name == "Medium" || name == "High"
    ensures r.Some? ==> PriorityName(r.value) == name
  {
    if name == "Low" then Some(Low)
    else if name == "Medium" then Some(Medium)
    else if name == "High" then Some(High)
    else None
  }

  /** Reading back a written status or priority gives the same value. */
  lemma NamesRoundTrip(s: Status, p: Priority)
    ensures ParseStatus(StatusName(s)) == Some(s)
    ensures ParsePriority(PriorityName(p)) == Some(p)
  {
  }

  /** The status a toggle asks for: `complete` becomes `incomplete` and back. */
  function Opposite(s: Status): (r: Status)
    ensures r != s
  {
    if s == Complete then Incomplete else Complete
  }

  lemma OppositeInvolutive(s: Status)
    ensures Opposite(Opposite(s)) == s
  {
  }
}

# Task tracker: a verified model of the client state and its rules

This project models the logic of a small task tracker. In the tracker, users
sign in, then create, list, toggle and delete tasks. Each task has a title, a
description, a priority (`Low`, `Medium`, `High`) and a status (`complete`,
`incomplete`). The model covers these parts:

- the client task state manager (`useTasks`): a list of tasks and a view
  filter. The list changes only after the server confirms an operation:
  a created task is appended, an updated task replaces entries by id, and a
  delete removes entries by id;
- the application handlers (`App`): a toggle looks the task up in the
  filtered view and asks for the opposite status, and a delete refuses an
  empty id. Both swallow errors;
- the drag-and-drop board (`TaskBoard`): the board splits the tasks into two
  columns by status. A drop toggles a task only when it crosses into the
  other known column;
- the list view (`TaskList`): the completed count, the progress percentage,
  the priority chip colours and the per-task `loading` flags. The
  `getPriorityColor` in `TaskBoard.tsx` is an identical copy and is modelled
  once;
- the client forms (`TaskForm`, `RegisterForm`): field rules, initial values
  and submission effects;
- the server's task schema (`Task.js`): required fields, trimming, enums with
  defaults, and timestamps;
- the client task service (`taskApi`): requests, the forced `incomplete`
  status on creation, and translation of errors into messages;
- the session hook (`useAuth`): the signed-in user, mirrored in browser
  storage under the key `user`.

Every network call becomes a parameter that stands for the server's answer.
`TaskApi.Reply` is either a response body or a rejection carrying the
server's `error` field. For the authentication provider, the answer is a
`Result<AuthResponse, string>`. Browser storage is
`BrowserStorage.LocalStorage`, a map from keys to stored values. The e-mail
format check of the registration form is a function parameter.

Two behaviours of the code are worth knowing, and the model keeps both.
First, a failed refresh does not reach the caller: `fetchTasks` logs the
error and swallows it (src/hooks/useTasks.ts:12-14), and
`TaskStore.FetchTasks` leaves the list as it was. Second, the client form
checks title and description lengths on the untrimmed input, while the
server's schema trims before its `required` rule runs. So
`TaskSchema.BlankTitlePassesLengthButNotSchema` shows that any title of 3 to
50 white-space characters is accepted by the form and refused by the schema.

The toggle handler looks the task up in the hook's filtered view. In the
shipped app that view is always the whole list: `App.tsx` takes `filter` and
`setFilter` from the hook but never uses them (src/App.tsx:14), the board
gets no filter control, and `TaskList` is not mounted. `App.HiddenTaskToggleIsIgnored`
is therefore about the hook's contract, for a filter that `App.tsx` itself
never sets.

The registration form calls the provider directly. It writes only the `token`
key, and the session hook reads only the `user` key. So a registration
through the form does not sign the user in. `RegisterForm.TokenWriteKeepsSavedUser`
states this. The model keeps this behaviour as written.

## Model

| member | source | states |
|---|---|---|
| Types.ParseStatus | src/types/index.ts:5 | a status string is accepted exactly when it is `complete` or `incomplete`, and it reads back as the same string |
| Types.ParsePriority | src/types/index.ts:6 | a priority string is accepted exactly when it is `Low`, `Medium` or `High`, and it reads back as the same string |
| Types.NamesRoundTrip | src/types/index.ts:5-6 | writing a status or a priority and reading it back gives the same value |
| Types.Opposite | src/App.tsx:40 | the toggled status always differs from the current one |
| Types.OppositeInvolutive | src/App.tsx:40 | toggling twice gives the original status |
| TaskApi.Fallback | src/services/taskApi.ts:5-42 | each operation has its own fixed, non-empty fallback message |
| TaskApi.ErrorMessage | src/services/taskApi.ts:9-10 | the thrown message is the server's `error` when present and non-empty, otherwise the fallback; it is never empty |
| TaskApi.Outcome | src/services/taskApi.ts:7-10 | an operation succeeds exactly when the server responded, returns the body unchanged, and otherwise fails with the translated message |
| TaskApi.TaskPath | src/services/taskApi.ts:29 | a task's path is `/api/tasks/` followed by exactly the id |
| TaskApi.TaskIdOfPath | src/services/taskApi.ts:29 | an id read back from a path rebuilds that path |
| TaskApi.TaskPathRoundTrip | src/services/taskApi.ts:29 | the id read from a task's path is the id it was built from |
| TaskApi.TaskPathInjective | src/services/taskApi.ts:38 | distinct ids address distinct paths |
| TaskApi.CreatePayload | src/services/taskApi.ts:16-19 | the creation body carries the given title, description and priority, with status `incomplete` |
| TaskApi.GetTasksRequest | src/services/taskApi.ts:7 | listing is a GET of `/api/tasks` with no body |
| TaskApi.CreateTaskRequest | src/services/taskApi.ts:16-20 | creation is a POST of `/api/tasks` whose body is the creation payload, status `incomplete` |
| TaskApi.UpdateTaskRequest | src/services/taskApi.ts:29 | an update is a PATCH to the task's own path carrying exactly the given patch |
| TaskApi.DeleteTaskRequest | src/services/taskApi.ts:38 | a delete is a DELETE of the task's own path with no body |
| UseTasks.Select | src/hooks/useTasks.ts:50-51 | the status filter keeps exactly the tasks with that status and is never longer than the input |
| UseTasks.FilterTasks | src/hooks/useTasks.ts:49-53 | `all` returns the list itself; `active` keeps exactly the incomplete tasks and `completed` exactly the complete ones |
| UseTasks.SelectIsSubsequence | src/hooks/useTasks.ts:50-51 | the status filter keeps the input's order |
| UseTasks.FilterVisibleIsSubsequence | src/hooks/useTasks.ts:49-53 | every filtered view is an order-preserving subsequence of the list |
| UseTasks.ActiveCompletedPartition | src/hooks/useTasks.ts:49-53 | the `active` and `completed` views are disjoint, and together they hold every task with its multiplicity |
| UseTasks.SelectPartition | src/hooks/useTasks.ts:50-51 | the two status filters split the list as multisets, and their lengths sum to the list's length |
| UseTasks.SelectAppend | src/hooks/useTasks.ts:49-53 | filtering a concatenation gives the concatenation of the filtered parts |
| UseTasks.FindById | src/App.tsx:34 | the lookup misses exactly when no task has the id; a hit is a task from the list with that id |
| UseTasks.FindByIdIsFirst | src/App.tsx:34 | the lookup returns the first task with the id |
| UseTasks.ReplaceById | src/hooks/useTasks.ts:31-33 | the length is kept; each entry with the id becomes the returned task and every other entry is unchanged |
| UseTasks.ReplaceAbsentIsIdentity | src/hooks/useTasks.ts:31-33 | replacing an id that no entry has changes nothing |
| UseTasks.ReplaceKeepsUniqueIds | src/hooks/useTasks.ts:31-33 | with unique ids, after an update the ids stay unique and the only entry with that id is the returned task |
| UseTasks.RemoveById | src/hooks/useTasks.ts:43 | the result holds exactly the tasks whose id differs |
| UseTasks.RemoveIsSubsequence | src/hooks/useTasks.ts:43 | removal keeps the other tasks in their original order |
| UseTasks.RemoveCount | src/hooks/useTasks.ts:43 | removal drops exactly as many entries as carry the id |
| UseTasks.RemoveAbsentIsIdentity | src/hooks/useTasks.ts:43 | removing an id that no entry has changes nothing |
| UseTasks.TaskStore.constructor | src/hooks/useTasks.ts:6-7 | the initial state is an empty list with filter `all` |
| UseTasks.TaskStore.Visible | src/hooks/useTasks.ts:61-62 | the exposed `tasks` is the list under the current filter: an order-preserving subsequence holding exactly the tasks the filter shows |
| UseTasks.TaskStore.SetFilter | src/hooks/useTasks.ts:7 | setting the filter leaves the list alone |
| UseTasks.TaskStore.FetchTasks | src/hooks/useTasks.ts:9-16 | the listing request is sent; a successful fetch replaces the list with the response; a failure is swallowed and the list is kept |
| UseTasks.TaskStore.OnToken | src/hooks/useTasks.ts:55-59 | the listing request is sent exactly when the token is non-empty; otherwise the list is kept |
| UseTasks.TaskStore.AddTask | src/hooks/useTasks.ts:18-26 | the creation request is sent; on success the returned task is appended and returned; on failure the error is passed on and the list is unchanged |
| UseTasks.TaskStore.UpdateTask | src/hooks/useTasks.ts:28-38 | the patch is sent to the task's path; on success entries with the id are replaced by the returned task; on failure the list is unchanged |
| UseTasks.TaskStore.DeleteTask | src/hooks/useTasks.ts:40-47 | the delete is sent to the task's path; on success entries with the id are removed; on failure the list is unchanged |
| TaskBoard.Columns | src/components/Tasks/TaskBoard.tsx:98-109 | "To Do" holds exactly the incomplete tasks and "Completed" exactly the complete ones, each in input order; together they hold every task once |
| TaskBoard.DragEnd | src/components/Tasks/TaskBoard.tsx:111-125 | a toggle is requested exactly when the drop has a destination that differs from the source, is a known column, and the dragged task is on the board; the toggled id is the dragged one |
| App.TokenOf | src/App.tsx:14 | the hook's token is non-empty exactly when a user with a non-empty token is signed in, and it is then that token |
| App.ToggleRequest | src/App.tsx:32-41 | a miss sends nothing; a hit sends only a status, the opposite of the first matching task's |
| App.HandleToggleStatus | src/App.tsx:32-45 | the lookup runs on the filtered view; a miss leaves the list unchanged; a hit updates it only on success; errors are swallowed |
| App.HandleDelete | src/App.tsx:20-30 | an empty id calls nothing; otherwise a successful delete removes the id; errors are swallowed |
| App.HandleDrop | src/App.tsx:79-82 | the board, given the hook's filtered view, ignores a drop that its rule rejects; an accepted drop always sends a toggle for the dragged task, and the list then becomes the server's task in place of entries with that id, or stays as it was on failure |
| App.DragToggleIsNeverAMiss | src/components/Tasks/TaskBoard.tsx:120-123 | every toggle the board requests finds its task |
| App.DragSetsDestinationStatus | src/components/Tasks/TaskBoard.tsx:116-123 | a drag from the task's own column into the other column asks for that column's status |
| App.HiddenTaskToggleIsIgnored | src/App.tsx:34 | with filter `active`, toggling a completed task sends nothing |
| App.ToggleTwiceRestores | src/App.tsx:39-41 | once the server confirms a toggle, toggling again asks for the original status |
| TaskList.CompletedCount | src/components/Tasks/TaskList.tsx:76 | the count is the number of positions holding a complete task, which is the length of the `completed` view; it equals the length exactly when all tasks are complete, and it is 0 exactly when none is |
| TaskList.SelectCountsIndices | src/components/Tasks/TaskList.tsx:76 | a status filter is as long as the set of positions holding that status |
| TaskList.SelectFull | src/components/Tasks/TaskList.tsx:76 | the filter keeps every entry exactly when every entry has that status |
| TaskList.Progress | src/components/Tasks/TaskList.tsx:77 | progress is 0 for an empty list and completed / total × 100 otherwise; it lies in [0, 100], is 100 exactly for a non-empty all-complete list, and is 0 exactly when nothing is complete |
| TaskList.RatioBounds | src/components/Tasks/TaskList.tsx:77 | a part over a whole lies in [0, 1] and is 1 only when the part is the whole |
| TaskList.PriorityColor | src/components/Tasks/TaskList.tsx:37-63 | `High` gets the error palette, `Medium` warning and `Low` success; any other value gets the grey default |
| TaskList.PriorityColorInjective | src/components/Tasks/TaskList.tsx:37-56 | every priority gets a tinted chip, and different priorities get different palettes |
| TaskList.LoadingFlags.constructor | src/components/Tasks/TaskList.tsx:75 | no flags are set initially |
| TaskList.LoadingFlags.Mark | src/components/Tasks/TaskList.tsx:80 | one key is set; afterwards the task reads as busy exactly when `busy` is true, and every other task reads as before |
| TaskList.LoadingFlags.HandleToggleStatus | src/components/Tasks/TaskList.tsx:79-86 | the flag is true during the call and false afterwards, whatever the call did; other keys are kept; the outcome is passed on |
| TaskList.LoadingFlags.HandleDelete | src/components/Tasks/TaskList.tsx:88-95 | the same set, call and clear-in-`finally` around the delete |
| TaskForm.FormRules | src/components/Tasks/TaskForm.tsx:21-36 | the form is valid exactly when the title has 3 to 50 characters, the description 10 to 200 (untrimmed), and the priority is an enum value |
| TaskForm.Submission | src/components/Tasks/TaskForm.tsx:21-36 | values reach `onSubmit` exactly when the form is valid, unchanged and within the bounds |
| TaskForm.InitialValues | src/components/Tasks/TaskForm.tsx:45-49 | the title and description start empty and the priority starts as `Medium` |
| TaskForm.InitialValuesInvalid | src/components/Tasks/TaskForm.tsx:45-49 | the untouched form cannot be submitted, though its priority already passes |
| TaskForm.TaskFormState.constructor | src/components/Tasks/TaskForm.tsx:44-49 | the form starts at its initial values |
| TaskForm.TaskFormState.Edit | src/components/Tasks/TaskForm.tsx:84 | an edit replaces the values |
| TaskForm.TaskFormState.Submit | src/components/Tasks/TaskForm.tsx:51-58 | an invalid form sends nothing; a valid form is reset only when `onSubmit` resolves, and a failure keeps the values |
| TaskSchema.SkipForward | backend/src/models/Task.js:7 | the forward scan stops at a character that is not white space, or at the end of the text (that it is the first such character is `SkipForwardPassesSpace`) |
| TaskSchema.SkipForwardPassesSpace | backend/src/models/Task.js:7 | every character the forward scan passes over is white space |
| TaskSchema.SkipBackward | backend/src/models/Task.js:7 | the backward scan stops just after a character that is not white space, or at its lower bound (that it is the last such character is `SkipBackwardPassesSpace`) |
| TaskSchema.SkipBackwardPassesSpace | backend/src/models/Task.js:7 | every character the backward scan passes over is white space |
| TaskSchema.Trim | backend/src/models/Task.js:7 | the result is a slice of the text with only white space outside it, and it neither starts nor ends with white space |
| TaskSchema.TrimIdempotent | backend/src/models/Task.js:7 | trimming twice is trimming once |
| TaskSchema.TrimEmptyIffAllSpace | backend/src/models/Task.js:6-7 | a text trims to nothing exactly when it is all white space |
| TaskSchema.Normalize | backend/src/models/Task.js:3-23 | a given title or description becomes its trimmed text, an omitted status becomes `incomplete`, an omitted priority becomes `Medium`, and any other field is kept |
| TaskSchema.NormalizeIdempotent | backend/src/models/Task.js:4-13 | normalising a normalised document changes nothing |
| TaskSchema.Errors | backend/src/models/Task.js:4-28 | each failing rule is reported, and no others: a missing or empty title or description, a missing user id, and a status or priority outside its enum, reported with the offending value |
| TaskSchema.Create | backend/src/models/Task.js:3-31 | a document is saved exactly when its trimmed title and description are non-empty, its enums are valid and it has a user id; a refused document carries exactly the validation errors of its normalised form; the saved task is trimmed, has the defaults applied, and has equal creation and update timestamps |
| TaskSchema.BlankTitlePassesLengthButNotSchema | backend/src/models/Task.js:4-8 | any all-white-space title of 3 to 50 characters meets the form's title rule but is refused as missing |
| TaskSchema.ClientCreation | backend/src/models/Task.js:14-18 | a client creation is accepted exactly when its title and description are not blank, and yields an `incomplete` task with the chosen priority and equal timestamps |
| BrowserStorage.LocalStorage.GetItem | src/hooks/useAuth.ts:7 | a read gives the stored value, or nothing when the key is absent |
| BrowserStorage.LocalStorage.SetItem | src/hooks/useAuth.ts:19 | a write changes this key only |
| BrowserStorage.LocalStorage.RemoveItem | src/hooks/useAuth.ts:44 | a removal drops this key only |
| UseAuth.SavedUser | src/hooks/useAuth.ts:6-9 | a session is restored exactly when the `user` entry holds a stored user, and that user is the one restored |
| UseAuth.Session.constructor | src/hooks/useAuth.ts:6-9 | the initial user is the one restored from storage |
| UseAuth.Session.Login | src/hooks/useAuth.ts:11-25 | on success the user is the provider's id and e-mail with the token; it is written under `user`, set in memory and returned; on failure nothing changes and the error is passed on |
| UseAuth.Session.Register | src/hooks/useAuth.ts:27-41 | builds, stores and returns the user exactly as login does; on failure nothing changes |
| UseAuth.Session.Logout | src/hooks/useAuth.ts:43-46 | only the `user` key is removed, `token` included among the kept keys, and the user becomes none |
| UseAuth.ReloadAfterSignIn | src/hooks/useAuth.ts:19-20 | after a sign-in, a reload restores the same user |
| UseAuth.ReloadAfterLogout | src/hooks/useAuth.ts:43-46 | after logout, a reload restores no session, and every other key is kept |
| RegisterForm.RegisterRules | src/components/Auth/RegisterForm.tsx:8-18 | the schema accepts a non-empty e-mail address of valid form, a password of at least 6 characters, and a confirmation equal to the password |
| RegisterForm.InitialValues | src/components/Auth/RegisterForm.tsx:26-30 | all three fields start empty |
| RegisterForm.FailureMessage | src/components/Auth/RegisterForm.tsx:39 | the shown message is the error's own message, or `Registration failed` when it is empty; it is never empty |
| RegisterForm.RegisterFormState.constructor | src/components/Auth/RegisterForm.tsx:24-30 | no error, initial values, no navigation |
| RegisterForm.RegisterFormState.Edit | src/components/Auth/RegisterForm.tsx:61 | an edit replaces the values and nothing else |
| RegisterForm.RegisterFormState.Submit | src/components/Auth/RegisterForm.tsx:32-41 | an invalid form calls nothing; a valid one clears the error; on success it writes `token` only and navigates to `/tasks`; on failure it shows the message and writes nothing |
| RegisterForm.TokenWriteKeepsSavedUser | src/components/Auth/RegisterForm.tsx:36 | writing `token` does not change the session that a reload restores |

## Left out

- Rendering, styling, animation and the drag library's wiring (JSX, MUI, framer-motion, `Droppable`/`Draggable`) are pure presentation.
- The HTTP client `src/services/api.ts` is not part of this model. Its interceptor sends the `token` entry as a bearer header. The provider's answers to `login` and `register`, including its 'Login failed'/'Registration failed' fallbacks, are parameters.
- `LoginForm.tsx` is not part of this model. It is a form with a fixed failure message.
- The network and asynchrony are not modelled. Each operation is one atomic step with the server's answer as a parameter. Overlapping requests are out of scope, for example two toggles in flight for the same id, or two loading flags for one id cleared out of order.
- The backend routes and storage service (ownership checks, id and timestamp generation, the update and list queries) are not part of this model. The schema's `Create` takes the fresh id and the clock reading as parameters. `updatedAt` refreshing on later saves is not modelled.
- TaskSchema.Create: the user id is taken as already cast. ObjectId casting and its failures are not modelled.
- TaskApi.TaskPatch: `Partial<Task>` is restricted to the four editable fields. `_id`, `userId` and the timestamps are not modelled as patchable.
- TaskApi.ErrorMessage: the server's `error` field is taken as a string or absent. A non-string value is not modelled.
- TaskList.Progress: the percentage is computed in exact rational arithmetic. Floating-point rounding and the `Math.round` in the label are not modelled.
- TaskForm.FormRules and RegisterForm.RegisterRules: lengths count Unicode characters. JavaScript counts UTF-16 code units, so the two differ outside the Basic Multilingual Plane. Which message yup shows for a field that breaks several rules is not modelled.
- RegisterForm.RegisterRules: yup's e-mail format predicate is the parameter `isEmail`.
- UseAuth.SavedUser: storage holds typed values, so `JSON.stringify`/`JSON.parse` are not modelled. A `user` entry that is plain text restores no session. For non-empty text the source would throw from `JSON.parse` or restore a value of another shape.
- The `console.error` logging in the handlers is not modelled.
- React hook mechanics (`useCallback`, `useMemo`, `useEffect` dependency tracking) are not modelled. Only the condition that the list is fetched when the token is non-empty is kept, in `TaskStore.OnToken`.
- Navigation is not modelled beyond the target route that `RegisterFormState.Submit` records.

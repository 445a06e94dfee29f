# Task list state model

A Dafny model of the local state kept by the `TaskList` component of the task manager
front end (`task-manager-ui/src/components/TaskList.jsx`). The component caches the
project and task collections fetched from the REST API. It cycles a task's status
through Pending, In Progress and Completed, and deletes tasks after the user confirms.
It also reports the number of incomplete tasks to its parent through `setTaskCount`.

The model has two modules:

- `Tasks` (`tasks.dfy`) holds the task and project records and the pure transformations
  the component's state setters apply. These are the status cycle of the status button,
  the `filter(...).length` incomplete count, the `map` that merges a server-confirmed
  status, and the `filter` that drops a deleted task. Lemmas about them cover order,
  length, frame, idempotence and count properties.
- `TaskListView` (`task_list.dfy`) holds the class `TaskList`. Its fields are `tasks`,
  `projects` and `taskCount`, the last value handed to `setTaskCount`. Its methods are
  the component's handlers. Each takes the outcome of its request as a parameter: it
  threw, or it responded with an `ok` flag and a parsed body. The delete handler also
  takes the answer to the confirmation dialog as a boolean. The invariant `Valid()`
  says the reported count is always the count of the current list.

Three behaviours of the code that the model follows exactly:

- The two load handlers never read `response.ok`, so a non-2xx response whose body
  parses is treated like any other: an array body replaces the collection. Only an
  exception keeps the prior collection: a thrown request, or reading `.data` from a
  `null` project body.
- The project load in this component is not gated on the credential; the model has no
  credential at all.
- A project body that parses to JSON `null` makes `data.data` throw. That exception is
  caught, so the prior project collection is kept. Any other body without a truthy
  `data` member empties the collection.

## Model

| member | source | states |
|---|---|---|
| `Tasks.NextStatus` | task-manager-ui/src/components/TaskList.jsx:178-182 | the requested status is always one of the three named statuses and always differs from the current one; every string other than Pending and In Progress, Completed included, goes to Pending |
| `Tasks.NextStatusFollowsCycle` | task-manager-ui/src/components/TaskList.jsx:178-182 | Pending goes to In Progress, In Progress to Completed, Completed back to Pending |
| `Tasks.NextStatusThrice` | task-manager-ui/src/components/TaskList.jsx:178-182 | three presses return to the starting status exactly when it is one of the named three; any other string ends at Completed |
| `Tasks.Incomplete` | task-manager-ui/src/components/TaskList.jsx:50 | the filtered list holds exactly the tasks of the list whose status is not Completed, and is no longer than the list |
| `Tasks.IncompleteOccurrences` | task-manager-ui/src/components/TaskList.jsx:50 | the filter keeps every occurrence of each incomplete task and no occurrence of a completed one |
| `Tasks.IncompleteKeepsOrder` | task-manager-ui/src/components/TaskList.jsx:50 | the incomplete tasks keep their relative order (a subsequence of the list) |
| `Tasks.IncompleteCount` | task-manager-ui/src/components/TaskList.jsx:49-51 | the reported count lies between 0 and the number of tasks |
| `Tasks.IncompleteCountAppend` | task-manager-ui/src/components/TaskList.jsx:50 | the count of a concatenation is the sum of the counts |
| `Tasks.IncompleteCountExtremes` | task-manager-ui/src/components/TaskList.jsx:50 | the count is 0 iff every task is Completed, and equals the list length iff none is |
| `Tasks.WithStatus` | task-manager-ui/src/components/TaskList.jsx:67-70 | the merged list has the same length and order; every task keeps its id, name and priority; tasks with another id are unchanged; tasks with the id take the given status |
| `Tasks.WithStatusAbsentId` | task-manager-ui/src/components/TaskList.jsx:68-70 | merging a status for an id no task has leaves the list unchanged |
| `Tasks.WithStatusIdempotent` | task-manager-ui/src/components/TaskList.jsx:68-70 | applying the same merge twice equals applying it once |
| `Tasks.WithStatusCount` | task-manager-ui/src/components/TaskList.jsx:49-70 | merging a status other than Completed never lowers the count; merging Completed never raises it |
| `Tasks.RemoveAfterWithStatus` | task-manager-ui/src/components/TaskList.jsx:68-94 | deleting a task after a status merge into it equals deleting it without the merge |
| `Tasks.Remove` | task-manager-ui/src/components/TaskList.jsx:94 | after a delete, the list holds exactly the tasks whose id differs from the deleted one, and is no longer than before |
| `Tasks.Matches` | task-manager-ui/src/components/TaskList.jsx:94 | the number of tasks with the id is at most the list length, and is 0 iff no task has the id |
| `Tasks.RemoveDropsMatches` | task-manager-ui/src/components/TaskList.jsx:94 | a delete shortens the list by the number of matching tasks, and the rest keep their relative order and fields (a subsequence of the old list) |
| `Tasks.RemoveAppend` | task-manager-ui/src/components/TaskList.jsx:94 | deleting from a concatenation equals concatenating the deletions, so surviving tasks keep their order |
| `Tasks.RemoveNoopIff` | task-manager-ui/src/components/TaskList.jsx:94 | a delete leaves the list unchanged iff no task has the id |
| `Tasks.RemoveIdempotent` | task-manager-ui/src/components/TaskList.jsx:94 | deleting twice equals deleting once |
| `Tasks.RemoveCount` | task-manager-ui/src/components/TaskList.jsx:49-94 | a delete never raises the incomplete count |
| `Tasks.PendingTaskScenario` | task-manager-ui/src/components/TaskList.jsx:49-70 | one Pending task gives a count of 1; a confirmed move to In Progress shows the new status and keeps the count at 1 |
| `TaskListView.TaskList.constructor` | task-manager-ui/src/components/TaskList.jsx:7-9 | both collections start empty and the mount-time count is 0 |
| `TaskListView.TaskList.SetTasks` | task-manager-ui/src/components/TaskList.jsx:48-51 | replacing the list re-reports the count of the new list and leaves the projects alone |
| `TaskListView.TaskList.FetchProjects` | task-manager-ui/src/components/TaskList.jsx:12-27 | a thrown request or a `null` body keeps the projects; a body without `data` empties them; an envelope replaces them with `data`; tasks and count unchanged; the ok flag plays no part |
| `TaskListView.TaskList.FetchTasks` | task-manager-ui/src/components/TaskList.jsx:30-46 | a thrown request keeps the list; a falsy body empties it and reports 0; an array body replaces it; the count always matches the list |
| `TaskListView.TaskList.UpdateTaskStatus` | task-manager-ui/src/components/TaskList.jsx:54-78 | only an ok response changes the list, and then to the merge of the server-returned status (not the requested one); the length and the projects never change |
| `TaskListView.TaskList.ToggleStatus` | task-manager-ui/src/components/TaskList.jsx:175-184 | the status button requests the next status in the cycle of the task's current status; only an ok response changes the list, to the merge of the server-returned status into every task with that id; when the server confirms the requested status, the task shows it with its other fields kept |
| `TaskListView.TaskList.DeleteTask` | task-manager-ui/src/components/TaskList.jsx:81-101 | a declined confirmation, a not-ok response or a thrown request leaves the list unchanged; otherwise every task with the id is dropped and the length shrinks by their number; the count never rises |

## Left out

- The `fetch` calls, the `Authorization` and `Content-Type` headers, URL building from `backendApi`, and `response.json()` parsing. They are network I/O; each request's result is the `Outcome` parameter of its handler, and a body that fails to parse is `Threw`.
- `window.confirm`: a browser dialog, modelled as the `confirmed` parameter of `DeleteTask`.
- The ordering of overlapping asynchronous requests (last response wins) and setting state after unmount. These are event-loop concurrency; each handler is modelled as running to completion on its own.
- A task-load body that is truthy but not an array, such as an error object from a non-2xx response. The code would store it as the task list and the count effect's `tasks.filter` would then fail. The model types the body as falsy or an array of tasks.
- A project-load body whose `data` member is truthy but not an array, such as an object or a string. The code would store it as the project collection. The model types `data` as missing, falsy or an array of projects.
- An update response whose record has no `status` member, or a `null` record. The code would merge `undefined` or fail inside the state updater. The model gives the returned record a string status.
- The re-run of both load effects when the credential changes. There is no credential in the model; each load is a call of `FetchTasks` or `FetchProjects`.
- JSX rendering, the colour classes for priority and status, the `showTaskForm` toggle and the `Link` to the dashboard. These are presentation only.
- `TaskForm`, which this component renders with `setTasks` and `setTaskCount` (task-manager-ui/src/components/TaskList.jsx:119-124), so it can change the task list too. Its source is not part of this model.
- `ProjectForm`, which the dashboard renders with `setProjects`; this component never renders it. Its source is not part of this model.
- `task-manager-ui/src/components/Dashboard.jsx`. Its only logic is a credential-gated project fetch with the same `data.data || []` unwrap; the rest is layout.
- `console.error` logging.

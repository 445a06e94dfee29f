/** The state of the task list view: the task and project collections it caches,
    and the incomplete count it reports upward. Each handler takes the outcome of its
    network request as a parameter, and the delete handler also takes the user's
    answer to the confirmation dialog. */
module TaskListView {
  import opened Tasks

  /** How a request ended: it threw (transport failure, or a body that did not
      parse), or the server responded with an ok flag and a parsed body. */
  datatype Outcome<B> = Threw | Responded(ok: bool, body: B)

  /** The parsed body of `GET /api/v1/tasks`: a falsy JSON value (`null`, `false`,
      `0`, `""`) or a bare array of tasks. */
  datatype TasksBody = FalsyJson | TaskArray(tasks: seq<Task>)

  /** The parsed body of `GET /api/v1/projects`: JSON `null` (reading `.data` from
      it throws), a value whose `data` member is missing or falsy, or an envelope
      whose `data` member is an array of projects. A truthy `data` member that is
      not an array is outside the model. */
  datatype ProjectsBody = NullJson | NoData | ProjectArray(projects: seq<Project>)

  /** The task list component. `taskCount` is the last value handed to the parent's
      `setTaskCount`; the count effect re-runs whenever `tasks` changes. */
  class TaskList {
    var tasks: seq<Task>
    var projects: seq<Project>
    var taskCount: nat

    /** The reported count is always that of the current task collection. */
    ghost predicate Valid()
      reads this
    {
      taskCount == IncompleteCount(tasks)
    }

    /** Both collections start empty, and the mount-time count effect reports 0. */
    constructor ()
      ensures Valid()
      ensures tasks == [] && projects == [] && taskCount == 0
    {
      tasks := [];
      projects := [];
      taskCount := IncompleteCount([]);
    }

    /** `setTasks` followed by the count effect it triggers. */
    method SetTasks(next: seq<Task>)
      modifies this
      ensures Valid()
      ensures tasks == next && taskCount == IncompleteCount(next)
      ensures projects == old(projects)
    {
      tasks := next;
      taskCount := IncompleteCount(tasks);
    }

    /** Loads the project collection. The ok flag is not consulted: any parsed body
        is unwrapped through `data.data || []`. A thrown request, or a `null` body
        whose `.data` throws, keeps the prior collection. */
    method FetchProjects(response: Outcome<ProjectsBody>)
      requires Valid()
      modifies this
      ensures Valid()
      ensures tasks == old(tasks) && taskCount == old(taskCount)
      ensures response.Threw? || response.body.NullJson? ==> projects == old(projects)
      ensures response.Responded? && response.body.NoData? ==> projects == []
      ensures response.Responded? && response.body.ProjectArray? ==> projects == response.body.projects
    {
      match response
      case Threw =>
      case Responded(_, body) =>
        match body
        case NullJson =>
        case NoData => projects := [];
        case ProjectArray(ps) => projects := ps;
    }

    /** Loads the task collection. The ok flag is not consulted: any parsed body
        replaces the list through `data || []`. A thrown request keeps the prior
        list. The count is reported for whatever list results. */
    method FetchTasks(response: Outcome<TasksBody>)
      requires Valid()
      modifies this
      ensures Valid()
      ensures projects == old(projects)
      ensures response.Threw? ==> tasks == old(tasks)
      ensures response.Responded? && response.body.FalsyJson? ==> tasks == [] && taskCount == 0
      ensures response.Responded? && response.body.TaskArray? ==> tasks == response.body.tasks
    {
      match response
      case Threw =>
      case Responded(_, body) =>
        match body
        case FalsyJson => SetTasks([]);
        case TaskArray(ts) => SetTasks(ts);
    }

    /** Asks the server to set the status of task `taskId` to `newStatus`. Only an ok
        response changes the list, and then only the status of the matching tasks,
        which take the status the server returned, not `newStatus`; the other fields
        of the server's record are ignored. */
    method UpdateTaskStatus(taskId: Id, newStatus: string, response: Outcome<Task>)
      requires Valid()
      modifies this
      ensures Valid()
      ensures projects == old(projects)
      ensures |tasks| == |old(tasks)|
      ensures !(response.Responded? && response.ok) ==> tasks == old(tasks)
      ensures response.Responded? && response.ok ==>
        tasks == WithStatus(old(tasks), taskId, response.body.status)
    {
      if response.Responded? && response.ok {
        var updatedTask := response.body;
        SetTasks(WithStatus(tasks, taskId, updatedTask.status));
      }
    }

    /** The status button of the task at position `i`: it requests the next status
        in the cycle of that task's current status. Only an ok response changes the
        list, and then every task with that task's id takes the status the server
        returned; when the server confirms the requested status, the task shows it. */
    method ToggleStatus(i: nat, response: Outcome<Task>) returns (requested: string)
      requires Valid()
      requires i < |tasks|
      modifies this
      ensures Valid()
      ensures requested == NextStatus(old(tasks)[i].status)
      ensures projects == old(projects)
      ensures |tasks| == |old(tasks)|
      ensures !(response.Responded? && response.ok) ==> tasks == old(tasks)
      ensures response.Responded? && response.ok ==>
        tasks == WithStatus(old(tasks), old(tasks)[i].id, response.body.status)
      ensures response.Responded? && response.ok && response.body.status == requested ==>
        tasks[i] == old(tasks)[i].(status := requested)
    {
      var task := tasks[i];
      requested := NextStatus(task.status);
      UpdateTaskStatus(task.id, requested, response);
    }

    /** Deletes task `taskId`. Without the user's confirmation nothing happens; after
        it, only an ok response drops every task with that id. The count never
        rises. */
    method DeleteTask(taskId: Id, confirmed: bool, response: Outcome<()>)
      requires Valid()
      modifies this
      ensures Valid()
      ensures projects == old(projects)
      ensures taskCount <= old(taskCount)
      ensures !(confirmed && response.Responded? && response.ok) ==> tasks == old(tasks)
      ensures confirmed && response.Responded? && response.ok ==>
        tasks == Remove(old(tasks), taskId) &&
        |tasks| == |old(tasks)| - Matches(old(tasks), taskId)
    {
      if !confirmed {
        return;
      }
      if response.Responded? && response.ok {
        RemoveDropsMatches(tasks, taskId);
        RemoveCount(tasks, taskId);
        SetTasks(Remove(tasks, taskId));
      }
    }
  }
}

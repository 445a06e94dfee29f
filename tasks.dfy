/** The task records the task list keeps locally, and the pure transformations the
    list's state setters apply to them: the status cycle of the status button, the
    count of incomplete tasks, the merge of a server-confirmed status, and the
    removal of a deleted task. */
module Tasks {

  /** The server-assigned `_id` of a record; compared with `===`. */
  type Id = string

  const Pending: string := "Pending"
  const InProgress: string := "In Progress"
  const Completed: string := "Completed"

  /** The three named statuses, in the order the status button cycles through them. */
  const Statuses: seq<string> := [Pending, InProgress, Completed]

  /** A task record `{_id, name, priority, status}`. Priority and status are plain
      strings: nothing in the list checks them against the named values. */
  datatype Task = Task(id: Id, name: string, priority: string, status: string)

  /** A project record `{_id, name, description}`; the list only stores projects. */
  datatype Project = Project(id: Id, name: string, description: string)

  // ---------------------------------------------------------------------------
  // Status cycle
  // ---------------------------------------------------------------------------

  /** The status the status button asks for: "Pending" becomes "In Progress",
      "In Progress" becomes "Completed", and any other string becomes "Pending". */
  function NextStatus(status: string): (next: string)
    ensures next in Statuses
    ensures next != status
    ensures status != Pending && status != InProgress ==> next == Pending
  {
    if status == Pending then InProgress
    else if status == InProgress then Completed
    else Pending
  }

  /** The cycle follows the order of `Statuses`, wrapping from the last to the first. */
  lemma NextStatusFollowsCycle(k: nat)
    requires k < |Statuses|
    ensures NextStatus(Statuses[k]) == Statuses[(k + 1) % |Statuses|]
  {
  }

  /** Three presses of the status button bring a status back exactly when it is one
      of the three named statuses; any other string ends at "Completed". */
  lemma NextStatusThrice(status: string)
    ensures NextStatus(NextStatus(NextStatus(status))) == status <==> status in Statuses
    ensures status !in Statuses ==> NextStatus(NextStatus(NextStatus(status))) == Completed
  {
  }

  // ---------------------------------------------------------------------------
  // Incomplete count
  // ---------------------------------------------------------------------------

  predicate IsIncomplete(t: Task) {
    t.status != Completed
  }

  /** The tasks whose status is not "Completed", in list order. */
  function Incomplete(ts: seq<Task>): (r: seq<Task>)
    ensures |r| <= |ts|
    ensures forall t :: t in r <==> t in ts && IsIncomplete(t)
  {
    if ts == [] then []
    else if IsIncomplete(ts[0]) then [ts[0]] + Incomplete(ts[1..])
    else Incomplete(ts[1..])
  }

  /** The filter keeps every occurrence of an incomplete task and drops every
      occurrence of a completed one. */
  lemma {:induction false} IncompleteOccurrences(ts: seq<Task>, t: Task)
    ensures multiset(Incomplete(ts))[t] == if IsIncomplete(t) then multiset(ts)[t] else 0
  {
    if ts != [] {
      IncompleteOccurrences(ts[1..], t);
      assert ts == [ts[0]] + ts[1..];
    }
  }

  /** The incomplete tasks keep the relative order they have in the list. */
  lemma {:induction false} IncompleteKeepsOrder(ts: seq<Task>)
    ensures IsSubsequence(Incomplete(ts), ts)
  {
    if ts != [] {
      IncompleteKeepsOrder(ts[1..]);
      var r := Incomplete(ts);
      if IsIncomplete(ts[0]) {
        assert r[0] == ts[0] && r[1..] == Incomplete(ts[1..]);
      }
    }
  }

  /** The number reported through `setTaskCount`: how many tasks are not completed. */
  function IncompleteCount(ts: seq<Task>): (n: nat)
    ensures n <= |ts|
  {
    |Incomplete(ts)|
  }

  /** The count splits over a concatenation, so tasks appended to the list add
      exactly their own incomplete ones. */
  lemma {:induction false} IncompleteCountAppend(a: seq<Task>, b: seq<Task>)
    ensures IncompleteCount(a + b) == IncompleteCount(a) + IncompleteCount(b)
  {
    if a == [] {
      assert a + b == b;
    } else {
      assert (a + b)[1..] == a[1..] + b;
      IncompleteCountAppend(a[1..], b);
    }
  }

  /** The count is zero exactly when every task is completed, and equals the list
      length exactly when no task is completed. */
  lemma {:induction false} IncompleteCountExtremes(ts: seq<Task>)
    ensures IncompleteCount(ts) == 0 <==> forall i :: 0 <= i < |ts| ==> ts[i].status == Completed
    ensures IncompleteCount(ts) == |ts| <==> forall i :: 0 <= i < |ts| ==> ts[i].status != Completed
  {
    if ts != [] {
      IncompleteCountExtremes(ts[1..]);
      assert forall i :: 1 <= i < |ts| ==> ts[i] == ts[1..][i - 1];
    }
  }

  // ---------------------------------------------------------------------------
  // Server-confirmed status merge
  // ---------------------------------------------------------------------------

  /** The list after a confirmed status update: every task whose id is `id` takes
      `status`, every field other than the status is kept, and every other task is
      left as it was. */
  function WithStatus(ts: seq<Task>, id: Id, status: string): (r: seq<Task>)
    ensures |r| == |ts|
    ensures forall i :: 0 <= i < |ts| ==>
      r[i].id == ts[i].id && r[i].name == ts[i].name && r[i].priority == ts[i].priority
    ensures forall i :: 0 <= i < |ts| && ts[i].id != id ==> r[i] == ts[i]
    ensures forall i :: 0 <= i < |ts| && ts[i].id == id ==> r[i].status == status
  {
    if ts == [] then []
    else
      var head := if ts[0].id == id then ts[0].(status := status) else ts[0];
      [head] + WithStatus(ts[1..], id, status)
  }

  /** A merge for an id that no task has leaves the list as it was. */
  lemma WithStatusAbsentId(ts: seq<Task>, id: Id, status: string)
    requires forall i :: 0 <= i < |ts| ==> ts[i].id != id
    ensures WithStatus(ts, id, status) == ts
  {
  }

  /** Applying the same merge twice is the same as applying it once. */
  lemma WithStatusIdempotent(ts: seq<Task>, id: Id, status: string)
    ensures WithStatus(WithStatus(ts, id, status), id, status) == WithStatus(ts, id, status)
  {
  }

  /** A merged status that is not "Completed" never lowers the incomplete count,
      and a merged "Completed" never raises it. */
  lemma {:induction false} WithStatusCount(ts: seq<Task>, id: Id, status: string)
    ensures status != Completed ==> IncompleteCount(WithStatus(ts, id, status)) >= IncompleteCount(ts)
    ensures status == Completed ==> IncompleteCount(WithStatus(ts, id, status)) <= IncompleteCount(ts)
  {
    if ts != [] {
      var r := WithStatus(ts, id, status);
      assert r[1..] == WithStatus(ts[1..], id, status);
      WithStatusCount(ts[1..], id, status);
    }
  }

  /** Deleting a task after merging a status into it is the same as deleting it
      without the merge. */
  lemma {:induction false} RemoveAfterWithStatus(ts: seq<Task>, id: Id, status: string)
    ensures Remove(WithStatus(ts, id, status), id) == Remove(ts, id)
  {
    if ts != [] {
      var r := WithStatus(ts, id, status);
      assert r[1..] == WithStatus(ts[1..], id, status);
      RemoveAfterWithStatus(ts[1..], id, status);
    }
  }

  // ---------------------------------------------------------------------------
  // Confirmed delete
  // ---------------------------------------------------------------------------

  /** The list after a confirmed delete: every task whose id is `id` is dropped. */
  function Remove(ts: seq<Task>, id: Id): (r: seq<Task>)
    ensures |r| <= |ts|
    ensures forall t :: t in r <==> t in ts && t.id != id
  {
    if ts == [] then []
    else if ts[0].id == id then Remove(ts[1..], id)
    else [ts[0]] + Remove(ts[1..], id)
  }

  /** The number of tasks whose id is `id`. */
  function Matches(ts: seq<Task>, id: Id): (n: nat)
    ensures n <= |ts|
    ensures n == 0 <==> forall t :: t in ts ==> t.id != id
  {
    if ts == [] then 0
    else (if ts[0].id == id then 1 else 0) + Matches(ts[1..], id)
  }

  /** `r` can be obtained from `s` by dropping elements, without reordering. */
  ghost predicate IsSubsequence(r: seq<Task>, s: seq<Task>)
    decreases |s|
  {
    r == [] ||
    (s != [] &&
      ((r[0] == s[0] && IsSubsequence(r[1..], s[1..])) || IsSubsequence(r, s[1..])))
  }

  /** The delete drops exactly the matching tasks: the length shrinks by their
      number, and what remains keeps its relative order and its fields. */
  lemma {:induction false} RemoveDropsMatches(ts: seq<Task>, id: Id)
    ensures |Remove(ts, id)| == |ts| - Matches(ts, id)
    ensures IsSubsequence(Remove(ts, id), ts)
  {
    if ts != [] {
      RemoveDropsMatches(ts[1..], id);
      var r := Remove(ts, id);
      if ts[0].id != id {
        assert r[0] == ts[0] && r[1..] == Remove(ts[1..], id);
      }
    }
  }

  /** Removal distributes over concatenation, so the order of the surviving
      tasks is the order they had. */
  lemma {:induction false} RemoveAppend(a: seq<Task>, b: seq<Task>, id: Id)
    ensures Remove(a + b, id) == Remove(a, id) + Remove(b, id)
  {
    if a == [] {
      assert a + b == b;
    } else {
      assert (a + b)[1..] == a[1..] + b;
      RemoveAppend(a[1..], b, id);
    }
  }

  /** The delete leaves the list as it was exactly when no task has the id. */
  lemma {:induction false} RemoveNoopIff(ts: seq<Task>, id: Id)
    ensures Remove(ts, id) == ts <==> Matches(ts, id) == 0
  {
    RemoveDropsMatches(ts, id);
    if Matches(ts, id) == 0 && ts != [] {
      RemoveNoopIff(ts[1..], id);
    }
  }

  /** Deleting twice is deleting once. */
  lemma RemoveIdempotent(ts: seq<Task>, id: Id)
    ensures Remove(Remove(ts, id), id) == Remove(ts, id)
  {
    RemoveNoopIff(Remove(ts, id), id);
  }

  /** A delete never raises the incomplete count. */
  lemma {:induction false} RemoveCount(ts: seq<Task>, id: Id)
    ensures IncompleteCount(Remove(ts, id)) <= IncompleteCount(ts)
  {
    if ts != [] {
      RemoveCount(ts[1..], id);
      if ts[0].id != id {
        assert Remove(ts, id) == [ts[0]] + Remove(ts[1..], id);
        assert ([ts[0]] + Remove(ts[1..], id))[1..] == Remove(ts[1..], id);
      }
    }
  }

  /** The worked example of one pending task: its count is 1, and a confirmed
      move to "In Progress" keeps it at 1 and shows the new status. */
  lemma PendingTaskScenario()
    ensures var ts := [Task("t1", "X", "High", Pending)];
      IncompleteCount(ts) == 1 &&
      WithStatus(ts, "t1", InProgress) == [Task("t1", "X", "High", InProgress)] &&
      IncompleteCount(WithStatus(ts, "t1", InProgress)) == 1
  {
  }
}

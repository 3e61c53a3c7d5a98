/**
 * The task registry (class `TaskManager`, task_scheduler.py lines 28-84): a
 * dict from id to task that remembers insertion order. It is modelled by the
 * ids in insertion order (`keys`) and the map from id to task value (`tasks`).
 * Every `print` of the source is a returned status, and the tasks an
 * operation prints are returned as the lines `str(task)` gives.
 */
module Registry {
  import opened Wrappers
  import opened Dates
  import opened Text
  import opened Tasks
  import opened Ordering

  predicate Distinct(keys: seq<string>) {
    forall i, j | 0 <= i < j < |keys| :: keys[i] != keys[j]
  }

  /** `dict.values()`: the tasks in the order of their keys. */
  function Project(keys: seq<string>, m: map<string, TaskRecord>): seq<TaskRecord>
    requires forall k | k in keys :: k in m
  {
    seq(|keys|, i requires 0 <= i < |keys| => m[keys[i]])
  }

  function IndexOf(keys: seq<string>, k: string): (i: nat)
    requires k in keys
    ensures i < |keys| && keys[i] == k
  {
    if keys[0] == k then 0 else 1 + IndexOf(keys[1..], k)
  }

  /**
   * Deleting the key at position `i` from an order of distinct keys, and its
   * entry from the map, deletes position `i` from the values and keeps the
   * rest in order.
   */
  lemma ProjectRemove(keys: seq<string>, m: map<string, TaskRecord>, i: nat)
    requires Distinct(keys) && (forall k | k in keys :: k in m) && i < |keys|
    ensures var rest := keys[..i] + keys[i + 1..];
      && Distinct(rest)
      && (forall k | k in rest :: k != keys[i] && k in m - {keys[i]})
      && (forall k | k in keys && k != keys[i] :: k in rest)
      && Project(rest, m - {keys[i]}) == Project(keys, m)[..i] + Project(keys, m)[i + 1..]
  {
    var rest := keys[..i] + keys[i + 1..];
    assert forall j | 0 <= j < |rest| :: rest[j] == if j < i then keys[j] else keys[j + 1];
    forall k | k in keys && k != keys[i]
      ensures k in rest
    {
      var j :| 0 <= j < |keys| && keys[j] == k;
      assert rest[if j < i then j else j - 1] == k;
    }
  }

  // ---------------------------------------------------------------------------
  // Printing a sequence of tasks

  /**
   * `for task in ts: print(task)` printed `lines` and ended with `status`:
   * one line per task, in order, until the first task whose `__str__`
   * raises, where the loop stops with `AttributeError`.
   */
  predicate Printed(ts: seq<TaskRecord>, lines: seq<string>, status: Status) {
    && |lines| <= |ts|
    && (forall i | 0 <= i < |lines| :: ts[i].Render() == Some(lines[i]))
    && (status == Ok || status == AttributeError)
    && (status == Ok <==> |lines| == |ts|)
    && (status == AttributeError ==> ts[|lines|].Render().None?)
  }

  method PrintTasks(ts: seq<TaskRecord>) returns (lines: seq<string>, status: Status)
    ensures Printed(ts, lines, status)
  {
    lines := [];
    var i := 0;
    while i < |ts|
      invariant 0 <= i <= |ts| && |lines| == i
      invariant forall j | 0 <= j < i :: ts[j].Render() == Some(lines[j])
    {
      match ts[i].Render()
      case None =>
        return lines, AttributeError;
      case Some(line) =>
        lines := lines + [line];
      i := i + 1;
    }
    status := Ok;
  }

  /** The printed output is determined by the tasks: `Printed` has one solution. */
  lemma PrintedUnique(ts: seq<TaskRecord>, lines1: seq<string>, status1: Status, lines2: seq<string>, status2: Status)
    requires Printed(ts, lines1, status1) && Printed(ts, lines2, status2)
    ensures lines1 == lines2 && status1 == status2
  {
  }

  // ---------------------------------------------------------------------------
  // Search

  /** The test of `search_task`: the lower-cased keyword occurs in the lower-cased name or description. */
  predicate Matches(t: TaskRecord, keyword: string)
    ensures keyword == "" ==> Matches(t, keyword)
    ensures Matches(t, keyword) ==> |keyword| <= |t.name| || |keyword| <= |t.description|
  {
    ContainsEmpty(Lower(t.name));
    Contains(Lower(t.name), Lower(keyword)) || Contains(Lower(t.description), Lower(keyword))
  }

  /** The tasks of `ts` that match `keyword`, in their order in `ts`. */
  function Matching(ts: seq<TaskRecord>, keyword: string): (r: seq<TaskRecord>)
    ensures |r| <= |ts|
    ensures forall k | 0 <= k < |r| :: Matches(r[k], keyword)
  {
    if ts == [] then []
    else
      var last := ts[|ts| - 1];
      Matching(ts[..|ts| - 1], keyword) + if Matches(last, keyword) then [last] else []
  }

  /**
   * `Matching` picks out exactly the matching positions of `ts`, in
   * increasing order: the result is `ts` at the indices `idx`, and `idx` holds
   * every index whose task matches and no other.
   */
  lemma {:induction false} MatchingPositions(ts: seq<TaskRecord>, keyword: string) returns (idx: seq<int>)
    ensures |idx| == |Matching(ts, keyword)|
    ensures forall k | 0 <= k < |idx| :: 0 <= idx[k] < |ts| && Matching(ts, keyword)[k] == ts[idx[k]]
    ensures forall k, l | 0 <= k < l < |idx| :: idx[k] < idx[l]
    ensures forall i | 0 <= i < |ts| :: Matches(ts[i], keyword) <==> i in idx
  {
    if ts == [] {
      idx := [];
    } else {
      var n := |ts| - 1;
      var init := ts[..n];
      var prev := MatchingPositions(init, keyword);
      idx := if Matches(ts[n], keyword) then prev + [n] else prev;
      PositionsSelect(ts, keyword, prev, idx);
      PositionsMembership(ts, keyword, prev, idx);
    }
  }

  /** The step of `MatchingPositions`: the kept indices still select the matching tasks. */
  lemma PositionsSelect(ts: seq<TaskRecord>, keyword: string, prev: seq<int>, idx: seq<int>)
    requires ts != []
    requires |prev| == |Matching(ts[..|ts| - 1], keyword)|
    requires forall k | 0 <= k < |prev| ::
      0 <= prev[k] < |ts| - 1 && Matching(ts[..|ts| - 1], keyword)[k] == ts[..|ts| - 1][prev[k]]
    requires idx == if Matches(ts[|ts| - 1], keyword) then prev + [|ts| - 1] else prev
    ensures |idx| == |Matching(ts, keyword)|
    ensures forall k | 0 <= k < |idx| :: 0 <= idx[k] < |ts| && Matching(ts, keyword)[k] == ts[idx[k]]
  {
    var n := |ts| - 1;
    var init := ts[..n];
    var m := Matching(ts, keyword);
    assert m == Matching(init, keyword) + if Matches(ts[n], keyword) then [ts[n]] else [];
    forall k | 0 <= k < |idx|
      ensures 0 <= idx[k] < |ts| && m[k] == ts[idx[k]]
    {
      if k < |prev| {
        assert idx[k] == prev[k] && m[k] == Matching(init, keyword)[k];
        assert init[prev[k]] == ts[prev[k]];
      }
    }
  }

  /** The step of `MatchingPositions`: the kept indices are exactly the matching ones. */
  lemma PositionsMembership(ts: seq<TaskRecord>, keyword: string, prev: seq<int>, idx: seq<int>)
    requires ts != []
    requires forall k | 0 <= k < |prev| :: 0 <= prev[k] < |ts| - 1
    requires forall i | 0 <= i < |ts| - 1 :: Matches(ts[..|ts| - 1][i], keyword) <==> i in prev
    requires idx == if Matches(ts[|ts| - 1], keyword) then prev + [|ts| - 1] else prev
    ensures forall i | 0 <= i < |ts| :: Matches(ts[i], keyword) <==> i in idx
  {
    var n := |ts| - 1;
    forall i | 0 <= i < |ts|
      ensures Matches(ts[i], keyword) <==> i in idx
    {
      if i < n {
        assert ts[..n][i] == ts[i];
      } else {
        assert n !in prev;
      }
    }
  }

  /** The search ignores case: "DOCTOR" finds the task named "Doctor Appointment". */
  lemma MatchesIgnoringCase()
    ensures Matches(TaskRecord("2", "Doctor Appointment", "Annual check-up", NoDate, false), "DOCTOR")
  {
    var t := TaskRecord("2", "Doctor Appointment", "Annual check-up", NoDate, false);
    assert Lower("DOCTOR") == "doctor";
    assert Lower(t.name)[..6] == "doctor";
  }

  /** The empty keyword matches every task. */
  lemma {:induction false} EmptyKeywordMatchesAll(ts: seq<TaskRecord>)
    ensures Matching(ts, "") == ts
  {
    if ts != [] {
      var n := |ts| - 1;
      EmptyKeywordMatchesAll(ts[..n]);
      assert ts == ts[..n] + [ts[n]];
    }
  }

  // ---------------------------------------------------------------------------
  // Edit

  /**
   * `edit_task` on a present task: a supplied (truthy) name or description
   * replaces the old one, a supplied due date goes through `set_due_date`,
   * whose failure keeps the other edits.
   */
  function Edited(t: TaskRecord, name: Option<string>, description: Option<string>, dueText: Option<string>): (r: Updated)
    ensures r.task.id == t.id && r.task.isCompleted == t.isCompleted
    ensures r.task.name == (if Supplied(name) then name.value else t.name)
    ensures r.task.description == (if Supplied(description) then description.value else t.description)
    ensures !Supplied(dueText) ==> r.status == Ok && r.task.dueDate == t.dueDate
    ensures Supplied(dueText) ==> r.status == (if Parse(dueText.value).Some? then Ok else InvalidDateFormat)
    ensures Supplied(dueText) && Parse(dueText.value).Some? ==> r.task.dueDate == Parsed(Parse(dueText.value).value)
    ensures Supplied(dueText) && Parse(dueText.value).None? ==> r.task.dueDate == t.dueDate
  {
    var renamed := t.(name := if Supplied(name) then name.value else t.name,
                      description := if Supplied(description) then description.value else t.description);
    if Supplied(dueText) then renamed.SetDueDate(dueText.value) else Updated(renamed, Ok)
  }

  // ---------------------------------------------------------------------------
  // The registry

  class TaskManager {
    var keys: seq<string>
    var tasks: map<string, TaskRecord>

    /** Ids are unique, `keys` lists exactly the ids of `tasks`, and each task is filed under its own id. */
    ghost predicate Valid()
      reads this
    {
      && Distinct(keys)
      && (forall k :: k in keys <==> k in tasks)
      && (forall k | k in tasks :: tasks[k].id == k)
    }

    /** `self.tasks.values()`: the tasks in insertion order, with distinct ids. */
    function Entries(): (r: seq<TaskRecord>)
      reads this
      requires Valid()
      ensures |r| == |keys| && forall i | 0 <= i < |r| :: r[i].id == keys[i]
      ensures forall i, j | 0 <= i < j < |r| :: r[i].id != r[j].id
    {
      Project(keys, tasks)
    }

    constructor ()
      ensures Valid() && keys == [] && tasks == map[]
    {
      keys := [];
      tasks := map[];
    }

    /** `add_task(task)`: file a copy of the task under its id, unless the id is taken. */
    method AddTask(task: Task) returns (status: Status)
      requires Valid()
      modifies this
      ensures Valid()
      ensures status == (if task.id in old(tasks) then DuplicateId else Ok)
      ensures status == DuplicateId ==> keys == old(keys) && tasks == old(tasks)
      ensures status == Ok ==> keys == old(keys) + [task.id] && tasks == old(tasks)[task.id := task.Value()]
      ensures Entries() == if status == Ok then old(Entries()) + [task.Value()] else old(Entries())
    {
      if task.id in tasks {
        status := DuplicateId;
      } else {
        keys := keys + [task.id];
        tasks := tasks[task.id := task.Value()];
        status := Ok;
      }
    }

    /** `remove_task(id)`: delete the entry; the others keep their order. */
    method RemoveTask(id: string) returns (status: Status)
      requires Valid()
      modifies this
      ensures Valid()
      ensures status == (if id in old(tasks) then Ok else NotFound)
      ensures status == NotFound ==> keys == old(keys) && tasks == old(tasks)
      ensures status == Ok ==> tasks == old(tasks) - {id} && |keys| == |old(keys)| - 1
      ensures status == Ok ==>
        exists i | 0 <= i < |old(keys)| ::
          && old(keys)[i] == id
          && keys == old(keys)[..i] + old(keys)[i + 1..]
          && Entries() == old(Entries())[..i] + old(Entries())[i + 1..]
    {
      if id in tasks {
        var i := IndexOf(keys, id);
        ProjectRemove(keys, tasks, i);
        keys := keys[..i] + keys[i + 1..];
        tasks := tasks - {id};
        status := Ok;
      } else {
        status := NotFound;
      }
    }

    /** `edit_task(id, name, description, due_date)`: see `Edited`; an absent id changes nothing. */
    method EditTask(id: string, name: Option<string> := None, description: Option<string> := None,
                    dueDate: Option<string> := None)
      returns (status: Status)
      requires Valid()
      modifies this
      ensures Valid()
      ensures id !in old(tasks) ==> status == NotFound && keys == old(keys) && tasks == old(tasks)
      ensures id in old(tasks) ==>
        var e := Edited(old(tasks)[id], name, description, dueDate);
        keys == old(keys) && tasks == old(tasks)[id := e.task] && status == e.status
    {
      if id in tasks {
        var e := Edited(tasks[id], name, description, dueDate);
        tasks := tasks[id := e.task];
        status := e.status;
      } else {
        status := NotFound;
      }
    }

    /** `list_tasks()`: print every task in insertion order. */
    method ListTasks() returns (lines: seq<string>, status: Status)
      requires Valid()
      ensures Printed(Entries(), lines, status)
    {
      lines, status := PrintTasks(Entries());
    }

    /** `search_task(keyword)`: collect the matching tasks in order, then print them or report none. */
    method SearchTask(keyword: string) returns (found: seq<TaskRecord>, lines: seq<string>, status: Status)
      requires Valid()
      ensures found == Matching(Entries(), keyword)
      ensures found == [] ==> lines == [] && status == NoMatches
      ensures found != [] ==> Printed(found, lines, status)
    {
      ghost var entries := Entries();
      found := [];
      var i := 0;
      while i < |keys|
        invariant 0 <= i <= |keys|
        invariant found == Matching(entries[..i], keyword)
      {
        var t := tasks[keys[i]];
        assert entries[..i + 1][..i] == entries[..i];
        if Matches(t, keyword) {
          found := found + [t];
        }
        i := i + 1;
      }
      assert entries[..|keys|] == entries;
      if found == [] {
        lines, status := [], NoMatches;
      } else {
        lines, status := PrintTasks(found);
      }
    }

    /** `mark_incomplete(id)`: clear that task's flag; an absent id changes nothing. */
    method MarkIncomplete(id: string) returns (status: Status)
      requires Valid()
      modifies this
      ensures Valid()
      ensures id !in old(tasks) ==> status == NotFound && keys == old(keys) && tasks == old(tasks)
      ensures id in old(tasks) ==>
        status == Ok && keys == old(keys) && tasks == old(tasks)[id := old(tasks)[id].MarkIncomplete()]
    {
      if id in tasks {
        tasks := tasks[id := tasks[id].MarkIncomplete()];
        status := Ok;
      } else {
        status := NotFound;
      }
    }

    /**
     * `sort_tasks(sort_by)`: print the tasks stably sorted by due date or by
     * completion flag. The registry itself is not reordered.
     */
    method SortTasks(sortBy: string) returns (sorted: seq<TaskRecord>, lines: seq<string>, status: Status)
      requires Valid()
      ensures sortBy != "due_date" && sortBy != "completion_status" ==>
        sorted == [] && lines == [] && status == InvalidSortOption
      ensures sortBy == "completion_status" ==>
        sorted == Sort(Entries(), ByCompletion) && Printed(sorted, lines, status)
      ensures sortBy == "due_date" && SortsWithoutError(Entries(), ByDueDate) ==>
        sorted == Sort(Entries(), ByDueDate) && Printed(sorted, lines, status)
      ensures sortBy == "due_date" && !SortsWithoutError(Entries(), ByDueDate) ==>
        sorted == [] && lines == [] && status == TypeError
    {
      var field;
      if sortBy == "due_date" {
        field := ByDueDate;
      } else if sortBy == "completion_status" {
        field := ByCompletion;
      } else {
        return [], [], InvalidSortOption;
      }
      if !SortsWithoutError(Entries(), field) {
        return [], [], TypeError;
      }
      sorted := Sort(Entries(), field);
      lines, status := PrintTasks(sorted);
    }
  }
}

/**
 * The to-do list program: two global lists, `tasks` and `completed_tasks`,
 * changed in place by adding, deleting and completing tasks.  The keyboard
 * answers and the `datetime.now()` timestamps are parameters.
 */
module TodoList {
  import opened Common

  /** One task dict: its description, when it was added, when it was completed. */
  datatype Task = Task(description: string, dateAdded: string, dateCompleted: Option<string>)

  /** A line `listtasks` prints. */
  datatype Line =
    | NoTasks                                                         // "There are no tasks currently."
    | CurrentHeader                                                   // "Current tasks: "
    | PendingLine(index: nat, description: string, added: string)
    | CompletedHeader                                                 // "Completed tasks: "
    | DoneLine(index: nat, description: string, added: string, completed: Option<string>)

  /** The list with element i taken out (`list.pop(i)`). */
  function RemoveAt<T>(s: seq<T>, i: nat): (r: seq<T>)
    requires i < |s|
    ensures |r| == |s| - 1
    ensures forall j :: 0 <= j < i ==> r[j] == s[j]
    ensures forall j :: i <= j < |r| ==> r[j] == s[j + 1]
  {
    s[..i] + s[i + 1..]
  }

  class TodoList {
    var tasks: seq<Task>
    var completedTasks: seq<Task>

    /** Pending tasks carry no completion date; completed ones carry one. */
    ghost predicate Valid()
      reads this
    {
      && (forall i :: 0 <= i < |tasks| ==> tasks[i].dateCompleted.None?)
      && (forall i :: 0 <= i < |completedTasks| ==> completedTasks[i].dateCompleted.Some?)
    }

    /** Both lists start empty. */
    constructor ()
      ensures Valid() && tasks == [] && completedTasks == []
    {
      tasks := [];
      completedTasks := [];
    }

    /** `addtask`: append one pending task with the given description and time. */
    method AddTask(description: string, now: string)
      requires Valid()
      modifies this
      ensures Valid()
      ensures tasks == old(tasks) + [Task(description, now, None)]
      ensures completedTasks == old(completedTasks)
    {
      var entry := Task(description, now, None);
      tasks := tasks + [entry];
    }

    /**
     * `listtasks`: the current tasks numbered from 0 (or a note that there are
     * none), then, if any, the completed tasks numbered from 0.
     */
    function ListTasks(): (lines: seq<Line>)
      reads this
      ensures var p := if tasks == [] then 1 else 1 + |tasks|;
        && |lines| == p + (if completedTasks == [] then 0 else 1 + |completedTasks|)
        && (tasks == [] <==> lines[0] == NoTasks)
        && (tasks != [] ==> lines[0] == CurrentHeader)
        && (forall i :: 0 <= i < |tasks| ==>
              lines[1 + i] == PendingLine(i, tasks[i].description, tasks[i].dateAdded))
        && (completedTasks != [] ==> lines[p] == CompletedHeader)
        && (forall i :: 0 <= i < |completedTasks| ==>
              var t := completedTasks[i];
              lines[p + 1 + i] == DoneLine(i, t.description, t.dateAdded, t.dateCompleted))
    {
      var pending := tasks;
      var done := completedTasks;
      var current :=
        if pending == [] then [NoTasks]
        else [CurrentHeader] + seq(|pending|, i requires 0 <= i < |pending| =>
                                   PendingLine(i, pending[i].description, pending[i].dateAdded));
      var completed :=
        if done == [] then []
        else [CompletedHeader] + seq(|done|, i requires 0 <= i < |done| =>
                                     DoneLine(i, done[i].description, done[i].dateAdded, done[i].dateCompleted));
      current + completed
    }

    /**
     * `deletetask`: `choice` is the parsed answer (None when `int()` raises
     * ValueError).  An index within 0 <= i < len(tasks) removes exactly that
     * task, keeping the order of the rest; anything else changes nothing.
     */
    method DeleteTask(choice: Option<int>) returns (removed: Option<Task>)
      requires Valid()
      modifies this
      ensures Valid()
      ensures removed.Some? <==> choice.Some? && 0 <= choice.value < |old(tasks)|
      ensures removed.Some? ==>
                removed.value == old(tasks)[choice.value] && tasks == RemoveAt(old(tasks), choice.value)
      ensures removed.None? ==> tasks == old(tasks)
      ensures completedTasks == old(completedTasks)
    {
      match choice {
        case None =>
          removed := None;
        case Some(taskToDelete) =>
          if 0 <= taskToDelete < |tasks| {
            removed := Some(tasks[taskToDelete]);
            tasks := RemoveAt(tasks, taskToDelete);
          } else {
            removed := None;
          }
      }
    }

    /**
     * `donetasks`: a valid index moves that task from `tasks` to the end of
     * `completed_tasks`, stamped with the completion time and otherwise
     * unchanged; anything else changes nothing.  The total number of tasks
     * is kept either way.
     */
    method DoneTask(choice: Option<int>, now: string) returns (moved: Option<Task>)
      requires Valid()
      modifies this
      ensures Valid()
      ensures moved.Some? <==> choice.Some? && 0 <= choice.value < |old(tasks)|
      ensures moved.Some? ==>
                var t := old(tasks)[choice.value];
                && moved.value == Task(t.description, t.dateAdded, Some(now))
                && tasks == RemoveAt(old(tasks), choice.value)
                && completedTasks == old(completedTasks) + [moved.value]
      ensures moved.None? ==> tasks == old(tasks) && completedTasks == old(completedTasks)
      ensures |tasks| + |completedTasks| == old(|tasks| + |completedTasks|)
    {
      match choice {
        case None =>
          moved := None;
        case Some(taskToMark) =>
          if 0 <= taskToMark < |tasks| {
            var completedTask := tasks[taskToMark];
            tasks := RemoveAt(tasks, taskToMark);
            completedTask := completedTask.(dateCompleted := Some(now));
            completedTasks := completedTasks + [completedTask];
            moved := Some(completedTask);
          } else {
            moved := None;
          }
      }
    }
  }
}

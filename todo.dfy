/** A model of the to-do list kept in a Streamlit session: an ordered list
    of task records, the text-input buffer from which new tasks are taken,
    the three callbacks that change them (add, delete, toggle) and the
    "all done" check that decides whether the celebration is shown. */
module TodoList {

  /** One entry of the list. A new task always starts as not completed. */
  datatype Task = Task(description: string, completed: bool)

  // ---------------------------------------------------------------------
  // Specification functions: what each callback does to the list of tasks
  // ---------------------------------------------------------------------

  /** The list after `add_task` with the given input: the input becomes a
      new, not completed task at the end, unless it is the empty string
      (which Python treats as false), in which case nothing is added. */
  function Appended(tasks: seq<Task>, input: string): (r: seq<Task>)
    ensures input != "" ==> |r| == |tasks| + 1 && r[..|tasks|] == tasks
                            && r[|tasks|] == Task(input, false)
    ensures input == "" ==> r == tasks
  {
    if input != "" then tasks + [Task(input, false)] else tasks
  }

  /** The list after `delete_task(i)`: the task at `i` is gone and every
      later task has moved down one place. */
  function Removed(tasks: seq<Task>, i: nat): (r: seq<Task>)
    requires i < |tasks|
    ensures |r| == |tasks| - 1
    ensures forall j :: 0 <= j < i ==> r[j] == tasks[j]
    ensures forall j :: i <= j < |r| ==> r[j] == tasks[j + 1]
    ensures multiset(r) + multiset{tasks[i]} == multiset(tasks)
  {
    assert tasks == tasks[..i] + [tasks[i]] + tasks[i + 1..];
    tasks[..i] + tasks[i + 1..]
  }

  /** The list after `toggle_task_completion(i)`: the task at `i` keeps its
      description and its completion flag is negated; nothing else moves. */
  function Toggled(tasks: seq<Task>, i: nat): (r: seq<Task>)
    requires i < |tasks|
    ensures |r| == |tasks|
    ensures r[i].description == tasks[i].description
    ensures r[i].completed == !tasks[i].completed
    ensures forall j :: 0 <= j < |tasks| && j != i ==> r[j] == tasks[j]
  {
    tasks[i := tasks[i].(completed := !tasks[i].completed)]
  }

  /** Python's `all(task["completed"] for task in tasks)`: a scan from the
      front that stops at the first task not completed. */
  function AllCompleted(tasks: seq<Task>): (r: bool)
    ensures r <==> forall j :: 0 <= j < |tasks| ==> tasks[j].completed
  {
    if tasks == [] then true
    else tasks[0].completed && AllCompleted(tasks[1..])
  }

  /** Whether the balloons and the success message appear: the list is
      non-empty and every task in it is completed. */
  function Celebrates(tasks: seq<Task>): (r: bool)
    ensures r <==> |tasks| > 0 && forall j :: 0 <= j < |tasks| ==> tasks[j].completed
  {
    tasks != [] && AllCompleted(tasks)
  }

  /** Whether the page shows the "no tasks yet" notice instead of the list
      (the list is falsy exactly when it is empty). The page is then in
      exactly one of three states: the notice, the celebration, or a list
      with at least one task still open. */
  function ShowsEmptyNotice(tasks: seq<Task>): (r: bool)
    ensures r ==> !Celebrates(tasks)
    ensures !r <==> Celebrates(tasks) || exists j :: 0 <= j < |tasks| && !tasks[j].completed
  {
    tasks == []
  }

  // ---------------------------------------------------------------------
  // Properties relating the operations
  // ---------------------------------------------------------------------

  /** Toggling the same task twice restores the list exactly. */
  lemma ToggleTwice(tasks: seq<Task>, i: nat)
    requires i < |tasks|
    ensures Toggled(Toggled(tasks, i), i) == tasks
  {
  }

  /** Deleting the task that an add just appended undoes the add. */
  lemma DeleteUndoesAdd(tasks: seq<Task>, input: string)
    requires input != ""
    ensures Removed(Appended(tasks, input), |tasks|) == tasks
  {
  }

  /** A successful add always hides the celebration: the new task is not
      completed. */
  lemma AddStopsCelebration(tasks: seq<Task>, input: string)
    requires input != ""
    ensures !Celebrates(Appended(tasks, input))
  {
  }

  /** Deleting a task from a fully completed list keeps the celebration,
      unless the list becomes empty. */
  lemma DeleteKeepsCelebration(tasks: seq<Task>, i: nat)
    requires i < |tasks|
    requires Celebrates(tasks)
    ensures Celebrates(Removed(tasks, i)) <==> |tasks| > 1
  {
  }

  /** A toggle makes the celebration appear exactly when the toggled task
      was the only one not yet completed. */
  lemma ToggleCelebration(tasks: seq<Task>, i: nat)
    requires i < |tasks|
    ensures Celebrates(Toggled(tasks, i)) <==>
              !tasks[i].completed
              && forall j :: 0 <= j < |tasks| && j != i ==> tasks[j].completed
  {
  }

  // ---------------------------------------------------------------------
  // The session state and the callbacks that change it in place
  // ---------------------------------------------------------------------

  /** The two entries of the session state the page uses: `tasks`, which
      exists only once the script has initialised it, and the buffer of the
      text field whose key is `new_task_input`. The ghost counters record
      how many tasks were ever added and deleted. */
  class Session {
    var hasTasks: bool
    var tasks: seq<Task>
    var newTaskInput: string
    ghost var added: nat
    ghost var deleted: nat

    /** The list holds exactly the tasks added and not yet deleted, and it
        is empty while it has not been created. The counters change in the
        same branches as the list's length, so this records the bookkeeping
        invariant of the data model rather than a further guarantee. */
    ghost predicate Valid()
      reads this
    {
      |tasks| + deleted == added
      && (!hasTasks ==> tasks == [] && added == 0)
    }

    /** A fresh session: no `tasks` entry yet and an empty input field. */
    constructor ()
      ensures Valid()
      ensures !hasTasks && tasks == [] && newTaskInput == ""
      ensures added == 0 && deleted == 0
    {
      hasTasks := false;
      tasks := [];
      newTaskInput := "";
      added, deleted := 0, 0;
    }

    /** The script's first step: create an empty list when the session has
        none; an existing list is left as it is. */
    method InitTasks()
      requires Valid()
      modifies this
      ensures Valid() && hasTasks
      ensures !old(hasTasks) ==> tasks == []
      ensures old(hasTasks) ==> tasks == old(tasks)
      ensures newTaskInput == old(newTaskInput)
      ensures added == old(added) && deleted == old(deleted)
    {
      if !hasTasks {
        hasTasks := true;
        tasks := [];
      }
    }

    /** The text field writes what the user typed into its keyed buffer. */
    method SetInput(text: string)
      requires Valid()
      modifies this`newTaskInput
      ensures Valid() && newTaskInput == text
    {
      newTaskInput := text;
    }

    /** `add_task`: a non-empty input becomes a new, not completed task at
        the end of the list and the input is cleared; an empty input
        changes nothing. */
    method AddTask()
      requires Valid() && hasTasks
      modifies this
      ensures Valid() && hasTasks
      ensures tasks == Appended(old(tasks), old(newTaskInput))
      ensures old(newTaskInput) != "" ==>
                |tasks| == |old(tasks)| + 1
                && tasks[|old(tasks)|] == Task(old(newTaskInput), false)
                && newTaskInput == ""
                && added == old(added) + 1
      ensures old(newTaskInput) == "" ==>
                tasks == old(tasks) && newTaskInput == "" && added == old(added)
      ensures deleted == old(deleted)
    {
      var description := newTaskInput;
      if description != "" {
        tasks := tasks + [Task(description, false)];
        newTaskInput := "";
        added := added + 1;
      }
    }

    /** `delete_task(i)`: remove the task at position `i`; later tasks
        shift down one place. */
    method DeleteTask(i: nat)
      requires Valid() && hasTasks
      requires i < |tasks|
      modifies this
      ensures Valid() && hasTasks
      ensures tasks == Removed(old(tasks), i)
      ensures newTaskInput == old(newTaskInput)
      ensures added == old(added) && deleted == old(deleted) + 1
    {
      tasks := tasks[..i] + tasks[i + 1..];
      deleted := deleted + 1;
    }

    /** `toggle_task_completion(i)`: negate the completion flag of the task
        at position `i` and nothing else. */
    method ToggleTaskCompletion(i: nat)
      requires Valid() && hasTasks
      requires i < |tasks|
      modifies this`tasks
      ensures Valid()
      ensures tasks == Toggled(old(tasks), i)
    {
      tasks := tasks[i := tasks[i].(completed := !tasks[i].completed)];
    }

    /** The check at the end of every run of the script. */
    function ShowsCelebration(): (r: bool)
      reads this
      requires hasTasks
      ensures r <==> |tasks| > 0 && forall j :: 0 <= j < |tasks| ==> tasks[j].completed
    {
      Celebrates(tasks)
    }
  }
}

# To-do list session model

A Dafny model of the single-page to-do list app in `streamlit_app.py`. The app
keeps two things in the user's session: an ordered list of tasks, each a
description and a completed flag, and the buffer of the text field keyed
`new_task_input`. Three callbacks change them in place:

- `add_task` appends the typed text as a new, not completed task and clears
  the field, but only when the text is not empty.
- `delete_task(i)` removes the task at position `i`.
- `toggle_task_completion(i)` flips the completed flag of that task.

At the end of every run the page celebrates when the list is non-empty and
every task in it is completed.

`todo.dfy` holds one module, `TodoList`:

- the `Task` datatype;
- one specification function per callback (`Appended`, `Removed`, `Toggled`);
- the completion check (`AllCompleted`, `Celebrates`);
- lemmas relating the operations;
- the `Session` class. Its fields are the session entries. Its methods are
  the callbacks and update those fields in place. Each method's postcondition
  ties the new list to the matching specification function.

`Session` also carries two ghost counters, for tasks added and for tasks
deleted. Its invariant `Valid` states that the list length always equals
tasks added minus tasks deleted.

## Model

| member | source | states |
|---|---|---|
| `TodoList.Appended` | streamlit_app.py:23-27 | a non-empty input yields the old list unchanged followed by exactly one task `Task(input, false)`, length + 1; an empty input yields the list unchanged |
| `TodoList.Removed` | streamlit_app.py:34 | length shrinks by one, tasks before `i` stay in place, tasks after `i` move down one index, and the result holds the same tasks minus the removed one (multiset) |
| `TodoList.Toggled` | streamlit_app.py:39 | same length; the task at `i` keeps its description and has its completed flag negated; every other task is unchanged |
| `TodoList.AllCompleted` | streamlit_app.py:102 | the recursive scan modelling `all(...)` is true exactly when every task is completed (true on the empty list) |
| `TodoList.Celebrates` | streamlit_app.py:102 | the celebration shows iff the list is non-empty and every task is completed |
| `TodoList.ShowsEmptyNotice` | streamlit_app.py:60-97 | the "no tasks yet" notice never shows together with the celebration, and it is absent exactly when the celebration shows or some task is still open, so the page is always in exactly one of these three states |
| `TodoList.ToggleTwice` | streamlit_app.py:39 | toggling the same index twice restores the original list |
| `TodoList.DeleteUndoesAdd` | streamlit_app.py:23-34 | deleting the task that a successful add just appended gives back the list from before the add |
| `TodoList.AddStopsCelebration` | streamlit_app.py:27 | after a successful add the celebration never shows, because the new task is not completed |
| `TodoList.DeleteKeepsCelebration` | streamlit_app.py:34 | deleting from a fully completed list keeps the celebration iff at least one task remains |
| `TodoList.ToggleCelebration` | streamlit_app.py:39 | after a toggle the celebration shows iff the toggled task was not completed and every other task was |
| `TodoList.Session.constructor` | streamlit_app.py:13-16 | a new session has no task list yet and an empty input buffer |
| `TodoList.Session.InitTasks` | streamlit_app.py:16-17 | creates an empty list only when none exists; an existing list, the input and the counters are untouched |
| `TodoList.Session.SetInput` | streamlit_app.py:47-52 | the text field stores the typed text in the `new_task_input` buffer and changes nothing else |
| `TodoList.Session.AddTask` | streamlit_app.py:21-29 | the new list is `Appended(old list, old input)`; on a non-empty input one task `Task(input, false)` is added at the end and the input becomes ""; on an empty input the list and the input are unchanged; the add counter keeps `Valid` |
| `TodoList.Session.DeleteTask` | streamlit_app.py:32-34 | for `0 <= i < |tasks|`, the new list is `Removed(old list, i)`, so it is one shorter and later tasks shift down; the input is unchanged; the delete counter keeps `Valid` |
| `TodoList.Session.ToggleTaskCompletion` | streamlit_app.py:37-39 | for `0 <= i < |tasks|`, the new list is `Toggled(old list, i)`, so only that task's flag is negated; only the `tasks` field may change |
| `TodoList.Session.ShowsCelebration` | streamlit_app.py:102 | on the session's list: true iff the list is non-empty and every task is completed |

## Left out

- All rendering: page setup, title, columns, checkboxes, buttons, markdown, the info notice and the balloons (streamlit_app.py:6-10, 47-57, 64-97, 103-104). These are presentation through the UI library. Only the conditions that choose what is shown are modelled (`ShowsEmptyNotice`, `Celebrates`).
- The framework's rerun model and session persistence. Each callback is one atomic step on the `Session` object. The callbacks require that the list exists, because widgets, and so callbacks, appear only after a run of the script has initialised it.
- Widget keys `complete_{index}` and `delete_{index}`, and whether they go stale after a delete (streamlit_app.py:73, 93). This is the framework's widget identity, not list logic.
- `TodoList.Session.DeleteTask`, `TodoList.Session.ToggleTaskCompletion`: Python's negative indices and the `IndexError` on an index out of range are not modelled. The callers pass only `enumerate` indices (streamlit_app.py:62), so the index is a `nat` below the list length.
- Tasks are Python dictionaries, mutable objects held by the list. The model treats them as values. No dictionary is shared between two list positions, since each one is created fresh by `add_task`, so no aliasing is lost.
- The HTML strike-through and the unescaped interpolation of a description into markup (streamlit_app.py:82). These are display only.

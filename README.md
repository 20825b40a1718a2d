# ListaTareas: a Dafny model of the task list and its file format

ListaTareas is a small Swing to-do list. Its window keeps a list model
(`modeloLista`) of `Tarea` objects. Each object holds a description and a
completion flag. At start the window loads the list from `tareas.txt`. After
every add, remove or complete action it rewrites the whole file, one line
`descripcion:completada` per task.

This project models three things:

- the `Tarea` record (`tasks.dfy`);
- the line format that `guardarTareas` writes and `cargarTareas` reads back,
  as a pair of functions with a round-trip theorem (`task_file.dfy`);
- the list model: its load loop, its save loop and the three button actions
  (`task_list.dfy`).

The Java library calls the parsing depends on are written out in
`java_text.dfy`:

- `String.split(":", 2)` splits at the first `:` only and keeps an empty
  trailing field;
- `String.trim` strips characters up to U+0020;
- `Boolean.parseBoolean` is true only for the whole text "true", in any case.

Files are modelled as their sequence of lines: `seq<string>`.

Modules:

- `Wrappers`: `Option`.
- `JavaText`: the string library operations above.
- `Tasks`: the value `TaskRecord(description, completed)` and the class `Task`.
  `Task` is `Tarea`: a mutable object, so toggling a task taken from the list
  changes the object the list holds.
- `TaskFile`: `SerializeLine`, `ParseLine`, `SerializeAll` and `ParseAll`,
  with the lemmas on the format.
- `TaskListModel`: the class `TaskList`. It holds `items: seq<Task>`, a
  sequence of object references like `DefaultListModel<Tarea>`. Every object
  in it is distinct (`Valid`), and `Contents()` gives its values.

The window's widgets become parameters and results:
- the text field's content is a parameter of `AddAction`;
- the selected index is a parameter of `RemoveAction` and `ToggleAction`;
- the lines a save writes are returned, `None` when the action saves nothing;
- the file read at start is an `Option<seq<string>>`.

Four facts about the code that are easy to miss:

- **A description that contains `:` always loads as not completed.**
  `parseBoolean` must match all of the text after the first `:`
  (src/ListaTareasGUI.java:135-139). That text still holds the `:` written
  before the flag, so it is never `true` (`DelimiterInDescriptionIsLossy`).
- **A read error part-way through the file keeps the tasks already
  appended** (src/ListaTareasGUI.java:133-146). The loop adds each task as
  soon as its line is read, and the `catch` removes nothing. The model takes
  the lines read before the error, or before the end of the file, as its
  input.
- **`:true` loads with an empty description.** Only the add button rejects
  an empty text (src/ListaTareasGUI.java:63-64). A line whose first character
  is `:` loads a task with an empty description (`EdgeLineExamples`).
- **Index -1 is checked and only shows a warning**
  (src/ListaTareasGUI.java:88-96 and 105-115). With no selection, the remove
  and complete buttons change nothing and save nothing.

## Model

| member | source | states |
|---|---|---|
| `JavaText.IndexOf` | src/ListaTareasGUI.java:135 | the index found holds the first `:` of the line, and there is none exactly when the line has no `:` |
| `JavaText.SplitFirst` | src/ListaTareasGUI.java:135 | `split(":", 2)` gives one field, the whole line, exactly when there is no `:`; otherwise two fields whose join around one `:` is the line, the first with no `:` |
| `JavaText.SplitFirstOfJoin` | src/ListaTareasGUI.java:135 | splitting `p + ":" + q` with no `:` in `p` gives `[p, q]`, with `q` kept even when empty or when it holds more `:` |
| `JavaText.TrimStart` | src/ListaTareasGUI.java:63 | the result is a suffix of the text, everything dropped is at most U+0020, and the result starts with a character above U+0020 or is empty |
| `JavaText.TrimEnd` | src/ListaTareasGUI.java:63 | the result is a prefix of the text, everything dropped is at most U+0020, and the result ends with a character above U+0020 or is empty |
| `JavaText.Trim` | src/ListaTareasGUI.java:63 | the trimmed text is the front of what `TrimStart` leaves, so a middle slice of the text; it is empty exactly when every character is at most U+0020, and otherwise starts and ends with a character above U+0020 |
| `JavaText.TrimKeepsTrimmed` | src/ListaTareasGUI.java:63 | trimming changes nothing in a text that neither starts nor ends with such a character |
| `JavaText.ParseBooleanSpellings` | src/ListaTareasGUI.java:138 | `parseBoolean` is true exactly for the 4-letter text t/T, r/R, u/U, e/E: no prefix match, and "yes", "1" and "" are false |
| `Tasks.Task.constructor` | src/Tarea.java:5-8 | a new task has the given description and is not completed |
| `Tasks.Task.GetDescription` | src/Tarea.java:10-12 | returns the current description without changing the task |
| `Tasks.Task.IsCompleted` | src/Tarea.java:14-16 | returns the current flag without changing the task |
| `Tasks.Task.Toggle` | src/Tarea.java:18-20 | the flag is negated in place and the description is unchanged |
| `Tasks.Task.ToString` | src/Tarea.java:23-25 | a task is shown by its description alone |
| `Tasks.ToggleTwice` | src/Tarea.java:18-20 | toggling the same object twice restores its description and flag |
| `TaskFile.SerializeLine` | src/ListaTareasGUI.java:164 | a task's line is its description, then one `:`, then `true` or `false` in lower case |
| `TaskFile.ParseLine` | src/ListaTareasGUI.java:135-139 | a line with no `:` (the empty line too) loads nothing; otherwise the description is the text before the first `:` and the flag is `parseBoolean` of all the text after it |
| `TaskFile.SerializeAll` | src/ListaTareasGUI.java:162-166 | saving writes one line per task, the line of task `i` at position `i`, so there are as many lines as tasks |
| `TaskFile.ParseAll` | src/ListaTareasGUI.java:133-143 | loading gives at most one task per line, and a task from every line exactly when every line holds a `:` |
| `TaskFile.ParseAllAppend` | src/ListaTareasGUI.java:133-143 | the lines load one after another: loading `a + b` gives the tasks of `a` followed by those of `b` |
| `TaskFile.ParseAllOne` | src/ListaTareasGUI.java:133-143 | a one-line file loads that line's task, or nothing |
| `TaskFile.SkipsLineWithoutDelimiter` | src/ListaTareasGUI.java:135-136 | a line with no `:` is skipped, and the lines around it still load in their order |
| `TaskFile.ParseAllContents` | src/ListaTareasGUI.java:133-143 | a task is loaded exactly when some line of the file parses to it |
| `TaskFile.ParseLineOfJoin` | src/ListaTareasGUI.java:135-139 | `p + ":" + q` with no `:` in `p` loads as description `p`, with flag `parseBoolean(q)` |
| `TaskFile.LineRoundTrip` | src/ListaTareasGUI.java:135-139 | a task whose description has no `:` loads back from its own line unchanged |
| `TaskFile.RoundTrip` | src/ListaTareasGUI.java:133-166 | when no description has a `:`, loading the saved lines gives back the same tasks in the same order |
| `TaskFile.LineHasNoTerminator` | src/ListaTareasGUI.java:164-165 | a saved line holds a line terminator only if its description does |
| `TaskFile.SavedLinesAreSingleLines` | src/ListaTareasGUI.java:162-166 | when no description holds a line terminator, no saved line does, so each line is read back as one line |
| `TaskFile.FileRoundTrip` | src/ListaTareasGUI.java:133-166 | with neither `:` nor a line terminator in any description, the saved lines are single lines and load back as the list |
| `TaskFile.DelimiterInDescriptionIsLossy` | src/ListaTareasGUI.java:135-139 | a description with a `:` loads back cut at its first `:` and always not completed, so it never round-trips |
| `TaskFile.NoteCallBackExample` | src/ListaTareasGUI.java:135-139 | a completed `"note: call back"` loads back as an open task `"note"` |
| `TaskFile.FlagSpellingExamples` | src/ListaTareasGUI.java:138-139 | `a:TRUE` and `a:True` load completed |
| `TaskFile.OtherFlagExamples` | src/ListaTareasGUI.java:138-139 | `a:yes`, `a:1` and `a:` load with the flag false |
| `TaskFile.EdgeLineExamples` | src/ListaTareasGUI.java:135-139 | `:true` loads as a completed task with an empty description; the empty line and `just text` load nothing |
| `TaskListModel.TaskOfRecord` | src/ListaTareasGUI.java:137-140 | a loaded task is a new object made open with the description, then toggled when the flag read true |
| `TaskListModel.TaskList.constructor` | src/ListaTareasGUI.java:25-52 | the list created at :25 is filled by the call to `cargarTareas` (:128-155) at :52: the window starts with an empty list when the file cannot be opened, and otherwise with the tasks of the lines read, all new objects |
| `TaskListModel.TaskList.Load` | src/ListaTareasGUI.java:133-143 | the loop appends the tasks of all the lines, in order, after the tasks already there; the objects already in the list stay where they were, and every other object is new |
| `TaskListModel.TaskList.LoadLine` | src/ListaTareasGUI.java:135-141 | one line with a `:` appends its task as one new object at the end, with the earlier objects kept in place; a line without one leaves the list exactly as it was |
| `TaskListModel.TaskList.Save` | src/ListaTareasGUI.java:158-166 | the loop writes exactly the lines `SerializeAll` gives for the current list |
| `TaskListModel.TaskList.Append` | src/ListaTareasGUI.java:66 | `addElement` puts the object at the end, with the earlier tasks unchanged |
| `TaskListModel.TaskList.RemoveAt` | src/ListaTareasGUI.java:89 | `remove(k)` deletes exactly position `k` and keeps the others in order |
| `TaskListModel.TaskList.ToggleAt` | src/ListaTareasGUI.java:106-107 | toggling the shared object at position `k` flips only that position's flag; the list holds the same objects |
| `TaskListModel.TaskList.AddAction` | src/ListaTareasGUI.java:63-69 | when the trimmed text is not empty, a new open task with that text is appended, the field is cleared and the list is saved; otherwise nothing changes and nothing is saved |
| `TaskListModel.TaskList.RemoveAction` | src/ListaTareasGUI.java:87-96 | with index -1 nothing changes or is saved; otherwise exactly the selected task is removed and the list is saved |
| `TaskListModel.TaskList.ToggleAction` | src/ListaTareasGUI.java:104-115 | with index -1 nothing changes or is saved; otherwise only the selected task's flag flips and the list is saved |
| `TaskListModel.AddSaveLoadScenario` | src/ListaTareasGUI.java:63-69 | with no file, adding any field text whose trimmed form is not empty and has no `:`, then reloading the saved lines, gives one open task with the trimmed text |
| `TaskListModel.ReopenedList` | src/ListaTareasGUI.java:133-166 | a window started on the saved lines of tasks with no `:` shows those tasks |
| `TaskListModel.AppendNew` | src/ListaTareasGUI.java:65-66 | a new open task with the given text joins the end of the list, and every other object in the list was already there |
| `TaskListModel.ThreeTasks` | src/ListaTareasGUI.java:65-66 | a new list after adding a, b and c holds three new open tasks a, b, c |
| `TaskListModel.ToggleThenRemoveScenario` | src/ListaTareasGUI.java:87-107 | for any texts a, b, c, completing position 1 and then removing position 0 leaves b completed and c open |

## Left out

- The Swing window, panels, buttons and layout, the `JOptionPane` warnings
  shown when nothing is selected, and `repaint`. These are presentation only.
  The model keeps what matters here: with no selection, nothing changes.
- The Enter-key listener. It only calls the add button's handler:
  `AddAction`.
- The window-close listener. It only calls `guardarTareas`: `Save`.
- `TareaCellRenderer`. It is presentation only: fonts, colours and the
  checkmark prefix.
- Opening, reading, writing and closing `tareas.txt`, and the exception
  handling around them. This is file I/O.
  - A missing or unreadable file is the input `None`.
  - A read error part-way is the sequence of lines read before it.
  - A failed write is not modelled. The code only shows an error dialog and
    keeps the changed list, so every action that saves returns the lines it
    would write.
- How `BufferedReader.readLine` splits the text at `\n`, `\r` or `\r\n`, and
  the separator `newLine` writes. These are library behaviour. The round trip
  instead needs no line terminator in any description, and
  `SavedLinesAreSingleLines` proves that condition holds of every saved line.
- The file's character encoding. `FileReader` and `FileWriter` use the
  platform's default charset, which writes a character it cannot encode as
  `?`. The model's file is its lines as text, so the round trip also needs
  every description to be encodable in that charset.
- Java strings are sequences of UTF-16 code units, while a Dafny `string`
  is a sequence of Unicode scalar values, so a lone surrogate has no
  counterpart here. No property of the model depends on the difference.
- Case folding in `equalsIgnoreCase` is modelled for ASCII letters only.
  This is exact for comparing with "true", because no other character
  upper-cases to T, R, U or E.
- TaskListModel.TaskList.RemoveAction and ToggleAction require the index to
  be -1 or a valid position. That is what `JList.getSelectedIndex` returns.
  Any other index would throw in `DefaultListModel`.

/**
 * The window's list model (`modeloLista` of `ListaTareasGUI`): an ordered
 * list of references to task objects, filled from the file's lines at start,
 * written back as lines after every change, and changed by the add, remove
 * and complete buttons. The Swing widgets around it are not modelled: the
 * text field's content and the selected index are parameters, and each
 * action returns the lines it saves.
 */
module TaskListModel {
  import opened Wrappers
  import opened JavaText
  import opened Tasks
  import opened TaskFile

  /** The values of a sequence of task objects, in order. */
  function Records(s: seq<Task>): (r: seq<TaskRecord>)
    reads s
    ensures |r| == |s|
    ensures forall i :: 0 <= i < |s| ==> r[i] == s[i].View()
  {
    seq(|s|, i reads s requires 0 <= i < |s| => s[i].View())
  }

  /** Concatenation is associative. */
  lemma AppendAssoc<T>(a: seq<T>, b: seq<T>, c: seq<T>)
    ensures a + b + c == a + (b + c)
  {
  }

  /** No task object appears twice in `s`. */
  ghost predicate Distinct(s: seq<Task>) {
    forall i, j :: 0 <= i < j < |s| ==> s[i] != s[j]
  }

  /** Appending an object not yet in the sequence keeps it free of repeats. */
  lemma DistinctPush(s: seq<Task>, t: Task)
    requires Distinct(s) && t !in s
    ensures Distinct(s + [t])
  {
  }

  /** Removing one position keeps a sequence free of repeats. */
  lemma DistinctRemove(s: seq<Task>, k: nat)
    requires Distinct(s) && k < |s|
    ensures Distinct(s[..k] + s[k + 1..])
  {
    var r := s[..k] + s[k + 1..];
    forall i, j | 0 <= i < j < |r| ensures r[i] != r[j] {
      var i', j' := if i < k then i else i + 1, if j < k then j else j + 1;
      assert r[i] == s[i'] && r[j] == s[j'];
    }
  }

  /** One more task object adds its value at the end. */
  lemma RecordsPush(s: seq<Task>, t: Task)
    ensures Records(s + [t]) == Records(s) + [t.View()]
  {
    var lhs, rhs := Records(s + [t]), Records(s) + [t.View()];
    forall i | 0 <= i < |lhs| ensures lhs[i] == rhs[i] {
      if i < |s| {
        assert (s + [t])[i] == s[i];
      }
    }
  }

  /** Dropping position `k` drops that task's value. */
  lemma RecordsRemove(s: seq<Task>, k: nat)
    requires k < |s|
    ensures Records(s[..k] + s[k + 1..]) == Records(s)[..k] + Records(s)[k + 1..]
  {
    var r := s[..k] + s[k + 1..];
    var lhs, rhs := Records(r), Records(s)[..k] + Records(s)[k + 1..];
    forall i | 0 <= i < |lhs| ensures lhs[i] == rhs[i] {
      var i' := if i < k then i else i + 1;
      assert r[i] == s[i'];
      assert lhs[i] == r[i].View();
      assert rhs[i] == Records(s)[i'] == s[i'].View();
    }
  }

  /**
   * The task object a loaded line gives: created open with the description,
   * then toggled once when the flag read as true.
   */
  method TaskOfRecord(r: TaskRecord) returns (t: Task)
    ensures fresh(t) && t.View() == r
  {
    t := new Task(r.description);
    if r.completed {
      t.Toggle();
    }
  }

  class TaskList {
    var items: seq<Task>

    /** Every task object appears once, so changing one task changes one position. */
    ghost predicate Valid()
      reads this
    {
      Distinct(items)
    }

    /** The tasks as values, in display order. */
    function Contents(): seq<TaskRecord>
      reads this, items
    {
      Records(items)
    }

    /**
     * The window's start: an empty list, then the lines of the task file, if
     * it could be opened. `file` is `None` when the file is missing or cannot
     * be opened; otherwise it holds the lines read before the end of the file
     * or a read error, whichever came first.
     */
    constructor (file: Option<seq<string>>)
      ensures Valid()
      ensures file.None? ==> Contents() == []
      ensures file.Some? ==> Contents() == ParseAll(file.value)
      ensures forall t :: t in items ==> fresh(t)
    {
      items := [];
      new;
      if file.Some? {
        Load(file.value);
      }
    }

    /** `cargarTareas`' loop: appends a new task for every line that holds the delimiter, in line order. */
    method Load(lines: seq<string>)
      requires Valid()
      modifies this
      ensures Valid()
      ensures old(items) <= items
      ensures Contents() == old(Contents()) + ParseAll(lines)
      ensures forall t :: t in items ==> t in old(items) || fresh(t)
    {
      ghost var prior := Contents();
      ghost var loaded: seq<TaskRecord> := [];
      var i := 0;
      while i < |lines|
        invariant 0 <= i <= |lines|
        invariant Valid()
        invariant old(items) <= items
        invariant loaded == ParseAll(lines[..i])
        invariant Contents() == prior + loaded
        invariant forall t :: t in items ==> t in old(items) || fresh(t)
      {
        ParsePrefixStep(lines, i);
        LoadLine(lines[i]);
        if ParseLine(lines[i]).Some? {
          AppendAssoc(prior, loaded, [ParseLine(lines[i]).value]);
          loaded := loaded + [ParseLine(lines[i]).value];
        }
        i := i + 1;
      }
      assert lines[..i] == lines;
    }

    /** One turn of `cargarTareas`' loop: the line's task, if it has one, joins the end of the list. */
    method LoadLine(line: string)
      requires Valid()
      modifies this
      ensures Valid()
      ensures old(items) <= items
      ensures ParseLine(line).None? ==> items == old(items) && Contents() == old(Contents())
      ensures ParseLine(line).Some? ==>
        && |items| == |old(items)| + 1
        && fresh(items[|old(items)|])
        && Contents() == old(Contents()) + [ParseLine(line).value]
      ensures forall t :: t in items ==> t in old(items) || fresh(t)
    {
      var parsed := ParseLine(line);
      if parsed.Some? {
        var t := TaskOfRecord(parsed.value);
        assert t !in items;
        RecordsPush(items, t);
        DistinctPush(items, t);
        items := items + [t];
      }
    }

    /** `guardarTareas`' loop: the file's new lines, one per task, in list order. */
    method Save() returns (lines: seq<string>)
      ensures lines == SerializeAll(Contents())
    {
      lines := [];
      var i := 0;
      while i < |items|
        invariant 0 <= i <= |items|
        invariant lines == SerializeAll(Contents()[..i])
      {
        var t := items[i];
        var d := t.GetDescription();
        var c := t.IsCompleted();
        SerializePrefixStep(Contents(), i);
        lines := lines + [d + [Delimiter] + BoolText(c)];
        i := i + 1;
      }
      assert Contents()[..i] == Contents();
    }

    /** `addElement`: the task object joins the end of the list. */
    method Append(t: Task)
      requires Valid() && t !in items
      modifies this
      ensures Valid()
      ensures items == old(items) + [t]
      ensures Contents() == old(Contents()) + [t.View()]
    {
      RecordsPush(items, t);
      DistinctPush(items, t);
      items := items + [t];
    }

    /** `remove(k)`: the task at position `k` leaves the list, the others keep their order. */
    method RemoveAt(k: nat)
      requires Valid() && k < |items|
      modifies this
      ensures Valid()
      ensures items == old(items)[..k] + old(items)[k + 1..]
      ensures Contents() == old(Contents())[..k] + old(Contents())[k + 1..]
    {
      DistinctRemove(items, k);
      RecordsRemove(items, k);
      items := items[..k] + items[k + 1..];
    }

    /** `getElementAt(k).toggleCompletada()`: the shared object at position `k` is toggled, and only it. */
    method ToggleAt(k: nat)
      requires Valid() && k < |items|
      modifies items[k]
      ensures Valid() && items == old(items)
      ensures Contents() == old(Contents())[k := old(Contents())[k].(completed := !old(Contents())[k].completed)]
    {
      var t := items[k];
      t.Toggle();
      forall i | 0 <= i < |items| && i != k ensures items[i].View() == old(items[i].View()) {
        assert items[i] != t;
      }
    }

    /**
     * The add button: the field's text, trimmed, becomes a new open task at
     * the end of the list when it is not empty; the field is then cleared and
     * the list saved. Otherwise nothing changes and nothing is saved.
     */
    method AddAction(text: string) returns (field: string, saved: Option<seq<string>>)
      requires Valid()
      modifies this
      ensures Valid()
      ensures Trim(text) == [] ==> items == old(items) && field == text && saved == None
      ensures Trim(text) != [] ==>
        && |items| == |old(items)| + 1
        && items[..|old(items)|] == old(items)
        && fresh(items[|old(items)|])
        && Contents() == old(Contents()) + [TaskRecord(Trim(text), false)]
        && field == ""
        && saved == Some(SerializeAll(Contents()))
    {
      var trimmed := Trim(text);
      if trimmed != [] {
        var t := new Task(trimmed);
        assert Contents() == old(Contents());
        Append(t);
        assert Contents() == old(Contents()) + [TaskRecord(trimmed, false)];
        field := "";
        var lines := Save();
        saved := Some(lines);
      } else {
        field := text;
        saved := None;
      }
    }

    /**
     * The remove button: with a selection, the selected task leaves the list,
     * the others keep their order, and the list is saved; with none (index
     * -1) nothing changes and nothing is saved.
     */
    method RemoveAction(selected: int) returns (saved: Option<seq<string>>)
      requires Valid()
      requires selected == -1 || 0 <= selected < |items|
      modifies this
      ensures Valid()
      ensures selected == -1 ==> items == old(items) && saved == None
      ensures selected != -1 ==>
        && items == old(items)[..selected] + old(items)[selected + 1..]
        && Contents() == old(Contents())[..selected] + old(Contents())[selected + 1..]
        && saved == Some(SerializeAll(Contents()))
    {
      if selected != -1 {
        RemoveAt(selected);
        var lines := Save();
        saved := Some(lines);
      } else {
        saved := None;
      }
    }

    /**
     * The complete button: with a selection, the selected task object,
     * shared with the list, has its flag negated, every other task stays as it
     * was, and the list is saved; with none (index -1) nothing changes.
     */
    method ToggleAction(selected: int) returns (saved: Option<seq<string>>)
      requires Valid()
      requires selected == -1 || 0 <= selected < |items|
      modifies set t | t in items
      ensures Valid() && items == old(items)
      ensures selected == -1 ==> Contents() == old(Contents()) && saved == None
      ensures selected != -1 ==>
        && Contents() == old(Contents())[selected := old(Contents())[selected].(completed := !old(Contents())[selected].completed)]
        && saved == Some(SerializeAll(Contents()))
    {
      if selected != -1 {
        ToggleAt(selected);
        var lines := Save();
        saved := Some(lines);
      } else {
        saved := None;
      }
    }
  }

  /**
   * With no task file, adding any field text whose trimmed form is not empty
   * and has no delimiter (such as "  buy milk ") saves one line, and a window
   * started on the saved lines shows that one open task, with the trimmed text.
   */
  method AddSaveLoadScenario(text: string) returns (reloaded: seq<TaskRecord>)
    requires Trim(text) != [] && Delimiter !in Trim(text)
    ensures reloaded == [TaskRecord(Trim(text), false)]
  {
    var records := [TaskRecord(Trim(text), false)];
    var list := new TaskList(None);
    var field, saved := list.AddAction(text);
    assert list.Contents() == records;
    RoundTrip(records);
    var again := new TaskList(saved);
    reloaded := again.Contents();
  }

  /** A window started on the saved lines of `ts` shows `ts`, when no description has the delimiter. */
  method ReopenedList(ts: seq<TaskRecord>) returns (list: TaskList)
    requires forall i :: 0 <= i < |ts| ==> Delimiter !in ts[i].description
    ensures fresh(list) && list.Valid() && list.Contents() == ts
    ensures forall t :: t in list.items ==> fresh(t)
  {
    RoundTrip(ts);
    list := new TaskList(Some(SerializeAll(ts)));
  }

  /** `addElement(new Tarea(d))`: a new open task `d` joins the end of `list`. */
  method AppendNew(list: TaskList, d: string)
    requires list.Valid()
    modifies list
    ensures list.Valid()
    ensures list.Contents() == old(list.Contents()) + [TaskRecord(d, false)]
    ensures forall t :: t in list.items ==> t in old(list.items) || fresh(t)
  {
    var t := new Task(d);
    list.Append(t);
  }

  /** A window with no task file after `a`, `b` and `c` were added: three new open tasks. */
  method ThreeTasks(a: string, b: string, c: string) returns (list: TaskList)
    ensures fresh(list) && list.Valid()
    ensures forall t :: t in list.items ==> fresh(t)
    ensures list.Contents() == [TaskRecord(a, false), TaskRecord(b, false), TaskRecord(c, false)]
  {
    list := new TaskList(None);
    AppendNew(list, a);
    AppendNew(list, b);
    AppendNew(list, c);
    assert [TaskRecord(a, false)] + [TaskRecord(b, false)] + [TaskRecord(c, false)]
      == [TaskRecord(a, false), TaskRecord(b, false), TaskRecord(c, false)];
  }

  /**
   * From a list of three new tasks a, b, c, completing the second and then
   * removing the first leaves b completed and c open, whatever the texts.
   */
  method ToggleThenRemoveScenario(a: string, b: string, c: string) returns (remaining: seq<TaskRecord>)
    ensures remaining == [TaskRecord(b, true), TaskRecord(c, false)]
  {
    var start := [TaskRecord(a, false), TaskRecord(b, false), TaskRecord(c, false)];
    var toggled := [TaskRecord(a, false), TaskRecord(b, true), TaskRecord(c, false)];
    assert start[1 := start[1].(completed := !start[1].completed)] == toggled;
    assert toggled[..0] + toggled[1..] == [TaskRecord(b, true), TaskRecord(c, false)];
    var list := ThreeTasks(a, b, c);
    var saved := list.ToggleAction(1);
    saved := list.RemoveAction(0);
    remaining := list.Contents();
  }
}

/**
 * The format of `tareas.txt`: one line per task, `description:completed`,
 * written by `guardarTareas` and read back by `cargarTareas`. The file is
 * modelled as the sequence of its lines; reading and writing it is not.
 */
module TaskFile {
  import opened Wrappers
  import opened JavaText
  import opened Tasks

  /** The separator between a task's description and its flag. */
  const Delimiter: char := ':'

  /** The text Java's string concatenation gives a `boolean`. */
  function BoolText(b: bool): string {
    if b then "true" else "false"
  }

  /** A description with no line terminator is written and read back as one line. */
  predicate NoLineTerminator(s: string) {
    '\n' !in s && '\r' !in s
  }

  /** The line saved for one task: the description, the delimiter, then `true` or `false` in lower case. */
  function SerializeLine(t: TaskRecord): (line: string)
    ensures |line| == |t.description| + 1 + |BoolText(t.completed)|
    ensures line[..|t.description|] == t.description
    ensures line[|t.description|] == Delimiter
    ensures line[|t.description| + 1..] == BoolText(t.completed)
  {
    t.description + [Delimiter] + BoolText(t.completed)
  }

  /**
   * The task one loaded line gives. A line with no delimiter, the empty line
   * among them, gives none. Otherwise the line is cut at its FIRST delimiter:
   * the text before it is the description, and the flag is set exactly when
   * all of the text after it reads as `true` ignoring case.
   */
  function ParseLine(line: string): (r: Option<TaskRecord>)
    ensures r.None? <==> Delimiter !in line
    ensures r.Some? ==>
      var d := r.value.description;
      |d| < |line| && line[..|d|] == d && line[|d|] == Delimiter && Delimiter !in d
      && r.value.completed == ParseBoolean(line[|d| + 1..])
  {
    var parts := SplitFirst(line, Delimiter);
    if |parts| == 2 then
      assert line[..|parts[0]|] == parts[0];
      assert line[|parts[0]| + 1..] == parts[1];
      Some(TaskRecord(parts[0], ParseBoolean(parts[1])))
    else
      None
  }

  /** The lines saved for a list: one per task, in list order. */
  function SerializeAll(ts: seq<TaskRecord>): (lines: seq<string>)
    ensures |lines| == |ts|
    ensures forall i :: 0 <= i < |ts| ==> lines[i] == SerializeLine(ts[i])
  {
    if ts == [] then [] else [SerializeLine(ts[0])] + SerializeAll(ts[1..])
  }

  /** Saving one more task adds its line at the end. */
  lemma SerializeAllPush(ts: seq<TaskRecord>, t: TaskRecord)
    ensures SerializeAll(ts + [t]) == SerializeAll(ts) + [SerializeLine(t)]
  {
    var lhs, rhs := SerializeAll(ts + [t]), SerializeAll(ts) + [SerializeLine(t)];
    forall i | 0 <= i < |lhs| ensures lhs[i] == rhs[i] {
      if i < |ts| {
        assert (ts + [t])[i] == ts[i];
      }
    }
  }

  /** The lines of the first `i + 1` tasks are those of the first `i` and the line of task `i`. */
  lemma SerializePrefixStep(ts: seq<TaskRecord>, i: nat)
    requires i < |ts|
    ensures SerializeAll(ts[..i + 1]) ==
      SerializeAll(ts[..i]) + [ts[i].description + [Delimiter] + BoolText(ts[i].completed)]
  {
    assert ts[..i + 1] == ts[..i] + [ts[i]];
    SerializeAllPush(ts[..i], ts[i]);
  }

  /**
   * The tasks loaded from a file's lines, in line order, skipping the lines
   * with no delimiter. Every line is kept exactly when every line has a delimiter.
   */
  function ParseAll(lines: seq<string>): (ts: seq<TaskRecord>)
    ensures |ts| <= |lines|
    ensures |ts| == |lines| <==> forall i :: 0 <= i < |lines| ==> Delimiter in lines[i]
  {
    if lines == [] then []
    else
      assert forall i :: 1 <= i < |lines| ==> lines[i] == lines[1..][i - 1];
      match ParseLine(lines[0])
      case Some(t) => [t] + ParseAll(lines[1..])
      case None => ParseAll(lines[1..])
  }

  /** Loading two runs of lines one after the other loads the tasks of each, in order. */
  lemma {:induction false} ParseAllAppend(a: seq<string>, b: seq<string>)
    ensures ParseAll(a + b) == ParseAll(a) + ParseAll(b)
  {
    if a == [] {
      assert a + b == b;
    } else {
      assert (a + b)[0] == a[0];
      assert (a + b)[1..] == a[1..] + b;
      ParseAllAppend(a[1..], b);
    }
  }

  /** A file of one line loads that line's task, if it has one. */
  lemma ParseAllOne(line: string)
    ensures ParseAll([line]) == match ParseLine(line) case Some(t) => [t] case None => []
  {
    assert [line][1..] == [];
  }

  /** Loading the first `i + 1` lines loads the first `i`, then line `i`'s task if it has one. */
  lemma ParsePrefixStep(lines: seq<string>, i: nat)
    requires i < |lines|
    ensures ParseLine(lines[i]).None? ==> ParseAll(lines[..i + 1]) == ParseAll(lines[..i])
    ensures ParseLine(lines[i]).Some? ==>
      ParseAll(lines[..i + 1]) == ParseAll(lines[..i]) + [ParseLine(lines[i]).value]
  {
    assert lines[..i + 1] == lines[..i] + [lines[i]];
    ParseAllAppend(lines[..i], [lines[i]]);
    ParseAllOne(lines[i]);
  }

  /** A line with no delimiter adds nothing, and the lines around it load as if it were absent. */
  lemma SkipsLineWithoutDelimiter(before: seq<string>, line: string, after: seq<string>)
    requires Delimiter !in line
    ensures ParseAll(before + [line] + after) == ParseAll(before) + ParseAll(after)
  {
    var front := before + [line];
    ParseAllAppend(front, after);
    ParseAllAppend(before, [line]);
    ParseAllOne(line);
    assert ParseAll(front) == ParseAll(before);
  }

  /** Every loaded task is the task of some line of the file, and each line's task shows up. */
  lemma {:induction false} ParseAllContents(lines: seq<string>)
    ensures forall t :: t in ParseAll(lines) <==>
      exists i :: 0 <= i < |lines| && ParseLine(lines[i]) == Some(t)
  {
    if lines != [] {
      ParseAllContents(lines[1..]);
      forall t
        ensures t in ParseAll(lines) <==> exists i :: 0 <= i < |lines| && ParseLine(lines[i]) == Some(t)
      {
        if exists i :: 0 <= i < |lines| && ParseLine(lines[i]) == Some(t) {
          var i :| 0 <= i < |lines| && ParseLine(lines[i]) == Some(t);
          if i > 0 {
            assert lines[1..][i - 1] == lines[i];
          }
        }
        if t in ParseAll(lines) && ParseLine(lines[0]) != Some(t) {
          var j :| 0 <= j < |lines[1..]| && ParseLine(lines[1..][j]) == Some(t);
          assert lines[j + 1] == lines[1..][j];
        }
      }
    }
  }

  /** A line built from a delimiter-free prefix, the delimiter and a rest loads as that prefix and the rest's flag. */
  lemma ParseLineOfJoin(prefix: string, rest: string)
    requires Delimiter !in prefix
    ensures ParseLine(prefix + [Delimiter] + rest) == Some(TaskRecord(prefix, ParseBoolean(rest)))
  {
    SplitFirstOfJoin(prefix, Delimiter, rest);
  }

  /** A task whose description has no delimiter loads back from its line unchanged. */
  lemma LineRoundTrip(t: TaskRecord)
    requires Delimiter !in t.description
    ensures ParseLine(SerializeLine(t)) == Some(t)
  {
    ParseLineOfJoin(t.description, BoolText(t.completed));
    assert ParseBoolean("true");
    assert !ParseBoolean("false");
  }

  /**
   * Saving then loading gives back the list, task for task and in order, when
   * no description contains the delimiter.
   */
  lemma {:induction false} RoundTrip(ts: seq<TaskRecord>)
    requires forall i :: 0 <= i < |ts| ==> Delimiter !in ts[i].description
    ensures ParseAll(SerializeAll(ts)) == ts
  {
    if ts != [] {
      var lines := SerializeAll(ts);
      assert lines[1..] == SerializeAll(ts[1..]);
      LineRoundTrip(ts[0]);
      RoundTrip(ts[1..]);
    }
  }

  /** A saved line holds a line terminator only if its description does. */
  lemma LineHasNoTerminator(t: TaskRecord)
    requires NoLineTerminator(t.description)
    ensures NoLineTerminator(SerializeLine(t))
  {
    var d := t.description;
    var flag := BoolText(t.completed);
    var line := SerializeLine(t);
    forall k | 0 <= k < |line| ensures line[k] != '\n' && line[k] != '\r' {
      if k < |d| {
        assert line[k] == line[..|d|][k] == d[k];
      } else if k > |d| {
        assert line[k] == line[|d| + 1..][k - |d| - 1] == flag[k - |d| - 1];
      }
    }
  }

  /** No saved line holds a line terminator when no description does, so each is read back as one line. */
  lemma SavedLinesAreSingleLines(ts: seq<TaskRecord>)
    requires forall i :: 0 <= i < |ts| ==> NoLineTerminator(ts[i].description)
    ensures forall i :: 0 <= i < |ts| ==> NoLineTerminator(SerializeAll(ts)[i])
  {
    forall i | 0 <= i < |ts| ensures NoLineTerminator(SerializeAll(ts)[i]) {
      LineHasNoTerminator(ts[i]);
    }
  }

  /**
   * The whole file round trip: with neither the delimiter nor a line
   * terminator in any description, the saved lines are single lines and
   * loading them gives back the list.
   */
  lemma FileRoundTrip(ts: seq<TaskRecord>)
    requires forall i :: 0 <= i < |ts| ==>
      Delimiter !in ts[i].description && NoLineTerminator(ts[i].description)
    ensures forall i :: 0 <= i < |ts| ==> NoLineTerminator(SerializeAll(ts)[i])
    ensures ParseAll(SerializeAll(ts)) == ts
  {
    SavedLinesAreSingleLines(ts);
    RoundTrip(ts);
  }

  /**
   * The format's limitation: a description holding the delimiter does not
   * survive. It loads back cut at its own first delimiter, and always as not
   * completed, because the text after that delimiter still holds the
   * delimiter written before the flag, so it can never read as `true`.
   */
  lemma DelimiterInDescriptionIsLossy(t: TaskRecord)
    requires Delimiter in t.description
    ensures ParseLine(SerializeLine(t)) ==
      Some(TaskRecord(SplitFirst(t.description, Delimiter)[0], false))
    ensures ParseLine(SerializeLine(t)) != Some(t)
  {
    var parts := SplitFirst(t.description, Delimiter);
    var flag := BoolText(t.completed);
    var rest := parts[1] + [Delimiter] + flag;
    calc {
      SerializeLine(t);
      t.description + [Delimiter] + flag;
      (parts[0] + [Delimiter] + parts[1]) + [Delimiter] + flag;
      parts[0] + [Delimiter] + rest;
    }
    ParseLineOfJoin(parts[0], rest);
    assert |rest| != 4;
    assert |parts[0]| < |t.description|;
  }

  /** The documented lossy case: a completed `"note: call back"` loads as an open task `"note"`. */
  lemma NoteCallBackExample()
    ensures ParseLine(SerializeLine(TaskRecord("note: call back", true))) ==
      Some(TaskRecord("note", false))
  {
    var d := "note: call back";
    SplitFirstOfJoin("note", Delimiter, " call back");
    assert d == "note" + [Delimiter] + " call back";
    DelimiterInDescriptionIsLossy(TaskRecord(d, true));
  }

  /** Upper-case and capitalised `true` after the delimiter load a completed task. */
  lemma FlagSpellingExamples()
    ensures ParseLine("a:TRUE") == Some(TaskRecord("a", true))
    ensures ParseLine("a:True") == Some(TaskRecord("a", true))
  {
    assert "a:TRUE" == "a" + [Delimiter] + "TRUE";
    ParseLineOfJoin("a", "TRUE");
    ParseBooleanSpellings("TRUE");
    assert "a:True" == "a" + [Delimiter] + "True";
    ParseLineOfJoin("a", "True");
    ParseBooleanSpellings("True");
  }

  /** `yes`, `1` or nothing after the delimiter loads an open task. */
  lemma OtherFlagExamples()
    ensures ParseLine("a:yes") == Some(TaskRecord("a", false))
    ensures ParseLine("a:1") == Some(TaskRecord("a", false))
    ensures ParseLine("a:") == Some(TaskRecord("a", false))
  {
    assert "a:yes" == "a" + [Delimiter] + "yes";
    ParseLineOfJoin("a", "yes");
    assert "a:1" == "a" + [Delimiter] + "1";
    ParseLineOfJoin("a", "1");
    assert "a:" == "a" + [Delimiter] + "";
    ParseLineOfJoin("a", "");
  }

  /** An empty description loads as such, while an empty line or a line without the delimiter loads nothing. */
  lemma EdgeLineExamples()
    ensures ParseLine(":true") == Some(TaskRecord("", true))
    ensures ParseLine("") == None
    ensures ParseLine("just text") == None
  {
    assert ":true" == "" + [Delimiter] + "true";
    ParseLineOfJoin("", "true");
    assert ParseBoolean("true");
    assert forall i :: 0 <= i < |"just text"| ==> "just text"[i] != Delimiter;
  }
}

/**
 The to-do list manager: a list of task texts, kept in a text file that
 holds one task per line. The file is a string here (`None` when it does
 not exist), so saving and loading form a serialiser/parser pair.
 */
module TodoList {
  import opened Options
  import opened PyText

  /** What every task the program keeps looks like: non-empty, stripped, on one line. */
  predicate WellFormedTask(t: string) {
    t != [] && Trimmed(t) && NoLineBreak(t)
  }

  predicate WellFormed(tasks: seq<string>) {
    forall i | 0 <= i < |tasks| :: WellFormedTask(tasks[i])
  }

  /** The file text `save_tasks` writes: every task followed by a newline. */
  function Save(tasks: seq<string>): (text: string)
    ensures text == [] <==> tasks == []
    ensures text != [] ==> text[|text| - 1] == '\n'
    ensures WellFormed(tasks) ==> NoCarriageReturn(text)
  {
    if tasks == [] then []
    else
      var rest := Save(tasks[1..]);
      assert NoLineBreak(tasks[0]) ==> NoCarriageReturn(tasks[0] + "\n");
      tasks[0] + "\n" + rest
  }

  /** The stripped, non-blank lines, in file order. */
  function Kept(lines: seq<string>): (tasks: seq<string>)
    ensures |tasks| <= |lines|
    ensures forall i | 0 <= i < |tasks| :: tasks[i] != [] && Trimmed(tasks[i])
    ensures forall i | 0 <= i < |lines| && Strip(lines[i]) != [] :: Strip(lines[i]) in tasks
    ensures forall t | t in tasks :: exists i | 0 <= i < |lines| :: t == Strip(lines[i])
  {
    if lines == [] then []
    else
      var t := Strip(lines[0]);
      var head := if t != [] then [t] else [];
      var rest := Kept(lines[1..]);
      assert forall i | 1 <= i < |lines| :: lines[i] == lines[1..][i - 1];
      assert forall u | u in head + rest :: u in head || u in rest;
      head + rest
  }

  /** Lines are kept one at a time: the tasks of two stretches of lines follow each other. */
  lemma {:induction false} KeptAppend(a: seq<string>, b: seq<string>)
    ensures Kept(a + b) == Kept(a) + Kept(b)
  {
    if a == [] {
      assert a + b == b;
    } else {
      assert (a + b)[0] == a[0];
      assert (a + b)[1..] == a[1..] + b;
      KeptAppend(a[1..], b);
    }
  }

  /** Lines as a text-mode file yields them keep as tasks on one line each. */
  lemma {:induction false} KeptOneLine(lines: seq<string>)
    requires forall i | 0 <= i < |lines| :: NoCarriageReturn(lines[i]) && NewlineOnlyAtEnd(lines[i])
    ensures WellFormed(Kept(lines))
  {
    if lines != [] {
      var t := Strip(lines[0]);
      StripReadLine(lines[0]);
      KeptOneLine(lines[1..]);
      var head := if t != [] then [t] else [];
      var rest := Kept(lines[1..]);
      assert Kept(lines) == head + rest;
      forall i | 0 <= i < |head + rest|
        ensures WellFormedTask((head + rest)[i])
      {
        if i >= |head| {
          assert (head + rest)[i] == rest[i - |head|];
        }
      }
    }
  }

  /**
   `load_tasks`: a missing file gives the empty list; otherwise every line
   read in text mode is stripped and blank lines are dropped. Whatever the
   file holds, the result is well formed.
   */
  function Load(file: Option<string>): (tasks: seq<string>)
    ensures file.None? ==> tasks == []
    ensures WellFormed(tasks)
  {
    match file
    case None => []
    case Some(text) =>
      KeptOneLine(Lines(Translate(text)));
      Kept(Lines(Translate(text)))
  }

  /**
   A file's first line, ended by `\n`, `\r\n` or a lone `\r`, loads as its
   stripped text unless that is blank, followed by whatever the rest loads as.
   */
  lemma LoadFirstLine(t: string, sep: string, rest: string)
    requires NoLineBreak(t)
    requires sep == "\n" || sep == "\r\n" || (sep == "\r" && (rest == [] || rest[0] != '\n'))
    ensures Load(Some(t + sep + rest)) == (if Strip(t) == [] then [] else [Strip(t)]) + Load(Some(rest))
  {
    TranslateFirstLine(t, sep, rest);
    var x := Translate(rest);
    LinesOfLine(t, x);
    StripNewline(t);
    KeptAppend([t + "\n"], Lines(x));
    assert [t + "\n"][1..] == [];
  }

  lemma TranslateFirstLine(t: string, sep: string, rest: string)
    requires NoLineBreak(t)
    requires sep == "\n" || sep == "\r\n" || (sep == "\r" && (rest == [] || rest[0] != '\n'))
    ensures Translate(t + sep + rest) == t + "\n" + Translate(rest)
  {
    TranslateNoCarriageReturn(t);
    TranslateUnits('\n');
    assert Translate(sep) == "\n";
    TranslateAppend(sep, rest);
    var tail := sep + rest;
    assert Translate(tail) == "\n" + Translate(rest);
    assert t == [] || !IsLineBreak(t[|t| - 1]);
    TranslateAppend(t, tail);
    Associative(t, sep, rest);
    Associative(t, "\n", Translate(rest));
  }

  lemma Associative(x: string, y: string, z: string)
    ensures x + y + z == x + (y + z)
  {
  }

  /** A last line without a line break loads as its stripped text unless that is blank. */
  lemma LoadLastLine(t: string)
    requires NoLineBreak(t)
    ensures Load(Some(t)) == (if Strip(t) == [] then [] else [Strip(t)])
  {
    TranslateNoCarriageReturn(t);
    if t != [] {
      assert LineEnd(t, 0) == |t|;
      assert t[..|t|] == t && t[|t|..] == [];
      assert Lines(t) == [t];
      assert [t][1..] == [];
    }
  }

  lemma {:induction false} KeptSaved(tasks: seq<string>)
    requires WellFormed(tasks)
    ensures Kept(Lines(Save(tasks))) == tasks
  {
    if tasks != [] {
      var t := tasks[0];
      var rest := Save(tasks[1..]);
      assert Save(tasks) == t + "\n" + rest;
      LinesOfLine(t, rest);
      StripLine(t);
      KeptSaved(tasks[1..]);
    }
  }

  /** Loading what was saved gives back the same tasks. */
  lemma LoadSave(tasks: seq<string>)
    requires WellFormed(tasks)
    ensures Load(Some(Save(tasks))) == tasks
  {
    TranslateNoCarriageReturn(Save(tasks));
    KeptSaved(tasks);
  }

  /** `add_task`: the task goes at the end and the earlier tasks keep their places. */
  function AddTask(tasks: seq<string>, task: string): (r: seq<string>)
    ensures |r| == |tasks| + 1 && r[..|tasks|] == tasks && r[|tasks|] == task
  {
    tasks + [task]
  }

  datatype Removal = Removed(rest: seq<string>, task: string) | InvalidIndex

  /**
   The list position `list.pop(k)` removes: a negative `k` counts from the
   end. `None` is the `IndexError` case.
   */
  function PopPosition(n: nat, k: int): (pos: Option<nat>)
    ensures pos.Some? <==> -(n as int) <= k < n
    ensures pos.Some? ==> pos.value < n && (pos.value == k || pos.value == n + k)
  {
    if 0 <= k < n then Some(k)
    else if -(n as int) <= k < 0 then Some(n + k)
    else None
  }

  /**
   `remove_task`: `tasks.pop(index - 1)`, with `IndexError` turned into
   `InvalidIndex`. Putting the removed task back where it was gives the
   original list.
   */
  function RemoveTask(tasks: seq<string>, index: int): (r: Removal)
    ensures r.Removed? <==> -|tasks| <= index - 1 < |tasks|
    ensures r.Removed? ==> |r.rest| == |tasks| - 1
    ensures r.Removed? ==> exists pos | 0 <= pos < |tasks| ::
      && (pos == index - 1 || pos == |tasks| + index - 1)
      && r.rest[..pos] + [r.task] + r.rest[pos..] == tasks
  {
    match PopPosition(|tasks|, index - 1)
    case None => InvalidIndex
    case Some(pos) =>
      var rest := tasks[..pos] + tasks[pos + 1..];
      assert rest[..pos] + [tasks[pos]] + rest[pos..] == tasks;
      Removed(rest, tasks[pos])
  }

  /** A 1-based index within the list removes exactly that task and keeps the rest in order. */
  lemma RemoveInRange(tasks: seq<string>, index: int)
    requires 1 <= index <= |tasks|
    ensures RemoveTask(tasks, index) == Removed(tasks[..index - 1] + tasks[index..], tasks[index - 1])
  {
    assert PopPosition(|tasks|, index - 1) == Some(index - 1);
  }

  /** An index in `1 - len .. 0` counts from the end: 0 removes the last task. */
  lemma RemoveFromEnd(tasks: seq<string>, index: int)
    requires 1 - |tasks| <= index <= 0
    ensures var pos := |tasks| + index - 1;
      RemoveTask(tasks, index) == Removed(tasks[..pos] + tasks[pos + 1..], tasks[pos])
  {
    assert PopPosition(|tasks|, index - 1) == Some(|tasks| + index - 1);
  }

  /** Removing the task just added, by its number or by 0, undoes the add. */
  lemma RemoveUndoesAdd(tasks: seq<string>, task: string)
    ensures RemoveTask(AddTask(tasks, task), |tasks| + 1) == Removed(tasks, task)
    ensures RemoveTask(AddTask(tasks, task), 0) == Removed(tasks, task)
  {
    var added := AddTask(tasks, task);
    RemoveInRange(added, |tasks| + 1);
    RemoveFromEnd(added, 0);
    assert added[..|tasks|] + added[|tasks| + 1..] == tasks;
  }

  /** Removing keeps the remaining tasks well formed. */
  lemma RemoveKeepsWellFormed(tasks: seq<string>, index: int)
    requires WellFormed(tasks)
    ensures RemoveTask(tasks, index).Removed? ==> WellFormed(RemoveTask(tasks, index).rest)
  {
    match PopPosition(|tasks|, index - 1)
    case None =>
    case Some(pos) =>
      var rest := tasks[..pos] + tasks[pos + 1..];
      forall i | 0 <= i < |rest|
        ensures WellFormedTask(rest[i])
      {
        if i < pos {
          assert rest[i] == tasks[i];
        } else {
          assert rest[i] == tasks[i + 1];
        }
      }
  }

  /** The program's state: the list in memory and the file on disk. */
  datatype App = App(tasks: seq<string>, file: Option<string>)

  /** The list in memory is well formed and is what the file would load as. */
  predicate Synced(app: App) {
    WellFormed(app.tasks) && Load(app.file) == app.tasks
  }

  /** Start-up: the list is whatever the file loads as. */
  function Start(file: Option<string>): (app: App)
    ensures Synced(app) && app.file == file
  {
    App(Load(file), file)
  }

  /**
   Menu choice 2: a line of input is stripped; a blank one is refused,
   anything else is appended and the file rewritten. The list stays what the
   file loads as unless the line holds a carriage return, which `strip()`
   keeps inside the task but reading the file back treats as a line end.
   */
  function AddCommand(app: App, line: string): (r: App)
    requires NoNewline(line)
    ensures Strip(line) == [] ==> r == app
    ensures Strip(line) != [] ==> r.tasks == app.tasks + [Strip(line)] && r.file == Some(Save(r.tasks))
    ensures Synced(app) && NoCarriageReturn(line) ==> Synced(r)
  {
    var task := Strip(line);
    if task == [] then app
    else
      var tasks := AddTask(app.tasks, task);
      assert Synced(app) && NoCarriageReturn(line) ==> Load(Some(Save(tasks))) == tasks by {
        if Synced(app) && NoCarriageReturn(line) {
          assert NoLineBreak(line);
          StripNoLineBreak(line);
          assert WellFormed(tasks) by {
            forall i | 0 <= i < |tasks|
              ensures WellFormedTask(tasks[i])
            {
              if i < |app.tasks| {
                assert tasks[i] == app.tasks[i];
              }
            }
          }
          LoadSave(tasks);
        }
      }
      App(tasks, Some(Save(tasks)))
  }

  /**
   A task typed with a carriage return inside it is kept whole in the list,
   but the file written for it loads back as two tasks.
   */
  lemma CarriageReturnSplitsTask()
    ensures var r := AddCommand(Start(None), "a\rb");
      && r.tasks == ["a\rb"]
      && Load(r.file) == ["a", "b"]
      && !Synced(r)
  {
    AddsCarriageReturnTask();
    LoadsAsTwoLines();
  }

  lemma AddsCarriageReturnTask()
    ensures AddCommand(Start(None), "a\rb") == App(["a\rb"], Some("a\rb\n"))
  {
    StripKeepsCarriageReturn();
    assert Start(None) == App([], None);
    assert Save(["a\rb"]) == "a\rb" + "\n" + Save([]);
    assert "a\rb" + "\n" == "a\rb\n";
    var r := AddCommand(Start(None), "a\rb");
    assert r.tasks == [] + ["a\rb"] == ["a\rb"];
    assert Save(["a\rb"]) == "a\rb\n";
    assert r.file == Some("a\rb\n");
  }

  lemma StripKeepsCarriageReturn()
    ensures Strip("a\rb") == "a\rb"
  {
    var line := "a\rb";
    assert StripFrom(line) == 0;
    assert TrimEnd(line, 0, 3) == 3;
  }

  lemma LoadsAsTwoLines()
    ensures Load(Some("a\rb\n")) == ["a", "b"]
  {
    TranslatesToTwoLines();
    SplitsIntoTwoLines();
    KeepsTwoLines();
  }

  lemma TranslatesToTwoLines()
    ensures Translate("a\rb\n") == "a\nb\n"
  {
    assert Translate("\n") == "\n";
    assert Translate("b\n") == "b\n";
    assert Translate("\rb\n") == "\n" + Translate("b\n");
  }

  lemma SplitsIntoTwoLines()
    ensures Lines("a\nb\n") == ["a\n", "b\n"]
  {
    LinesOfLine("a", "b\n");
    LinesOfLine("b", "");
    assert "a" + "\n" + "b\n" == "a\nb\n";
    assert "b" + "\n" + "" == "b\n";
    assert "a" + "\n" == "a\n" && "b" + "\n" == "b\n";
    assert Lines("") == [];
    assert Lines("b\n") == ["b\n"];
  }

  lemma KeepsTwoLines()
    ensures Kept(["a\n", "b\n"]) == ["a", "b"]
  {
    var lines := ["a\n", "b\n"];
    StripLine("a");
    StripLine("b");
    assert "a" + "\n" == "a\n" && "b" + "\n" == "b\n";
    assert Strip(lines[0]) == "a" && Strip(lines[1]) == "b";
    assert lines[1..] == ["b\n"] && lines[1..][1..] == [];
    assert Kept(lines[1..]) == ["b"];
  }

  /**
   Menu choice 3: with an empty list nothing is asked; otherwise the
   numbered task is removed and the file rewritten, and an invalid number
   changes nothing.
   */
  function RemoveCommand(app: App, index: int): (r: App)
    ensures RemoveTask(app.tasks, index).InvalidIndex? ==> r == app
    ensures app.tasks != [] && RemoveTask(app.tasks, index).Removed? ==>
      r.tasks == RemoveTask(app.tasks, index).rest && r.file == Some(Save(r.tasks))
    ensures Synced(app) ==> Synced(r)
  {
    if app.tasks == [] then app
    else
      match RemoveTask(app.tasks, index)
      case InvalidIndex => app
      case Removed(rest, _) =>
        assert Synced(app) ==> Load(Some(Save(rest))) == rest by {
          if Synced(app) {
            RemoveKeepsWellFormed(app.tasks, index);
            LoadSave(rest);
          }
        }
        App(rest, Some(Save(rest)))
  }
}

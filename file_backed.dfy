/**
 * FileBackedTaskManager (src/manager/FileBackedTaskManager.java): an InMemoryTaskManager whose
 * mutators rewrite a file after every change.  The file is modelled as its list of lines.
 */
module FileBacked {
  import opened Wrappers
  import opened Errors
  import opened Tasks
  import opened EpicRules
  import opened Prioritized
  import opened ManagerRules
  import opened History
  import opened Manager
  import opened Codec

  /** The entities of xs, none of them null. */
  function Somes(xs: seq<Entity>): (r: seq<Option<Entity>>)
    ensures |r| == |xs| && forall i :: 0 <= i < |xs| ==> r[i] == Some(xs[i])
    ensures None !in r
  {
    seq(|xs|, i requires 0 <= i < |xs| => Some(xs[i]))
  }

  predicate AllEpics(es: seq<Entity>)
  {
    forall i :: 0 <= i < |es| ==> es[i].variant.Epic?
  }

  /** The second part of save: each epic followed by getSubTasksOfEpic(epic). */
  function EpicBlocks(es: seq<Entity>, subTasks: map<int, Entity>): seq<Option<Entity>>
    requires AllEpics(es)
  {
    if es == [] then []
    else EpicBlocks(es[..|es| - 1], subTasks) + [Some(es[|es| - 1])] + SubTasksOfEpic(es[|es| - 1], subTasks)
  }

  lemma {:induction false} EpicBlocksAppend(a: seq<Entity>, b: seq<Entity>, subTasks: map<int, Entity>)
    requires AllEpics(a) && AllEpics(b)
    ensures AllEpics(a + b)
    ensures EpicBlocks(a + b, subTasks) == EpicBlocks(a, subTasks) + EpicBlocks(b, subTasks)
    decreases |b|
  {
    if b != [] {
      var b' := b[..|b| - 1];
      var x := b[|b| - 1];
      assert (a + b)[..|a + b| - 1] == a + b';
      EpicBlocksAppend(a, b', subTasks);
    } else {
      assert a + b == a;
    }
  }

  lemma ValuesAreEpics(epics: map<int, Entity>)
    requires EpicsTyped(epics)
    ensures AllEpics(ValuesInKeyOrder(epics))
  {
    var r := ValuesInKeyOrder(epics);
    forall i | 0 <= i < |r| ensures r[i].variant.Epic? {
      assert SortedKeys(epics.Keys)[i] in epics.Keys;
    }
  }

  /** The entities save writes, in order: getAllTasks(), then each epic and its subtasks; null entries included. */
  function SaveOrder(tasks: map<int, Entity>, epics: map<int, Entity>, subTasks: map<int, Entity>): seq<Option<Entity>>
    requires EpicsTyped(epics)
  {
    ValuesAreEpics(epics);
    Somes(ValuesInKeyOrder(tasks) + ValuesInKeyOrder(epics) + ValuesInKeyOrder(subTasks))
      + EpicBlocks(ValuesInKeyOrder(epics), subTasks)
  }

  /** The lines written for the entries before the first null one (toString(null) throws). */
  function LinesBeforeNull(entries: seq<Option<Entity>>): seq<string>
  {
    if entries == [] then []
    else if entries[0].None? then []
    else [ToLine(entries[0].value)] + LinesBeforeNull(entries[1..])
  }

  lemma {:induction false} LinesBeforeNullAppend(a: seq<Option<Entity>>, b: seq<Option<Entity>>)
    requires None !in a
    ensures LinesBeforeNull(a + b) == LinesBeforeNull(a) + LinesBeforeNull(b)
  {
    if a != [] {
      assert (a + b)[1..] == a[1..] + b;
      LinesBeforeNullAppend(a[1..], b);
    } else {
      assert a + b == b;
    }
  }

  /** Every line save writes after the header reads back, under the codec's round-trip conditions. */
  predicate Encodable(e: Entity)
  {
    && InInt32(e.id) && (e.variant.SubTask? ==> InInt32(e.variant.epicId))
    && ',' !in e.name && ',' !in e.description
    && (!e.variant.SubTask? ==> e.description != "")
  }

  /** Line i of the output is entry i's toString, for every entry before the first null one. */
  lemma {:induction false} LinesBeforeNullShape(entries: seq<Option<Entity>>)
    ensures |LinesBeforeNull(entries)| <= |entries|
    ensures None !in entries ==> |LinesBeforeNull(entries)| == |entries|
    ensures forall i :: 0 <= i < |LinesBeforeNull(entries)| ==>
      entries[i].Some? && LinesBeforeNull(entries)[i] == ToLine(entries[i].value)
  {
    if entries != [] && entries[0].Some? {
      var rest := entries[1..];
      LinesBeforeNullShape(rest);
      var r := LinesBeforeNull(entries);
      assert r == [ToLine(entries[0].value)] + LinesBeforeNull(rest);
      forall i | 0 <= i < |r| ensures entries[i].Some? && r[i] == ToLine(entries[i].value) {
        if i > 0 {
          assert r[i] == LinesBeforeNull(rest)[i - 1];
          assert entries[i] == rest[i - 1];
        }
      }
      assert None !in entries ==> None !in rest;
    }
  }

  /** Every line save writes after the header reads back as the entity it was written from, stripped. */
  lemma SavedLinesRead(entries: seq<Option<Entity>>)
    requires forall i :: 0 <= i < |entries| && entries[i].Some? ==> Encodable(entries[i].value)
    ensures |LinesBeforeNull(entries)| <= |entries|
    ensures forall i :: 0 <= i < |LinesBeforeNull(entries)| ==>
      entries[i].Some? && FromString(LinesBeforeNull(entries)[i]) == Success(Stripped(entries[i].value))
  {
    LinesBeforeNullShape(entries);
    var r := LinesBeforeNull(entries);
    forall i | 0 <= i < |r| ensures entries[i].Some? && FromString(r[i]) == Success(Stripped(entries[i].value)) {
      RoundTrip(entries[i].value);
    }
  }

  /**
   * When every epic lists only stored subtasks, save meets no null: after the header it writes
   * one line per task, epic and subtask, then each epic's line followed by one line per id on
   * its list.
   */
  lemma SaveWithoutNull(tasks: map<int, Entity>, epics: map<int, Entity>, subTasks: map<int, Entity>)
    requires EpicsTyped(epics)
    requires forall k :: k in epics ==> AllListed(epics[k].variant.subTaskIds, subTasks)
    ensures None !in SaveOrder(tasks, epics, subTasks)
    ensures |LinesBeforeNull(SaveOrder(tasks, epics, subTasks))|
      == |tasks| + 2 * |epics| + |subTasks| + ListedTotal(ValuesInKeyOrder(epics))
  {
    var es := ValuesInKeyOrder(epics);
    ValuesAreEpics(epics);
    forall i | 0 <= i < |es| ensures AllListed(es[i].variant.subTaskIds, subTasks) {
      assert SortedKeys(epics.Keys)[i] in epics.Keys;
    }
    EpicBlocksComplete(es, subTasks);
    var order := SaveOrder(tasks, epics, subTasks);
    assert None !in order;
    LinesBeforeNullShape(order);
  }

  /** The number of subtask ids the epics list, together. */
  function ListedTotal(es: seq<Entity>): nat
  {
    if es == [] then 0
    else ListedTotal(es[..|es| - 1]) + (if es[|es| - 1].variant.Epic? then |es[|es| - 1].variant.subTaskIds| else 0)
  }

  lemma {:induction false} EpicBlocksComplete(es: seq<Entity>, subTasks: map<int, Entity>)
    requires AllEpics(es) && forall i :: 0 <= i < |es| ==> AllListed(es[i].variant.subTaskIds, subTasks)
    ensures None !in EpicBlocks(es, subTasks) && |EpicBlocks(es, subTasks)| == |es| + ListedTotal(es)
  {
    if es != [] {
      var front := es[..|es| - 1];
      assert forall i :: 0 <= i < |front| ==> front[i] == es[i];
      EpicBlocksComplete(front, subTasks);
      var last := SubTasksOfEpic(es[|es| - 1], subTasks);
      assert forall i :: 0 <= i < |last| ==> last[i].Some?;
    }
  }

  class FileBackedTaskManager {
    /** The in-memory manager this one extends. */
    const core: InMemoryTaskManager
    /** The lines of the backing file. */
    var file: seq<string>

    ghost predicate Valid()
      reads this, core
    {
      core.Valid()
    }

    /** The entities the next save would visit. */
    ghost function Order(): seq<Option<Entity>>
      reads this, core
      requires Valid()
    {
      SaveOrder(core.tasks, core.epics, core.subTasks)
    }

    /** The file holds what save writes for the current state. */
    ghost predicate Saved()
      reads this, core
      requires Valid()
    {
      file == [Header] + LinesBeforeNull(Order())
    }

    /** How save ends for the current state. */
    ghost function SaveOutcome(): Outcome<Failure>
      reads this, core
      requires Valid()
    {
      if None in Order() then Fail(NullPointer) else Pass
    }

    /** FileBackedTaskManager(file): an empty manager over a file that currently holds content. */
    constructor (content: seq<string>)
      ensures Valid() && fresh(core) && file == content
      ensures core.tasks == map[] && core.epics == map[] && core.subTasks == map[]
      ensures core.prioritized == [] && core.history == [] && core.generatorId == 0
    {
      core := new InMemoryTaskManager();
      file := content;
    }

    /**
     * save: the file is truncated, then the header, one line per getAllTasks() entry, and each
     * epic's line followed by its subtasks' lines are written.  A null subtask throws and leaves
     * the lines written so far.
     */
    method Save() returns (outcome: Outcome<Failure>)
      requires Valid()
      modifies this`file
      ensures Valid() && Saved() && outcome == SaveOutcome()
    {
      file := [Header];
      var all := core.GetAllTasks();
      assert all == ValuesInKeyOrder(core.tasks) + ValuesInKeyOrder(core.epics) + ValuesInKeyOrder(core.subTasks);
      WriteEntities(all);
      var epicList := core.GetEpics();
      SaveAssembled([Header], core.tasks, core.epics, core.subTasks);
      outcome := WriteEpics(epicList);
    }

    /** The epic loop of save: each epic's line, then its subtasks' lines, up to the first null subtask. */
    method WriteEpics(epicList: seq<Entity>) returns (outcome: Outcome<Failure>)
      requires AllEpics(epicList)
      modifies this`file
      ensures file == old(file) + LinesBeforeNull(EpicBlocks(epicList, core.subTasks))
      ensures outcome.Pass? <==> None !in EpicBlocks(epicList, core.subTasks)
      ensures outcome.Fail? ==> outcome.error == NullPointer
    {
      for j := 0 to |epicList|
        invariant None !in EpicBlocks(epicList[..j], core.subTasks)
        invariant file == old(file) + LinesBeforeNull(EpicBlocks(epicList[..j], core.subTasks))
      {
        var epic := epicList[j];
        file := file + [ToLine(epic)];
        var subs := core.GetSubTasksOfEpic(epic);
        outcome := WriteSubTasks(subs);
        EpicBlockLines(old(file), epicList, j, core.subTasks);
        if outcome.Fail? {
          EpicBlocksStop(epicList, j, core.subTasks);
          return;
        }
      }
      assert epicList[..|epicList|] == epicList;
      outcome := Pass;
    }

    /** The loop of save over getAllTasks(): one line per entity. */
    method WriteEntities(es: seq<Entity>)
      modifies this`file
      ensures file == old(file) + LinesBeforeNull(Somes(es))
    {
      for i := 0 to |es|
        invariant file == old(file) + LinesBeforeNull(Somes(es[..i]))
      {
        EntityLine(es, i);
        file := file + [ToLine(es[i])];
      }
      assert es[..|es|] == es;
    }

    /** The loop of save over one epic's subtasks: one line each, up to the first null one. */
    method WriteSubTasks(subs: seq<Option<Entity>>) returns (outcome: Outcome<Failure>)
      modifies this`file
      ensures file == old(file) + LinesBeforeNull(subs)
      ensures outcome.Pass? <==> None !in subs
      ensures outcome.Fail? ==> outcome.error == NullPointer
    {
      for k := 0 to |subs|
        invariant None !in subs[..k]
        invariant file == old(file) + LinesBeforeNull(subs[..k])
      {
        if subs[k].None? {
          StopsAt(subs, k);
          return Fail(NullPointer);
        }
        SubTaskLine(subs, k);
        file := file + [ToLine(subs[k].value)];
      }
      assert subs[..|subs|] == subs;
      outcome := Pass;
    }

    // ------------------------------------------------------------ the overrides

    /** addTask, then save when it did not throw. */
    method AddTask(task: Entity) returns (outcome: Outcome<Failure>, id: int)
      requires Valid()
      modifies this`file, core
      ensures Valid()
      ensures old(core.tasks).Keys <= core.tasks.Keys && old(core.epics).Keys <= core.epics.Keys && old(core.subTasks).Keys <= core.subTasks.Keys
      ensures IsTimeOverlap(old(core.prioritized), task) ==>
        outcome == Fail(Overlap) && id == task.id && file == old(file) && unchanged(core)
      ensures !IsTimeOverlap(old(core.prioritized), task) ==>
        && IdAssigned(task.id, old(core.generatorId), old(core.tasks).Keys, id, core.generatorId)
        && core.tasks == old(core.tasks)[id := task.(id := id)]
        && core.prioritized == Scheduled(old(core.prioritized), task.(id := id))
        && core.epics == old(core.epics) && core.subTasks == old(core.subTasks) && core.history == old(core.history)
        && Saved() && outcome == SaveOutcome()
    {
      outcome, id := core.AddTask(task);
      if outcome.Fail? {
        return;
      }
      outcome := Save();
    }

    /** addEpic, then save. */
    method AddEpic(epic: Entity) returns (outcome: Outcome<Failure>, id: int)
      requires Valid() && epic.variant.Epic?
      modifies this`file, core
      ensures Valid()
      ensures old(core.tasks).Keys <= core.tasks.Keys && old(core.epics).Keys <= core.epics.Keys && old(core.subTasks).Keys <= core.subTasks.Keys
      ensures IdAssigned(epic.id, old(core.generatorId), old(core.tasks).Keys, id, core.generatorId)
      ensures core.epics == old(core.epics)[id := epic.(id := id)]
      ensures core.tasks == old(core.tasks) && core.subTasks == old(core.subTasks)
      ensures core.prioritized == old(core.prioritized) && core.history == old(core.history)
      ensures Saved() && outcome == SaveOutcome()
    {
      id := core.AddEpic(epic);
      assert core.tasks == old(core.tasks) && core.subTasks == old(core.subTasks);
      assert core.prioritized == old(core.prioritized) && core.history == old(core.history);
      outcome := Save();
    }

    /** addSubTask, then save when it did not throw. */
    method AddSubTask(subTask: Entity) returns (outcome: Outcome<Failure>, id: int)
      requires Valid() && subTask.variant.SubTask?
      modifies this`file, core
      ensures Valid()
      ensures old(core.tasks).Keys <= core.tasks.Keys && old(core.epics).Keys <= core.epics.Keys && old(core.subTasks).Keys <= core.subTasks.Keys
      ensures IsTimeOverlap(old(core.prioritized), subTask) ==>
        outcome == Fail(Overlap) && id == subTask.id && file == old(file) && unchanged(core)
      ensures !IsTimeOverlap(old(core.prioritized), subTask) ==>
        && IdAssigned(subTask.id, old(core.generatorId), old(core.tasks).Keys, id, core.generatorId)
        && core.subTasks == old(core.subTasks)[id := subTask.(id := id)]
        && core.prioritized == Scheduled(old(core.prioritized), subTask.(id := id))
        && core.tasks == old(core.tasks) && core.history == old(core.history)
      ensures !IsTimeOverlap(old(core.prioritized), subTask) && subTask.variant.epicId !in old(core.epics) ==>
        outcome == Fail(NullPointer) && core.epics == old(core.epics) && file == old(file)
      ensures !IsTimeOverlap(old(core.prioritized), subTask) && subTask.variant.epicId in old(core.epics) ==>
        var refresh := EpicRefresh(Listed(old(core.epics), subTask.variant.epicId, id), core.subTasks, subTask.variant.epicId);
        && core.epics == refresh.0
        && (refresh.1.Pass? ==> Saved() && outcome == SaveOutcome())
        && (refresh.1.Fail? ==> outcome == refresh.1 && file == old(file))
    {
      outcome, id := core.AddSubTask(subTask);
      if outcome.Fail? {
        return;
      }
      outcome := Save();
    }

    /** updateTask, then save when it did not throw. */
    method UpdateTask(task: Entity) returns (outcome: Outcome<Failure>)
      requires Valid()
      modifies this`file, core
      ensures Valid()
      ensures core.epics == old(core.epics) && core.subTasks == old(core.subTasks)
      ensures core.history == old(core.history) && core.generatorId == old(core.generatorId)
      ensures task.id !in old(core.tasks) ==> core.tasks == old(core.tasks) && core.prioritized == old(core.prioritized)
      ensures task.id in old(core.tasks) ==>
        && core.tasks == old(core.tasks)[task.id := task]
        && var r := Remove(old(core.prioritized), Some(old(core.tasks)[task.id]));
           && (r.Failure? ==> core.prioritized == old(core.prioritized))
           && (r.Success? ==> Ordered(r.value) && core.prioritized == Scheduled(r.value, task))
      ensures if task.id !in old(core.tasks) || Remove(old(core.prioritized), Some(old(core.tasks)[task.id])).Success?
        then Saved() && outcome == SaveOutcome()
        else outcome == Fail(NullPointer) && file == old(file)
    {
      outcome := core.UpdateTask(task);
      assert core.epics == old(core.epics) && core.subTasks == old(core.subTasks);
      assert core.history == old(core.history) && core.generatorId == old(core.generatorId);
      if outcome.Fail? {
        return;
      }
      outcome := Save();
    }

    /** updateEpic, then save. */
    method UpdateEpic(epic: Entity) returns (outcome: Outcome<Failure>)
      requires Valid() && epic.variant.Epic?
      modifies this`file, core
      ensures Valid()
      ensures core.tasks == old(core.tasks) && core.subTasks == old(core.subTasks) && core.prioritized == old(core.prioritized)
      ensures core.history == old(core.history) && core.generatorId == old(core.generatorId)
      ensures epic.id !in old(core.epics) ==> core.epics == old(core.epics)
      ensures epic.id in old(core.epics) ==>
        core.epics == old(core.epics)[epic.id := old(core.epics)[epic.id].(name := epic.name, description := epic.description)]
      ensures Saved() && outcome == SaveOutcome()
    {
      core.UpdateEpic(epic);
      assert core.tasks == old(core.tasks) && core.subTasks == old(core.subTasks) && core.prioritized == old(core.prioritized);
      assert core.history == old(core.history) && core.generatorId == old(core.generatorId);
      outcome := Save();
    }

    /** updateSubTask, then save when it did not throw. */
    method UpdateSubTask(subTask: Entity) returns (outcome: Outcome<Failure>)
      requires Valid() && subTask.variant.SubTask?
      modifies this`file, core
      ensures Valid()
      ensures core.tasks == old(core.tasks) && core.history == old(core.history) && core.generatorId == old(core.generatorId)
      ensures subTask.id !in old(core.subTasks) ==>
        core.subTasks == old(core.subTasks) && core.epics == old(core.epics) && core.prioritized == old(core.prioritized)
      ensures subTask.id in old(core.subTasks) ==>
        && core.subTasks == old(core.subTasks)[subTask.id := subTask]
        && var s := StatusUpdate(old(core.epics), core.subTasks, subTask.variant.epicId);
           && (s.Failure? ==> core.epics == old(core.epics) && core.prioritized == old(core.prioritized))
           && (s.Success? ==> core.epics == s.value)
           && var r := Remove(old(core.prioritized), Some(old(core.subTasks)[subTask.id]));
              && (s.Success? && r.Failure? ==> core.prioritized == old(core.prioritized))
              && (s.Success? && r.Success? ==> Ordered(r.value) && core.prioritized == Scheduled(r.value, subTask))
      ensures
        if subTask.id !in old(core.subTasks)
          || (StatusUpdate(old(core.epics), core.subTasks, subTask.variant.epicId).Success?
              && Remove(old(core.prioritized), Some(old(core.subTasks)[subTask.id])).Success?)
        then Saved() && outcome == SaveOutcome()
        else outcome == Fail(NullPointer) && file == old(file)
    {
      outcome := core.UpdateSubTask(subTask);
      assert core.tasks == old(core.tasks) && core.history == old(core.history) && core.generatorId == old(core.generatorId);
      if outcome.Fail? {
        return;
      }
      outcome := Save();
    }

    /** removeTask, then save when it did not throw. */
    method RemoveTask(id: int) returns (outcome: Outcome<Failure>)
      requires Valid()
      modifies this`file, core
      ensures Valid()
      ensures core.tasks == old(core.tasks) - {id}
      ensures id !in old(core.tasks) ==> core.history == old(core.history)
      ensures id in old(core.tasks) ==> core.history == Forget(old(core.history), {id})
      ensures core.prioritized == old(core.prioritized)
      ensures core.epics == old(core.epics) && core.subTasks == old(core.subTasks) && core.generatorId == old(core.generatorId)
      ensures if id !in old(core.tasks) || old(core.prioritized) == []
        then Saved() && outcome == SaveOutcome()
        else outcome == Fail(NullPointer) && file == old(file)
    {
      outcome := core.RemoveTask(id);
      assert core.epics == old(core.epics) && core.subTasks == old(core.subTasks) && core.generatorId == old(core.generatorId);
      if outcome.Fail? {
        return;
      }
      outcome := Save();
    }

    /** removeEpic, then save. */
    method RemoveEpic(id: int) returns (outcome: Outcome<Failure>)
      requires Valid()
      modifies this`file, core
      ensures Valid()
      ensures core.epics == old(core.epics) - {id}
      ensures core.tasks == old(core.tasks) && core.prioritized == old(core.prioritized) && core.generatorId == old(core.generatorId)
      ensures id !in old(core.epics) ==> core.subTasks == old(core.subTasks) && core.history == old(core.history)
      ensures id in old(core.epics) ==>
        && core.subTasks == old(core.subTasks) - Elements(old(core.epics)[id].variant.subTaskIds)
        && core.history == Forget(old(core.history), Elements(old(core.epics)[id].variant.subTaskIds) + {id})
      ensures Saved() && outcome == SaveOutcome()
    {
      core.RemoveEpic(id);
      assert core.tasks == old(core.tasks) && core.prioritized == old(core.prioritized) && core.generatorId == old(core.generatorId);
      outcome := Save();
    }

    /** removeSubTask, then save when it did not throw. */
    method RemoveSubTask(id: int) returns (outcome: Outcome<Failure>)
      requires Valid()
      modifies this`file, core
      ensures Valid()
      ensures core.subTasks == old(core.subTasks) - {id}
      ensures core.tasks == old(core.tasks) && core.prioritized == old(core.prioritized) && core.generatorId == old(core.generatorId)
      ensures id !in old(core.subTasks) ==> core.epics == old(core.epics) && core.history == old(core.history)
      ensures id in old(core.subTasks) ==>
        && core.history == Forget(old(core.history), {id})
        && var epicId := old(core.subTasks)[id].variant.epicId;
           && (old(core.prioritized) != [] || epicId !in old(core.epics) ==> core.epics == old(core.epics))
           && (old(core.prioritized) == [] && epicId in old(core.epics) ==>
                 core.epics == EpicRefresh(Unlisted(old(core.epics), epicId, id), core.subTasks, epicId).0)
      ensures
        if old(core.SubTaskRemovalPasses(id))
        then Saved() && outcome == SaveOutcome()
        else outcome == Fail(NullPointer) && file == old(file)
    {
      outcome := core.RemoveSubTask(id);
      assert core.tasks == old(core.tasks) && core.generatorId == old(core.generatorId);
      if outcome.Fail? {
        return;
      }
      ghost var removed := core.subTasks;
      outcome := Save();
      assert core.subTasks == removed;
    }

    // ------------------------------------------------------------ loading

    /**
     * loadFromFile: every line after the header is decoded and handed to addEpic, addSubTask or
     * addTask by its class, each of which saves.  A file without lines fails in subList; the first
     * line that does not decode, and the first add that throws, end the load.
     */
    static method LoadFromFile(lines: seq<string>) returns (m: FileBackedTaskManager, outcome: Outcome<Failure>)
      ensures fresh(m) && fresh(m.core) && m.Valid()
      ensures |lines| == 0 ==> outcome == Fail(SubListRange)
      ensures |lines| == 1 ==> outcome == Pass && m.file == lines && m.core.tasks == map[] && m.core.epics == map[] && m.core.subTasks == map[]
      ensures outcome.Pass? ==> forall i :: 1 <= i < |lines| ==> Loaded(lines[i], m.core.tasks, m.core.epics, m.core.subTasks)
      ensures outcome.Pass? && |lines| > 1 ==> m.Saved()
    {
      m := new FileBackedTaskManager(lines);
      if |lines| == 0 {
        return m, Fail(SubListRange);
      }
      outcome := Pass;
      if |lines| == 1 {
        return;
      }
      for i := 1 to |lines|
        invariant fresh(m) && fresh(m.core) && m.Valid()
        invariant outcome == Pass
        invariant i > 1 ==> m.Saved()
        invariant forall j :: 1 <= j < i ==> Loaded(lines[j], m.core.tasks, m.core.epics, m.core.subTasks)
      {
        ghost var tasks, epics, subTasks := m.core.tasks, m.core.epics, m.core.subTasks;
        outcome := m.LoadLine(lines[i]);
        if outcome.Fail? {
          return;
        }
        LoadedGrows(lines, i, tasks, epics, subTasks, m.core.tasks, m.core.epics, m.core.subTasks);
      }
    }

    /** One line of loadFromFile: fromString, then the add its class calls for. */
    method LoadLine(line: string) returns (outcome: Outcome<Failure>)
      requires Valid()
      modifies this`file, core
      ensures Valid()
      ensures old(core.tasks).Keys <= core.tasks.Keys && old(core.epics).Keys <= core.epics.Keys && old(core.subTasks).Keys <= core.subTasks.Keys
      ensures FromString(line).Failure? ==> outcome == Fail(FromString(line).error)
      ensures outcome.Pass? ==> Saved() && Loaded(line, core.tasks, core.epics, core.subTasks)
    {
      var r := FromString(line);
      if r.Failure? {
        return Fail(r.error);
      }
      outcome := AddLoaded(r.value);
    }

    /** The dispatch of loadFromFile: the decoded entity goes to addEpic, addSubTask or addTask by its class. */
    method AddLoaded(e: Entity) returns (outcome: Outcome<Failure>)
      requires Valid()
      modifies this`file, core
      ensures Valid()
      ensures old(core.tasks).Keys <= core.tasks.Keys && old(core.epics).Keys <= core.epics.Keys && old(core.subTasks).Keys <= core.subTasks.Keys
      ensures outcome.Pass? ==> Saved() && Placed(e, core.tasks, core.epics, core.subTasks)
    {
      var id;
      if e.variant.Epic? {
        outcome, id := AddEpic(e);
      } else if e.variant.SubTask? {
        outcome, id := AddSubTask(e);
      } else {
        outcome, id := AddTask(e);
      }
    }
  }

  /** The entity a line decoded to sits in the map its type names, unless it still had to get an id. */
  predicate Placed(e: Entity, tasks: map<int, Entity>, epics: map<int, Entity>, subTasks: map<int, Entity>)
  {
    e.id != 0 ==>
      if e.variant.Epic? then e.id in epics
      else if e.variant.SubTask? then e.id in subTasks
      else e.id in tasks
  }

  /** The line decodes, and the entity it decodes to is placed. */
  predicate Loaded(line: string, tasks: map<int, Entity>, epics: map<int, Entity>, subTasks: map<int, Entity>)
  {
    FromString(line).Success? && Placed(FromString(line).value, tasks, epics, subTasks)
  }

  /**
   * Adding never removes a key, so the lines before line i stay loaded once line i is, and then
   * every line up to and including line i is.
   */
  lemma LoadedGrows(lines: seq<string>, i: nat, tasks: map<int, Entity>, epics: map<int, Entity>, subTasks: map<int, Entity>,
                    tasks': map<int, Entity>, epics': map<int, Entity>, subTasks': map<int, Entity>)
    requires i < |lines|
    requires tasks.Keys <= tasks'.Keys && epics.Keys <= epics'.Keys && subTasks.Keys <= subTasks'.Keys
    requires forall j :: 1 <= j < i ==> Loaded(lines[j], tasks, epics, subTasks)
    requires Loaded(lines[i], tasks', epics', subTasks')
    ensures forall j :: 1 <= j < i + 1 ==> Loaded(lines[j], tasks', epics', subTasks')
  {
    forall j | 1 <= j < i
      ensures Loaded(lines[j], tasks', epics', subTasks')
    {
      assert Loaded(lines[j], tasks, epics, subTasks);
    }
  }

  lemma EntityLine(es: seq<Entity>, i: nat)
    requires i < |es|
    ensures LinesBeforeNull(Somes(es[..i + 1])) == LinesBeforeNull(Somes(es[..i])) + [ToLine(es[i])]
  {
    assert Somes(es[..i + 1]) == Somes(es[..i]) + [Some(es[i])];
    LinesBeforeNullAppend(Somes(es[..i]), [Some(es[i])]);
  }

  lemma SubTaskLine(subs: seq<Option<Entity>>, k: nat)
    requires k < |subs| && subs[k].Some? && None !in subs[..k]
    ensures None !in subs[..k + 1]
    ensures LinesBeforeNull(subs[..k + 1]) == LinesBeforeNull(subs[..k]) + [ToLine(subs[k].value)]
  {
    assert subs[..k + 1] == subs[..k] + [subs[k]];
    LinesBeforeNullAppend(subs[..k], [subs[k]]);
  }

  lemma StopsAt(subs: seq<Option<Entity>>, k: nat)
    requires k < |subs| && subs[k] == None && None !in subs[..k]
    ensures None in subs && LinesBeforeNull(subs) == LinesBeforeNull(subs[..k])
  {
    assert subs[..k] + subs[k..] == subs;
    LinesBeforeNullAppend(subs[..k], subs[k..]);
  }

  /** The lines of one more epic block follow the lines of the blocks before it. */
  lemma EpicBlockLines(before: seq<string>, es: seq<Entity>, j: nat, subTasks: map<int, Entity>)
    requires AllEpics(es) && j < |es|
    requires None !in EpicBlocks(es[..j], subTasks)
    ensures var subs := SubTasksOfEpic(es[j], subTasks);
      && AllEpics(es[..j + 1])
      && before + LinesBeforeNull(EpicBlocks(es[..j], subTasks)) + [ToLine(es[j])] + LinesBeforeNull(subs)
         == before + LinesBeforeNull(EpicBlocks(es[..j + 1], subTasks))
      && (None in EpicBlocks(es[..j + 1], subTasks) <==> None in subs)
  {
    EpicBlocksSnoc(es, j, subTasks);
    BlockLines(before, EpicBlocks(es[..j], subTasks), es[j], SubTasksOfEpic(es[j], subTasks));
  }

  lemma BlockLines(before: seq<string>, done: seq<Option<Entity>>, x: Entity, subs: seq<Option<Entity>>)
    requires None !in done
    ensures before + LinesBeforeNull(done) + [ToLine(x)] + LinesBeforeNull(subs)
      == before + LinesBeforeNull(done + [Some(x)] + subs)
    ensures None in done + [Some(x)] + subs <==> None in subs
  {
    var block := [Some(x)] + subs;
    assert done + [Some(x)] + subs == done + block;
    OneBlockLines(x, subs);
    LinesBeforeNullAppend(done, block);
  }

  lemma OneBlockLines(x: Entity, subs: seq<Option<Entity>>)
    ensures LinesBeforeNull([Some(x)] + subs) == [ToLine(x)] + LinesBeforeNull(subs)
  {
    assert ([Some(x)] + subs)[1..] == subs;
  }

  /** A null subtask in the block of epic j: the later blocks add nothing to the file. */
  lemma EpicBlocksStop(es: seq<Entity>, j: nat, subTasks: map<int, Entity>)
    requires AllEpics(es) && j < |es|
    requires None in EpicBlocks(es[..j + 1], subTasks)
    ensures None in EpicBlocks(es, subTasks)
    ensures LinesBeforeNull(EpicBlocks(es, subTasks)) == LinesBeforeNull(EpicBlocks(es[..j + 1], subTasks))
  {
    assert es == es[..j + 1] + es[j + 1..];
    EpicBlocksAppend(es[..j + 1], es[j + 1..], subTasks);
    LinesBeforeNullStops(EpicBlocks(es[..j + 1], subTasks), EpicBlocks(es[j + 1..], subTasks));
  }

  /** The two loops of save together write the lines of SaveOrder up to its first null entry. */
  lemma SaveAssembled(head: seq<string>, tasks: map<int, Entity>, epics: map<int, Entity>, subTasks: map<int, Entity>)
    requires EpicsTyped(epics)
    ensures AllEpics(ValuesInKeyOrder(epics))
    ensures head + LinesBeforeNull(Somes(ValuesInKeyOrder(tasks) + ValuesInKeyOrder(epics) + ValuesInKeyOrder(subTasks)))
        + LinesBeforeNull(EpicBlocks(ValuesInKeyOrder(epics), subTasks))
      == head + LinesBeforeNull(SaveOrder(tasks, epics, subTasks))
    ensures None in SaveOrder(tasks, epics, subTasks) <==> None in EpicBlocks(ValuesInKeyOrder(epics), subTasks)
  {
    ValuesAreEpics(epics);
    var all := ValuesInKeyOrder(tasks) + ValuesInKeyOrder(epics) + ValuesInKeyOrder(subTasks);
    var blocks := EpicBlocks(ValuesInKeyOrder(epics), subTasks);
    assert SaveOrder(tasks, epics, subTasks) == Somes(all) + blocks;
    SaveParts(all, blocks);
    AppendAssoc(head, LinesBeforeNull(Somes(all)), LinesBeforeNull(blocks));
  }

  /**
   * Concatenation regroups.  Asserted inside SaveAssembled the step runs out of resource among
   * that lemma's facts, so it is proved here on its own.
   */
  lemma AppendAssoc(a: seq<string>, b: seq<string>, c: seq<string>)
    ensures a + b + c == a + (b + c)
  {
  }

  lemma SaveParts(all: seq<Entity>, blocks: seq<Option<Entity>>)
    ensures LinesBeforeNull(Somes(all) + blocks) == LinesBeforeNull(Somes(all)) + LinesBeforeNull(blocks)
    ensures None in Somes(all) + blocks <==> None in blocks
  {
    LinesBeforeNullAppend(Somes(all), blocks);
  }

  /** Extending the epics by one appends that epic's block. */
  lemma EpicBlocksSnoc(es: seq<Entity>, j: nat, subTasks: map<int, Entity>)
    requires AllEpics(es) && j < |es|
    ensures AllEpics(es[..j]) && AllEpics(es[..j + 1])
    ensures EpicBlocks(es[..j + 1], subTasks) == EpicBlocks(es[..j], subTasks) + [Some(es[j])] + SubTasksOfEpic(es[j], subTasks)
  {
    assert es[..j + 1][..j] == es[..j];
  }

  /** Nothing after a null entry is written. */
  lemma {:induction false} LinesBeforeNullStops(a: seq<Option<Entity>>, b: seq<Option<Entity>>)
    requires None in a
    ensures LinesBeforeNull(a + b) == LinesBeforeNull(a)
  {
    if a[0].Some? {
      assert (a + b)[1..] == a[1..] + b;
      LinesBeforeNullStops(a[1..], b);
    }
  }

}

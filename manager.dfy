/**
 * InMemoryTaskManager (src/manager/InMemoryTaskManager.java): three maps from id to entity, the
 * prioritized set ordered by start time, the view history and the id counter.
 *
 * A Java exception ends an operation part-way; each method returns an `Outcome` and its
 * postcondition states the state the exception leaves behind.
 */
module Manager {
  import opened Wrappers
  import opened Errors
  import opened Tasks
  import opened Prioritized
  import opened EpicRules
  import opened History
  import opened ManagerRules

  /** The prioritized set after TreeSet.add of t when t has a start time (add(null-start) is skipped by every caller). */
  function Scheduled(p: seq<Entity>, t: Entity): (r: seq<Entity>)
    requires Ordered(p)
    ensures Ordered(r)
    ensures t.startTime.None? ==> r == p
  {
    if t.startTime.Some? then Insert(p, t) else p
  }

  /** The distinct values of a list of ids. */
  function Elements(ids: seq<int>): set<int>
  {
    set x | x in ids
  }

  lemma ElementsSnoc(ids: seq<int>, i: nat)
    requires i < |ids|
    ensures Elements(ids[..i + 1]) == Elements(ids[..i]) + {ids[i]}
  {
    assert ids[..i + 1] == ids[..i] + [ids[i]];
  }

  /** A loop over the sorted keys of s has visited all of s. */
  lemma AllKeysVisited(s: set<int>)
    ensures Elements(SortedKeys(s)[..|SortedKeys(s)|]) == s
  {
    var keys := SortedKeys(s);
    assert keys[..|keys|] == keys;
  }

  /** Start times of the entities stored under keys. */
  function StartsOf(m: map<int, Entity>, keys: set<int>): set<int>
  {
    set k | k in keys && k in m && m[k].startTime.Some? :: m[k].startTime.value
  }

  /** The epic map with id appended to epic epicId's list (getSubTaskOfEpicIDs().add(id)). */
  function Listed(epics: map<int, Entity>, epicId: int, id: int): (r: map<int, Entity>)
    requires EpicsTyped(epics) && epicId in epics
    ensures EpicsTyped(r) && r.Keys == epics.Keys
    ensures r[epicId].variant.subTaskIds == epics[epicId].variant.subTaskIds + [id]
  {
    var e := epics[epicId];
    epics[epicId := e.(variant := e.variant.(subTaskIds := e.variant.subTaskIds + [id]))]
  }

  /** The epic map with the first occurrence of id dropped from epic epicId's list. */
  function Unlisted(epics: map<int, Entity>, epicId: int, id: int): (r: map<int, Entity>)
    requires EpicsTyped(epics) && epicId in epics
    ensures EpicsTyped(r) && r.Keys == epics.Keys
    ensures r[epicId].variant.subTaskIds == RemoveFirst(epics[epicId].variant.subTaskIds, id)
  {
    var e := epics[epicId];
    epics[epicId := e.(variant := e.variant.(subTaskIds := RemoveFirst(e.variant.subTaskIds, id)))]
  }

  /**
   * One turn of the removal loop: dropping one more entity's start time from the prioritized
   * set is dropping the start times of all entities handled so far.
   */
  lemma DropStep(p0: seq<Entity>, p: seq<Entity>, m: map<int, Entity>, done: set<int>, k: int)
    requires Ordered(p) && p == ExceptStarts(p0, StartsOf(m, done)) && k in m
    requires Remove(p, Some(m[k])).Success?
    ensures Ordered(Remove(p, Some(m[k])).value)
    ensures Remove(p, Some(m[k])).value == ExceptStarts(p0, StartsOf(m, done + {k}))
  {
    var before := StartsOf(m, done);
    var after := StartsOf(m, done + {k});
    if p == [] {
      ExceptStartsTwice(p0, before, after);
      assert before + after == after;
    } else {
      var t := m[k].startTime.value;
      ExceptStartsTwice(p0, before, {t});
      assert after == before + {t};
      ExceptStartsOrdered(p, {t});
    }
  }

  /**
   * One turn of the removal loop as a whole: the entity under k leaves the history and, unless
   * the comparator throws on it, the prioritized set.
   */
  lemma DropTurn(h0: seq<int>, h: seq<int>, p0: seq<Entity>, p: seq<Entity>, m: map<int, Entity>, done: set<int>, k: int)
    requires k in m && m[k].id == k
    requires h == Forget(h0, done)
    requires Ordered(p) && p == ExceptStarts(p0, StartsOf(m, done))
    ensures Forget(h, {m[k].id}) == Forget(h0, done + {k})
    ensures Remove(p, Some(m[k])).Failure? ==> p0 != [] && m[k].startTime.None?
    ensures Remove(p, Some(m[k])).Success? ==>
      && Ordered(Remove(p, Some(m[k])).value)
      && Remove(p, Some(m[k])).value == ExceptStarts(p0, StartsOf(m, done + {k}))
      && (p0 == [] ==> Remove(p, Some(m[k])).value == [])
  {
    ForgetTwice(h0, done, {k});
    if Remove(p, Some(m[k])).Success? {
      DropStep(p0, p, m, done, k);
    }
  }

  /** The epic map with the epics under keys in done emptied and recomputed. */
  function ClearedOn(epics: map<int, Entity>, done: set<int>): (r: map<int, Entity>)
    requires EpicsTyped(epics)
    ensures EpicsTyped(r) && r.Keys == epics.Keys
  {
    map k | k in epics :: if k in done then Cleared(epics[k]) else epics[k]
  }

  lemma ClearedOnNone(epics: map<int, Entity>)
    requires EpicsTyped(epics)
    ensures ClearedOn(epics, {}) == epics
  {
  }

  lemma ClearStep(epics: map<int, Entity>, done: set<int>, k: int)
    requires EpicsTyped(epics) && k in epics
    ensures var m := ClearedOn(epics, done);
      m[k := Cleared(m[k])] == ClearedOn(epics, done + {k})
  {
    var m := ClearedOn(epics, done);
    assert Cleared(m[k]) == Cleared(epics[k]);
  }

  class InMemoryTaskManager {
    var tasks: map<int, Entity>
    var epics: map<int, Entity>
    var subTasks: map<int, Entity>
    /** prioritizedTasks, in ascending start time. */
    var prioritized: seq<Entity>
    /** The ids of viewed entities, oldest first. */
    var history: seq<int>
    var generatorId: int

    /**
     * Every map stores each entity under its own id, the epic map only epics and the subtask map
     * only subtasks; the prioritized set holds scheduled entities in strictly ascending start
     * time; the counter never went below its initial 0.
     */
    ghost predicate Valid()
      reads this
    {
      && generatorId >= 0
      && Ordered(prioritized)
      && (forall k :: k in tasks ==> tasks[k].id == k)
      && EpicsTyped(epics)
      && (forall k :: k in epics ==> epics[k].id == k)
      && (forall k :: k in subTasks ==> subTasks[k].id == k && subTasks[k].variant.SubTask?)
    }

    constructor ()
      ensures Valid()
      ensures tasks == map[] && epics == map[] && subTasks == map[]
      ensures prioritized == [] && history == [] && generatorId == 0
    {
      tasks, epics, subTasks := map[], map[], map[];
      prioritized, history, generatorId := [], [], 0;
    }

    // ------------------------------------------------------------ adding

    /**
     * addTask: refused when it overlaps a scheduled entity; otherwise it gets an id if it has
     * none, is stored under that id, and joins the prioritized set when it has a start time.
     * `id` is the id the caller's object carries afterwards.
     */
    method AddTask(task: Entity) returns (outcome: Outcome<Failure>, id: int)
      requires Valid()
      modifies this
      ensures Valid()
      ensures IsTimeOverlap(old(prioritized), task) ==> outcome == Fail(Overlap) && id == task.id && unchanged(this)
      ensures !IsTimeOverlap(old(prioritized), task) ==>
        && outcome == Pass
        && IdAssigned(task.id, old(generatorId), old(tasks).Keys, id, generatorId)
        && tasks == old(tasks)[id := task.(id := id)]
        && prioritized == Scheduled(old(prioritized), task.(id := id))
        && epics == old(epics) && subTasks == old(subTasks) && history == old(history)
    {
      if IsTimeOverlap(prioritized, task) {
        return Fail(Overlap), task.id;
      }
      id, generatorId := AssignId(task.id, generatorId, tasks.Keys);
      var stored := task.(id := id);
      tasks := tasks[id := stored];
      if stored.startTime.Some? {
        prioritized := Insert(prioritized, stored);
      }
      outcome := Pass;
    }

    /**
     * addEpic: no overlap check; the id loop tests the TASK map for clashes, not the epic map.
     */
    method AddEpic(epic: Entity) returns (id: int)
      requires Valid() && epic.variant.Epic?
      modifies this`epics, this`generatorId
      ensures Valid()
      ensures IdAssigned(epic.id, old(generatorId), tasks.Keys, id, generatorId)
      ensures epics == old(epics)[id := epic.(id := id)]
    {
      id, generatorId := AssignId(epic.id, generatorId, tasks.Keys);
      epics := epics[id := epic.(id := id)];
    }

    /**
     * addSubTask: the overlap check and id loop of addTask (clashes tested against the task map),
     * then the subtask is stored and scheduled before its epic is looked up; a missing epic
     * throws with the subtask already stored.  Otherwise its id is appended to the epic's list
     * and the epic's status and schedule are recomputed.
     */
    method AddSubTask(subTask: Entity) returns (outcome: Outcome<Failure>, id: int)
      requires Valid() && subTask.variant.SubTask?
      modifies this`subTasks, this`epics, this`prioritized, this`generatorId
      ensures Valid()
      ensures IsTimeOverlap(old(prioritized), subTask) ==> outcome == Fail(Overlap) && id == subTask.id && unchanged(this)
      ensures !IsTimeOverlap(old(prioritized), subTask) ==>
        && IdAssigned(subTask.id, old(generatorId), old(tasks).Keys, id, generatorId)
        && subTasks == old(subTasks)[id := subTask.(id := id)]
        && prioritized == Scheduled(old(prioritized), subTask.(id := id))
        && tasks == old(tasks) && history == old(history)
      ensures !IsTimeOverlap(old(prioritized), subTask) && subTask.variant.epicId !in old(epics) ==>
        outcome == Fail(NullPointer) && epics == old(epics)
      ensures !IsTimeOverlap(old(prioritized), subTask) && subTask.variant.epicId in old(epics) ==>
        (epics, outcome) == EpicRefresh(Listed(old(epics), subTask.variant.epicId, id), subTasks, subTask.variant.epicId)
    {
      if IsTimeOverlap(prioritized, subTask) {
        return Fail(Overlap), subTask.id;
      }
      id := StoreSubTask(subTask);
      var epicId := subTask.variant.epicId;
      if epicId !in epics {
        return Fail(NullPointer), id;
      }
      outcome := AttachToEpic(epicId, id);
    }

    /** The first half of addSubTask: the id loop, the put into the subtask map, the prioritized add. */
    method StoreSubTask(subTask: Entity) returns (id: int)
      requires Valid() && subTask.variant.SubTask?
      modifies this`subTasks, this`prioritized, this`generatorId
      ensures Valid()
      ensures IdAssigned(subTask.id, old(generatorId), tasks.Keys, id, generatorId)
      ensures subTasks == old(subTasks)[id := subTask.(id := id)]
      ensures prioritized == Scheduled(old(prioritized), subTask.(id := id))
    {
      id, generatorId := AssignId(subTask.id, generatorId, tasks.Keys);
      var stored := subTask.(id := id);
      subTasks := subTasks[id := stored];
      if stored.startTime.Some? {
        prioritized := Insert(prioritized, stored);
      }
    }

    /** The tail of addSubTask: append the id to the epic's list, then recompute the epic. */
    method AttachToEpic(epicId: int, id: int) returns (outcome: Outcome<Failure>)
      requires Valid() && epicId in epics
      modifies this`epics
      ensures Valid()
      ensures (epics, outcome) == EpicRefresh(Listed(old(epics), epicId, id), subTasks, epicId)
    {
      epics := Listed(epics, epicId, id);
      outcome := RefreshEpic(epicId);
    }

    /** updateEpicStatus(epicId) followed by updateEpicTime(epicId), stopping at the first exception. */
    method RefreshEpic(epicId: int) returns (outcome: Outcome<Failure>)
      requires Valid()
      modifies this`epics
      ensures Valid()
      ensures (epics, outcome) == EpicRefresh(old(epics), subTasks, epicId)
    {
      outcome := UpdateEpicStatus(epicId);
      if outcome.Fail? {
        return;
      }
      outcome := UpdateEpicTime(epicId);
    }

    // ------------------------------------------------------------ updating

    /**
     * updateTask: unknown ids are ignored.  The new value replaces the stored one, the stored
     * one's start time is removed from the prioritized set (which throws when the stored one had
     * no start time and the set is not empty), and the new one is scheduled.
     */
    method UpdateTask(task: Entity) returns (outcome: Outcome<Failure>)
      requires Valid()
      modifies this`tasks, this`prioritized
      ensures Valid()
      ensures task.id !in old(tasks) ==> outcome == Pass && tasks == old(tasks) && prioritized == old(prioritized)
      ensures task.id in old(tasks) ==>
        && tasks == old(tasks)[task.id := task]
        && var r := Remove(old(prioritized), Some(old(tasks)[task.id]));
           && (r.Failure? ==> outcome == Fail(NullPointer) && prioritized == old(prioritized))
           && (r.Success? ==> outcome == Pass && Ordered(r.value) && prioritized == Scheduled(r.value, task))
    {
      if task.id !in tasks {
        return Pass;
      }
      var saved := tasks[task.id];
      tasks := tasks[task.id := task];
      var r := Remove(prioritized, Some(saved));
      if r.Failure? {
        return Fail(r.error);
      }
      if prioritized != [] {
        ExceptStartsOrdered(prioritized, {saved.startTime.value});
      }
      prioritized := Scheduled(r.value, task);
      outcome := Pass;
    }

    /** updateEpic: only the stored epic's name and description change. */
    method UpdateEpic(epic: Entity)
      requires Valid() && epic.variant.Epic?
      modifies this`epics
      ensures Valid()
      ensures epic.id !in old(epics) ==> epics == old(epics)
      ensures epic.id in old(epics) ==>
        epics == old(epics)[epic.id := old(epics)[epic.id].(name := epic.name, description := epic.description)]
    {
      if epic.id !in epics {
        return;
      }
      var saved := epics[epic.id];
      epics := epics[epic.id := saved.(name := epic.name, description := epic.description)];
    }

    /**
     * updateSubTask: unknown ids are ignored.  The new value replaces the stored one and the
     * status of the epic it now names is recomputed (its schedule is not); then the prioritized
     * set is updated as in updateTask.
     */
    method UpdateSubTask(subTask: Entity) returns (outcome: Outcome<Failure>)
      requires Valid() && subTask.variant.SubTask?
      modifies this`subTasks, this`epics, this`prioritized
      ensures Valid()
      ensures subTask.id !in old(subTasks) ==>
        outcome == Pass && subTasks == old(subTasks) && epics == old(epics) && prioritized == old(prioritized)
      ensures subTask.id in old(subTasks) ==>
        && subTasks == old(subTasks)[subTask.id := subTask]
        && var s := StatusUpdate(old(epics), subTasks, subTask.variant.epicId);
           && (s.Failure? ==> outcome == Fail(NullPointer) && epics == old(epics) && prioritized == old(prioritized))
           && (s.Success? ==> epics == s.value)
           && var r := Remove(old(prioritized), Some(old(subTasks)[subTask.id]));
              && (s.Success? && r.Failure? ==> outcome == Fail(NullPointer) && prioritized == old(prioritized))
              && (s.Success? && r.Success? ==> outcome == Pass && Ordered(r.value) && prioritized == Scheduled(r.value, subTask))
    {
      if subTask.id !in subTasks {
        return Pass;
      }
      var saved := subTasks[subTask.id];
      subTasks := subTasks[subTask.id := subTask];
      outcome := UpdateEpicStatus(subTask.variant.epicId);
      if outcome.Fail? {
        return;
      }
      var r := Remove(prioritized, Some(saved));
      if r.Failure? {
        return Fail(r.error);
      }
      if prioritized != [] {
        ExceptStartsOrdered(prioritized, {saved.startTime.value});
      }
      prioritized := Scheduled(r.value, subTask);
    }

    // ------------------------------------------------------------ epic recomputation

    /** updateEpicStatus: a missing epic is dereferenced as null; otherwise the scan decides. */
    method UpdateEpicStatus(epicId: int) returns (outcome: Outcome<Failure>)
      requires Valid()
      modifies this`epics
      ensures Valid()
      ensures StatusUpdate(old(epics), subTasks, epicId).Failure? ==> outcome == Fail(NullPointer) && epics == old(epics)
      ensures StatusUpdate(old(epics), subTasks, epicId).Success? ==> outcome == Pass && epics == StatusUpdate(old(epics), subTasks, epicId).value
    {
      if epicId !in epics {
        return Fail(NullPointer);
      }
      var epic := epics[epicId];
      ScanStatusAgreesWithRule(epic.variant.subTaskIds, subTasks);
      var r := StatusFromSubTasks(epic.variant.subTaskIds, subTasks);
      if r.Failure? {
        return Fail(r.error);
      }
      epics := epics[epicId := WithStatus(epic, r.value)];
      outcome := Pass;
    }

    /** updateEpicTime: a missing epic is dereferenced as null; otherwise the schedule loop decides. */
    method UpdateEpicTime(epicId: int) returns (outcome: Outcome<Failure>)
      requires Valid()
      modifies this`epics
      ensures Valid()
      ensures TimeUpdate(old(epics), subTasks, epicId).Failure? ==> outcome == Fail(NullPointer) && epics == old(epics)
      ensures TimeUpdate(old(epics), subTasks, epicId).Success? ==> outcome == Pass && epics == TimeUpdate(old(epics), subTasks, epicId).value
    {
      if epicId !in epics {
        return Fail(NullPointer);
      }
      var epic := epics[epicId];
      var r := TimeFromSubTasks(epic.variant.subTaskIds, subTasks);
      if r.Failure? {
        return Fail(r.error);
      }
      epics := epics[epicId := WithTime(epic, r.value)];
      outcome := Pass;
    }

    // ------------------------------------------------------------ reading

    /** getTaskById: the stored task or null; a found task is recorded in the history. */
    method GetTaskById(taskId: int) returns (r: Option<Entity>)
      modifies this`history
      ensures r.Some? <==> taskId in tasks
      ensures r.Some? ==> r.value == tasks[taskId]
      ensures history == Viewed(old(history), r)
    {
      r := if taskId in tasks then Some(tasks[taskId]) else None;
      history := Viewed(history, r);
    }

    /** getSubTaskById. */
    method GetSubTaskById(subTaskId: int) returns (r: Option<Entity>)
      modifies this`history
      ensures r.Some? <==> subTaskId in subTasks
      ensures r.Some? ==> r.value == subTasks[subTaskId]
      ensures history == Viewed(old(history), r)
    {
      r := if subTaskId in subTasks then Some(subTasks[subTaskId]) else None;
      history := Viewed(history, r);
    }

    /** getEpicById. */
    method GetEpicById(epicId: int) returns (r: Option<Entity>)
      modifies this`history
      ensures r.Some? <==> epicId in epics
      ensures r.Some? ==> r.value == epics[epicId]
      ensures history == Viewed(old(history), r)
    {
      r := if epicId in epics then Some(epics[epicId]) else None;
      history := Viewed(history, r);
    }

    /** getTasks: one entry per stored task. */
    function GetTasks(): (r: seq<Entity>)
      reads this
      ensures |r| == |tasks| && forall e :: e in r <==> e in tasks.Values
    {
      ValuesInKeyOrder(tasks)
    }

    /** getEpics. */
    function GetEpics(): (r: seq<Entity>)
      reads this
      ensures |r| == |epics| && forall e :: e in r <==> e in epics.Values
    {
      ValuesInKeyOrder(epics)
    }

    /** getSubTasks. */
    function GetSubTasks(): (r: seq<Entity>)
      reads this
      ensures |r| == |subTasks| && forall e :: e in r <==> e in subTasks.Values
    {
      ValuesInKeyOrder(subTasks)
    }

    /** getAllTasks: the tasks, then the epics, then the subtasks. */
    function GetAllTasks(): (r: seq<Entity>)
      reads this
      ensures |r| == |tasks| + |epics| + |subTasks|
      ensures forall e :: e in r <==> e in tasks.Values || e in epics.Values || e in subTasks.Values
      ensures r[..|tasks|] == GetTasks() && r[|tasks|..|tasks| + |epics|] == GetEpics() && r[|tasks| + |epics|..] == GetSubTasks()
    {
      GetTasks() + GetEpics() + GetSubTasks()
    }

    /** getPrioritizedTasks: the scheduled entities in ascending start time. */
    function GetPrioritizedTasks(): (r: seq<Entity>)
      reads this
      requires Valid()
      ensures Ordered(r)
      ensures forall e :: e in r ==> e.startTime.Some?
    {
      prioritized
    }

    /** getSubTasksOfEpic. */
    function GetSubTasksOfEpic(epic: Entity): (r: seq<Option<Entity>>)
      reads this
      requires epic.variant.Epic?
      ensures r == SubTasksOfEpic(epic, subTasks)
    {
      SubTasksOfEpic(epic, subTasks)
    }

    // ------------------------------------------------------------ removing

    /** removeAll: every map, the prioritized set and the history are emptied; the counter stays. */
    method RemoveAll()
      requires Valid()
      modifies this`tasks, this`epics, this`subTasks, this`prioritized, this`history
      ensures Valid()
      ensures tasks == map[] && epics == map[] && subTasks == map[] && prioritized == [] && history == []
    {
      history := [];
      prioritized := [];
      tasks, subTasks, epics := map[], map[], map[];
    }

    /**
     * The loop removeAllTasks, removeAllSubTasks and removeAllEpics run over a map's values, in
     * HashMap order: each entity leaves the history and the prioritized set.  An entity without
     * a start time throws if the prioritized set is not empty when its turn comes.
     */
    method DropFromViews(m: map<int, Entity>) returns (outcome: Outcome<Failure>)
      requires Ordered(prioritized) && forall k :: k in m ==> m[k].id == k
      modifies this`history, this`prioritized
      ensures Ordered(prioritized)
      ensures outcome.Pass? ==>
        && history == Forget(old(history), m.Keys)
        && prioritized == ExceptStarts(old(prioritized), StartsOf(m, m.Keys))
      ensures outcome.Fail? ==> outcome.error == NullPointer && old(prioritized) != [] && exists k :: k in m && m[k].startTime.None?
      ensures old(prioritized) == [] || (forall k :: k in m ==> m[k].startTime.Some?) ==> outcome.Pass?
    {
      var keys := SortedKeys(m.Keys);
      ghost var done: set<int> := {};
      ExceptStartsNone(prioritized);
      ForgetNone(history);
      assert StartsOf(m, {}) == {};
      for i := 0 to |keys|
        invariant done == Elements(keys[..i])
        invariant Ordered(prioritized)
        invariant history == Forget(old(history), done)
        invariant prioritized == ExceptStarts(old(prioritized), StartsOf(m, done))
        invariant old(prioritized) == [] ==> prioritized == []
      {
        var entity := m[keys[i]];
        DropTurn(old(history), history, old(prioritized), prioritized, m, done, keys[i]);
        history := Forget(history, {entity.id});
        var r := Remove(prioritized, Some(entity));
        if r.Failure? {
          return Fail(r.error);
        }
        ElementsSnoc(keys, i);
        done := done + {keys[i]};
        prioritized := r.value;
      }
      AllKeysVisited(m.Keys);
      outcome := Pass;
    }

    /** The epic loop of removeAllEpics: each epic id leaves the history. */
    method ForgetEach(keys: set<int>)
      modifies this`history
      ensures history == Forget(old(history), keys)
    {
      var order := SortedKeys(keys);
      ghost var done: set<int> := {};
      ForgetNone(history);
      for i := 0 to |order|
        invariant done == Elements(order[..i])
        invariant history == Forget(old(history), done)
      {
        ForgetTwice(old(history), done, {order[i]});
        history := Forget(history, {order[i]});
        ElementsSnoc(order, i);
        done := done + {order[i]};
      }
      AllKeysVisited(keys);
    }

    /**
     * removeAllTasks: every task leaves the history and the prioritized set, then the task map is
     * cleared.  A task without a start time throws while the prioritized set is not empty, and
     * the task map then stays as it was.
     */
    method RemoveAllTasks() returns (outcome: Outcome<Failure>)
      requires Valid()
      modifies this`tasks, this`history, this`prioritized
      ensures Valid()
      ensures outcome.Pass? ==>
        && tasks == map[]
        && history == Forget(old(history), old(tasks).Keys)
        && prioritized == ExceptStarts(old(prioritized), StartsOf(old(tasks), old(tasks).Keys))
      ensures outcome.Fail? ==> outcome.error == NullPointer && tasks == old(tasks)
      ensures old(prioritized) == [] || (forall k :: k in old(tasks) ==> old(tasks)[k].startTime.Some?) ==> outcome.Pass?
    {
      outcome := DropFromViews(tasks);
      if outcome.Fail? {
        return;
      }
      tasks := map[];
    }

    /**
     * removeAllSubTasks: every subtask leaves the history and the prioritized set, the subtask
     * map is cleared, then every epic's list is emptied and the epic recomputed, which leaves it
     * NEW with zero duration and no start or end.
     */
    method RemoveAllSubTasks() returns (outcome: Outcome<Failure>)
      requires Valid()
      modifies this`subTasks, this`epics, this`history, this`prioritized
      ensures Valid()
      ensures outcome.Pass? ==>
        && subTasks == map[]
        && epics == ClearedOn(old(epics), old(epics).Keys)
        && history == Forget(old(history), old(subTasks).Keys)
        && prioritized == ExceptStarts(old(prioritized), StartsOf(old(subTasks), old(subTasks).Keys))
      ensures outcome.Fail? ==> outcome.error == NullPointer && subTasks == old(subTasks) && epics == old(epics)
      ensures old(prioritized) == [] || (forall k :: k in old(subTasks) ==> old(subTasks)[k].startTime.Some?) ==> outcome.Pass?
    {
      outcome := DropFromViews(subTasks);
      if outcome.Fail? {
        return;
      }
      subTasks := map[];
      ClearEpics();
    }

    /** The epic loop of removeAllSubTasks. */
    method ClearEpics()
      requires Valid()
      modifies this`epics
      ensures Valid()
      ensures epics == ClearedOn(old(epics), old(epics).Keys)
    {
      var keys := SortedKeys(epics.Keys);
      ClearedOnNone(epics);
      ghost var done: set<int> := {};
      for i := 0 to |keys|
        invariant Valid()
        invariant done == Elements(keys[..i])
        invariant epics == ClearedOn(old(epics), done)
      {
        ClearEpic(keys[i]);
        ClearStep(old(epics), done, keys[i]);
        ElementsSnoc(keys, i);
        done := done + {keys[i]};
      }
      AllKeysVisited(epics.Keys);
    }

    /** One round of that loop: the epic's list is emptied and its status and schedule recomputed. */
    method ClearEpic(k: int)
      requires Valid() && k in epics
      modifies this`epics
      ensures Valid()
      ensures epics == old(epics)[k := Cleared(old(epics)[k])]
    {
      var epic := epics[k];
      epics := epics[k := epic.(variant := epic.variant.(subTaskIds := []))];
      ghost var emptied := epics;
      EpicRefreshEmpty(emptied, subTasks, k);
      var _ := RefreshEpic(k);
      assert Cleared(emptied[k]) == Cleared(epic);
    }

    /**
     * removeAllEpics: every epic leaves the history and the epic map is cleared; then every
     * subtask leaves the history and the prioritized set and the subtask map is cleared.
     */
    method RemoveAllEpics() returns (outcome: Outcome<Failure>)
      requires Valid()
      modifies this`subTasks, this`epics, this`history, this`prioritized
      ensures Valid()
      ensures epics == map[]
      ensures outcome.Pass? ==>
        && subTasks == map[]
        && history == Forget(old(history), old(epics).Keys + old(subTasks).Keys)
        && prioritized == ExceptStarts(old(prioritized), StartsOf(old(subTasks), old(subTasks).Keys))
      ensures outcome.Fail? ==> outcome.error == NullPointer && subTasks == old(subTasks)
      ensures old(prioritized) == [] || (forall k :: k in old(subTasks) ==> old(subTasks)[k].startTime.Some?) ==> outcome.Pass?
    {
      ForgetEach(epics.Keys);
      epics := map[];
      outcome := DropFromViews(subTasks);
      if outcome.Fail? {
        return;
      }
      ForgetTwice(old(history), old(epics).Keys, old(subTasks).Keys);
      subTasks := map[];
    }

    /**
     * removeTask: a stored task leaves the task map and the history; the prioritized set is then
     * asked to remove the result of getTaskById(id), which is null by now, so the scheduled entry
     * stays and the call throws whenever the set is not empty.
     */
    method RemoveTask(id: int) returns (outcome: Outcome<Failure>)
      requires Valid()
      modifies this`tasks, this`history, this`prioritized
      ensures Valid()
      ensures prioritized == old(prioritized)
      ensures tasks == old(tasks) - {id}
      ensures id !in old(tasks) ==> outcome == Pass && history == old(history)
      ensures id in old(tasks) ==>
        && history == Forget(old(history), {id})
        && (outcome.Pass? <==> old(prioritized) == [])
        && (outcome.Fail? ==> outcome.error == NullPointer)
    {
      if id !in tasks {
        assert tasks == tasks - {id};
        return Pass;
      }
      tasks := tasks - {id};
      history := Forget(history, {id});
      var found := GetTaskById(id);
      var r := Remove(prioritized, found);
      if r.Failure? {
        return Fail(r.error);
      }
      prioritized := r.value;
      outcome := Pass;
    }

    /** removeSubTask(id) ends without an exception from the current state. */
    ghost predicate SubTaskRemovalPasses(id: int)
      reads this
      requires Valid()
    {
      id !in subTasks
        || (prioritized == []
            && subTasks[id].variant.epicId in epics
            && EpicRefresh(Unlisted(epics, subTasks[id].variant.epicId, id), subTasks - {id},
                           subTasks[id].variant.epicId).1.Pass?)
    }

    /**
     * removeSubTask: a stored subtask leaves the subtask map and the history; the prioritized set
     * is asked to remove null as in removeTask.  Then the id leaves its epic's list (a missing
     * epic throws) and the epic is recomputed.
     */
    method RemoveSubTask(id: int) returns (outcome: Outcome<Failure>)
      requires Valid()
      modifies this`subTasks, this`epics, this`history, this`prioritized
      ensures Valid()
      ensures outcome.Pass? <==> old(SubTaskRemovalPasses(id))
      ensures prioritized == old(prioritized)
      ensures subTasks == old(subTasks) - {id}
      ensures id !in old(subTasks) ==> outcome == Pass && epics == old(epics) && history == old(history)
      ensures id in old(subTasks) ==>
        && history == Forget(old(history), {id})
        && var epicId := old(subTasks)[id].variant.epicId;
           && (old(prioritized) != [] || epicId !in old(epics) ==> outcome == Fail(NullPointer) && epics == old(epics))
           && (old(prioritized) == [] && epicId in old(epics) ==>
                 (epics, outcome) == EpicRefresh(Unlisted(old(epics), epicId, id), subTasks, epicId))
    {
      if id !in subTasks {
        assert subTasks == subTasks - {id};
        return Pass;
      }
      var epicId := subTasks[id].variant.epicId;
      subTasks := subTasks - {id};
      history := Forget(history, {id});
      var found := GetSubTaskById(id);
      var r := Remove(prioritized, found);
      if r.Failure? {
        return Fail(r.error);
      }
      prioritized := r.value;
      if epicId !in epics {
        return Fail(NullPointer);
      }
      epics := Unlisted(epics, epicId, id);
      outcome := RefreshEpic(epicId);
    }

    /**
     * removeEpic: each id on the epic's list leaves the subtask map and the history, then the
     * epic leaves the epic map and the history.  The prioritized set is not touched.
     */
    method RemoveEpic(id: int)
      requires Valid()
      modifies this`subTasks, this`epics, this`history
      ensures Valid()
      ensures epics == old(epics) - {id}
      ensures id !in old(epics) ==> subTasks == old(subTasks) && history == old(history)
      ensures id in old(epics) ==>
        && subTasks == old(subTasks) - Elements(old(epics)[id].variant.subTaskIds)
        && history == Forget(old(history), Elements(old(epics)[id].variant.subTaskIds) + {id})
    {
      if id !in epics {
        assert epics == epics - {id};
        return;
      }
      var ids := epics[id].variant.subTaskIds;
      DropSubTasks(ids);
      epics := epics - {id};
      ForgetTwice(old(history), Elements(ids), {id});
      history := Forget(history, {id});
    }

    /** The forEach of removeEpic over the epic's list: each id leaves the subtask map and the history. */
    method DropSubTasks(ids: seq<int>)
      modifies this`subTasks, this`history
      ensures subTasks == old(subTasks) - Elements(ids)
      ensures history == Forget(old(history), Elements(ids))
    {
      ForgetNone(history);
      ghost var done: set<int> := {};
      assert Elements(ids[..0]) == {};
      for i := 0 to |ids|
        invariant done == Elements(ids[..i])
        invariant subTasks == old(subTasks) - done
        invariant history == Forget(old(history), done)
      {
        ElementsSnoc(ids, i);
        subTasks := subTasks - {ids[i]};
        ForgetTwice(old(history), done, {ids[i]});
        history := Forget(history, {ids[i]});
        done := done + {ids[i]};
      }
      assert ids[..|ids|] == ids;
    }
  }
}

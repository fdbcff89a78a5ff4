/**
 * The pure rules behind InMemoryTaskManager (src/manager/InMemoryTaskManager.java): the
 * time-overlap check, id generation, HashMap iteration order, and the effect of the epic
 * recomputations on the epic map.
 */
module ManagerRules {
  import opened Wrappers
  import opened Errors
  import opened Tasks
  import opened Prioritized
  import opened EpicRules

  // ---------------------------------------------------------------- overlap

  /**
   * `task.getId() == newTask.getId()` compares two boxed Integers by reference; Integer.valueOf
   * shares one object per value only inside -128..127, so equal ids outside that range compare
   * unequal.
   */
  predicate SameBoxedId(a: int, b: int)
  {
    a == b && -128 <= a <= 127
  }

  /** The predicate isTimeOverlap tests against one entry of the prioritized set. */
  predicate Conflicts(e: Entity, t: Entity)
  {
    && !SameBoxedId(e.id, t.id)
    && e.startTime.Some? && t.startTime.Some?
    && e.startTime.value < EndTime(t).value
    && t.startTime.value < EndTime(e).value
  }

  /** isTimeOverlap: some entry of the prioritized set conflicts with the new entity. */
  function IsTimeOverlap(p: seq<Entity>, t: Entity): (r: bool)
    ensures r <==> exists i :: 0 <= i < |p| && Conflicts(p[i], t)
  {
    if p == [] then false
    else
      var rest := IsTimeOverlap(p[1..], t);
      assert forall i :: 1 <= i < |p| ==> p[i] == p[1..][i - 1];
      Conflicts(p[0], t) || rest
  }

  /** An entity without a start time never overlaps anything. */
  lemma UnscheduledNeverOverlaps(p: seq<Entity>, t: Entity)
    requires t.startTime.None?
    ensures !IsTimeOverlap(p, t)
  {
  }

  /** Two scheduled entities with different ids overlap exactly when their half-open intervals intersect, either way round. */
  lemma ConflictsSymmetric(e: Entity, t: Entity)
    ensures Conflicts(e, t) <==> Conflicts(t, e)
  {
  }

  /**
   * The boxed comparison lets an entity overlap a stored copy of itself once its id is above 127:
   * re-adding a scheduled task with id 128 and positive duration is refused, while id 127 is not.
   */
  lemma SelfOverlapAboveCache(e: Entity)
    requires e.startTime.Some? && e.duration > 0
    ensures e.id > 127 ==> IsTimeOverlap([e], e)
    ensures 0 <= e.id <= 127 ==> !IsTimeOverlap([e], e)
  {
  }

  // ---------------------------------------------------------------- id generation

  /** id is the first counter value above generator that is not a key of taken. */
  predicate FreshId(generator: int, taken: set<int>, id: int)
  {
    generator < id && id !in taken && forall k :: generator < k < id ==> k in taken
  }

  /**
   * The outcome of the id loop of addTask/addEpic/addSubTask: an entity that already has a
   * non-zero id keeps it and the counter does not move; otherwise it gets the fresh id and the
   * counter stops there.
   */
  predicate IdAssigned(current: int, generator: int, taken: set<int>, id: int, generator': int)
  {
    && (current != 0 ==> id == current && generator' == generator)
    && (current == 0 ==> FreshId(generator, taken, id) && generator' == id)
  }

  /** A finite set of integers has an upper bound. */
  lemma UpperBound(s: set<int>) returns (b: int)
    ensures forall k :: k in s ==> k <= b
  {
    if |s| == 0 {
      b := 0;
    } else {
      assert exists x :: x in s by {
        if forall x :: x !in s { assert false; }
      }
      var x :| x in s;
      var b' := UpperBound(s - {x});
      b := if x > b' then x else b';
      assert forall k :: k in s ==> k == x || k in s - {x};
    }
  }

  /**
   * The id loop: while the entity's id is 0, take the next counter value and keep it unless the
   * task map already has that key.
   */
  method AssignId(current: int, generator: int, taken: set<int>) returns (id: int, generator': int)
    requires generator >= 0
    ensures IdAssigned(current, generator, taken, id, generator')
    ensures id != 0 && generator' >= generator
  {
    id, generator' := current, generator;
    ghost var top := UpperBound(taken);
    while id == 0
      invariant current != 0 ==> id == current && generator' == generator
      invariant current == 0 ==> generator <= generator' && forall k :: generator < k < generator' ==> k in taken
      invariant current == 0 && id != 0 ==> id == generator' && generator < generator' && id !in taken
      invariant current == 0 && id == 0 ==> generator' == generator || generator' in taken
      decreases if id == 0 then 1 else 0, top - generator'
    {
      generator' := generator' + 1;
      id := generator';
      if id in taken {
        id := 0;
      }
    }
  }

  // ---------------------------------------------------------------- HashMap order

  /** A non-empty finite set of integers has a least element. */
  lemma MinExists(s: set<int>)
    requires |s| > 0
    ensures exists m :: m in s && forall k :: k in s ==> m <= k
    decreases |s|
  {
    assert exists x :: x in s by {
      if forall x :: x !in s { assert false; }
    }
    var x :| x in s;
    if |s - {x}| == 0 {
      assert forall k :: k in s ==> k == x || k in s - {x};
      assert forall k :: k in s ==> x <= k;
    } else {
      MinExists(s - {x});
      var m :| m in s - {x} && forall k :: k in s - {x} ==> m <= k;
      assert forall k :: k in s ==> k == x || k in s - {x};
      if x < m {
        assert forall k :: k in s ==> x <= k;
      } else {
        assert forall k :: k in s ==> m <= k;
      }
    }
  }

  /** The least element of a non-empty finite set of integers. */
  function MinOf(s: set<int>): (m: int)
    requires |s| > 0
    ensures m in s && forall k :: k in s ==> m <= k
  {
    MinExists(s);
    var m :| m in s && forall k :: k in s ==> m <= k;
    m
  }

  /**
   * The keys of a HashMap<Integer, _> in iteration order.  Integer keys hash to themselves, so
   * for the small positive ids the manager generates the order is ascending; it is taken to be
   * ascending throughout.
   */
  function SortedKeys(s: set<int>): (r: seq<int>)
    ensures |r| == |s| && forall k :: k in r <==> k in s
    ensures forall i :: 0 <= i < |r| ==> r[i] in s
    ensures forall i, j :: 0 <= i < j < |r| ==> r[i] < r[j]
    decreases |s|
  {
    if |s| == 0 then []
    else
      var m := MinOf(s);
      var rest := SortedKeys(s - {m});
      SortedCons(s, m, rest);
      [m] + rest
  }

  /** Putting the least element in front of the sorted rest sorts the whole set. */
  lemma SortedCons(s: set<int>, m: int, rest: seq<int>)
    requires m in s && forall k :: k in s ==> m <= k
    requires |rest| == |s - {m}| && forall k :: k in rest <==> k in s - {m}
    requires forall i :: 0 <= i < |rest| ==> rest[i] in s - {m}
    requires forall i, j :: 0 <= i < j < |rest| ==> rest[i] < rest[j]
    ensures |[m] + rest| == |s| && forall k :: k in [m] + rest <==> k in s
    ensures forall i :: 0 <= i < |[m] + rest| ==> ([m] + rest)[i] in s
    ensures forall i, j :: 0 <= i < j < |[m] + rest| ==> ([m] + rest)[i] < ([m] + rest)[j]
  {
    var r := [m] + rest;
    assert |s - {m}| == |s| - 1;
    assert forall k :: k in r <==> k == m || k in rest;
    forall i, j | 0 <= i < j < |r| ensures r[i] < r[j] {
      assert r[j] == rest[j - 1] && rest[j - 1] in s - {m};
      if i > 0 {
        assert r[i] == rest[i - 1];
      }
    }
  }

  /** The values stored under keys, in the order of keys. */
  function ValuesAt(m: map<int, Entity>, keys: seq<int>): (r: seq<Entity>)
    requires forall i :: 0 <= i < |keys| ==> keys[i] in m
    ensures |r| == |keys| && forall i :: 0 <= i < |r| ==> r[i] == m[keys[i]]
  {
    seq(|keys|, i requires 0 <= i < |keys| => m[keys[i]])
  }

  /** Listing every key of m lists every value of m, and nothing else. */
  lemma ValuesAtCovers(m: map<int, Entity>, keys: seq<int>)
    requires forall i :: 0 <= i < |keys| ==> keys[i] in m
    requires forall k :: k in m ==> k in keys
    ensures forall e :: e in ValuesAt(m, keys) <==> e in m.Values
  {
    var r := ValuesAt(m, keys);
    forall k | k in m ensures m[k] in r {
      var i :| 0 <= i < |keys| && keys[i] == k;
      assert r[i] == m[k];
    }
    forall e | e in r ensures e in m.Values {
      var i :| 0 <= i < |r| && r[i] == e;
      var k := keys[i];
      assert k in m && m[k] == e;
    }
  }

  /** values() of a map in key order. */
  function ValuesInKeyOrder(m: map<int, Entity>): (r: seq<Entity>)
    ensures |r| == |m|
    ensures forall i :: 0 <= i < |r| ==> r[i] == m[SortedKeys(m.Keys)[i]]
    ensures forall e :: e in r <==> e in m.Values
  {
    var keys := SortedKeys(m.Keys);
    assert |m.Keys| == |m|;
    ValuesAtCovers(m, keys);
    ValuesAt(m, keys)
  }

  /** getSubTasksOfEpic: the stored subtask for each listed id, null for an id not stored. */
  function SubTasksOfEpic(epic: Entity, subTasks: map<int, Entity>): (r: seq<Option<Entity>>)
    requires epic.variant.Epic?
    ensures |r| == |epic.variant.subTaskIds|
    ensures forall i :: 0 <= i < |r| ==> (r[i].Some? <==> epic.variant.subTaskIds[i] in subTasks)
    ensures forall i :: 0 <= i < |r| && r[i].Some? ==> r[i].value == subTasks[epic.variant.subTaskIds[i]]
  {
    var ids := epic.variant.subTaskIds;
    seq(|ids|, i requires 0 <= i < |ids| => if ids[i] in subTasks then Some(subTasks[ids[i]]) else None)
  }

  // ---------------------------------------------------------------- epic recomputation

  /** Well-typed epic map: every value is an epic. */
  predicate EpicsTyped(epics: map<int, Entity>)
  {
    forall k :: k in epics ==> epics[k].variant.Epic?
  }

  /**
   * updateEpicStatus(epicId) on the epic map: only the epic's status changes; with every listed
   * subtask stored it gets the status rule, otherwise the scan throws or has settled on
   * IN_PROGRESS first.  A missing epic or listed subtask is the only cause of the null dereference.
   */
  function StatusUpdate(epics: map<int, Entity>, subTasks: map<int, Entity>, epicId: int): (r: Result<map<int, Entity>, Failure>)
    requires EpicsTyped(epics)
    ensures r.Success? ==> EpicsTyped(r.value) && r.value.Keys == epics.Keys
    ensures r.Failure? ==> r.error == NullPointer
    ensures r.Failure? ==> epicId !in epics || !AllListed(epics[epicId].variant.subTaskIds, subTasks)
    ensures r.Success? ==>
      && epicId in epics
      && (forall k :: k in epics && k != epicId ==> r.value[k] == epics[k])
      && r.value[epicId] == epics[epicId].(status := r.value[epicId].status)
    ensures epicId in epics && AllListed(epics[epicId].variant.subTaskIds, subTasks) ==>
      r.Success? && r.value[epicId].status == EpicStatusRule(Statuses(Lookup(epics[epicId].variant.subTaskIds, subTasks)))
    ensures r.Success? && !AllListed(epics[epicId].variant.subTaskIds, subTasks) ==> r.value[epicId].status == InProgress
  {
    if epicId !in epics then Failure(NullPointer)
    else
      ScanStatusAgreesWithRule(epics[epicId].variant.subTaskIds, subTasks);
      match ScanStatus(epics[epicId].variant.subTaskIds, subTasks)
      case Failure(e) => Failure(e)
      case Success(s) => Success(epics[epicId := WithStatus(epics[epicId], s)])
  }

  /**
   * updateEpicStatus does not always look at every listed id: once two subtasks differ it settles
   * on IN_PROGRESS, so an id listed after them that names no stored subtask goes unnoticed.
   */
  lemma StatusUpdateSettlesBeforeMissing()
    ensures var epic := MakeEpic(1, "e", "d", New).(variant := Epic([2, 3, 4], None));
      var subTasks := map[2 := MakeSubTask(1, 2, "a", "d", New, 0), 3 := MakeSubTask(1, 3, "b", "d", Done, 0)];
      && !AllListed(epic.variant.subTaskIds, subTasks)
      && StatusUpdate(map[1 := epic], subTasks, 1) == Success(map[1 := epic.(status := InProgress)])
  {
    var epic := MakeEpic(1, "e", "d", New).(variant := Epic([2, 3, 4], None));
    var subTasks := map[2 := MakeSubTask(1, 2, "a", "d", New, 0), 3 := MakeSubTask(1, 3, "b", "d", Done, 0)];
    assert epic.variant.subTaskIds[2] !in subTasks;
    assert [2, 3, 4][1..] == [3, 4];
    assert ScanFrom([3, 4], subTasks, New) == Success(InProgress);
    assert ScanStatus([2, 3, 4], subTasks) == Success(InProgress);
    var epics := map[1 := epic];
    assert epics[1].variant.subTaskIds == [2, 3, 4];
    assert StatusUpdate(epics, subTasks, 1) == Success(epics[1 := WithStatus(epic, InProgress)]);
    assert epics[1 := WithStatus(epic, InProgress)] == map[1 := epic.(status := InProgress)];
  }

  /**
   * updateEpicTime(epicId) on the epic map: it succeeds exactly when the epic and every listed
   * subtask are stored and no unscheduled subtask follows a scheduled one, and then only the
   * epic's duration, start and end change, to the aggregate of its subtasks.
   */
  function TimeUpdate(epics: map<int, Entity>, subTasks: map<int, Entity>, epicId: int): (r: Result<map<int, Entity>, Failure>)
    requires EpicsTyped(epics)
    ensures r.Success? ==> EpicsTyped(r.value) && r.value.Keys == epics.Keys
    ensures r.Failure? ==> r.error == NullPointer
    ensures r.Success? <==>
      epicId in epics && AllListed(epics[epicId].variant.subTaskIds, subTasks)
      && !UnscheduledAfterScheduled(Lookup(epics[epicId].variant.subTaskIds, subTasks))
    ensures r.Success? ==>
      && (forall k :: k in epics && k != epicId ==> r.value[k] == epics[k])
      && var e := r.value[epicId];
         var t := Aggregate(Lookup(epics[epicId].variant.subTaskIds, subTasks));
         && e.id == epics[epicId].id && e.name == epics[epicId].name && e.description == epics[epicId].description
         && e.status == epics[epicId].status && e.variant.subTaskIds == epics[epicId].variant.subTaskIds
         && e.duration == t.duration && e.startTime == t.startTime && e.variant.endTime == t.endTime
  {
    if epicId !in epics then Failure(NullPointer)
    else
      var ids := epics[epicId].variant.subTaskIds;
      if AllListed(ids, subTasks) && !UnscheduledAfterScheduled(Lookup(ids, subTasks)) then
        Success(epics[epicId := WithTime(epics[epicId], Aggregate(Lookup(ids, subTasks)))])
      else Failure(NullPointer)
  }

  /** The epic map after updateEpicStatus then updateEpicTime, and whether one of them threw. */
  function EpicRefresh(epics: map<int, Entity>, subTasks: map<int, Entity>, epicId: int): (r: (map<int, Entity>, Outcome<Failure>))
    requires EpicsTyped(epics)
    ensures EpicsTyped(r.0) && r.0.Keys == epics.Keys
  {
    match StatusUpdate(epics, subTasks, epicId)
    case Failure(e) => (epics, Fail(e))
    case Success(m) =>
      match TimeUpdate(m, subTasks, epicId)
      case Failure(e) => (m, Fail(e))
      case Success(m') => (m', Pass)
  }

  /**
   * When every subtask the epic lists is stored and no unscheduled one follows a scheduled one,
   * the recomputation succeeds and the epic gets the status rule and the schedule rule.
   */
  lemma EpicRefreshConsistent(epics: map<int, Entity>, subTasks: map<int, Entity>, epicId: int)
    requires EpicsTyped(epics) && epicId in epics
    requires AllListed(epics[epicId].variant.subTaskIds, subTasks)
    requires !UnscheduledAfterScheduled(Lookup(epics[epicId].variant.subTaskIds, subTasks))
    ensures EpicRefresh(epics, subTasks, epicId) == (epics[epicId := Refreshed(epics[epicId], subTasks)], Pass)
  {
    var epic := epics[epicId];
    var ids := epic.variant.subTaskIds;
    ScanStatusAgreesWithRule(ids, subTasks);
    var m := epics[epicId := WithStatus(epic, EpicStatusRule(Statuses(Lookup(ids, subTasks))))];
    assert StatusUpdate(epics, subTasks, epicId) == Success(m);
    assert m[epicId].variant.subTaskIds == ids;
    var m' := m[epicId := WithTime(m[epicId], Aggregate(Lookup(ids, subTasks)))];
    assert TimeUpdate(m, subTasks, epicId) == Success(m');
    assert m' == epics[epicId := Refreshed(epic, subTasks)];
  }

  /** The recomputation throws exactly when the epic is missing, a listed subtask is missing, or the schedule clashes. */
  lemma EpicRefreshFails(epics: map<int, Entity>, subTasks: map<int, Entity>, epicId: int)
    requires EpicsTyped(epics)
    ensures EpicRefresh(epics, subTasks, epicId).1.Fail? <==>
      epicId !in epics
      || !AllListed(epics[epicId].variant.subTaskIds, subTasks)
      || UnscheduledAfterScheduled(Lookup(epics[epicId].variant.subTaskIds, subTasks))
    ensures EpicRefresh(epics, subTasks, epicId).1.Fail? ==> EpicRefresh(epics, subTasks, epicId).1.error == NullPointer
  {
    if epicId in epics {
      ScanStatusAgreesWithRule(epics[epicId].variant.subTaskIds, subTasks);
    }
  }

  /** An epic with an emptied list: NEW, zero duration, no start, no end. */
  function Cleared(epic: Entity): (r: Entity)
    requires epic.variant.Epic?
    ensures r.variant.Epic? && r.variant.subTaskIds == []
  {
    epic.(status := New, duration := 0, startTime := None, variant := Epic([], None))
  }

  /** Recomputing an epic whose list is empty always succeeds and clears it. */
  lemma EpicRefreshEmpty(epics: map<int, Entity>, subTasks: map<int, Entity>, epicId: int)
    requires EpicsTyped(epics) && epicId in epics && epics[epicId].variant.subTaskIds == []
    ensures EpicRefresh(epics, subTasks, epicId) == (epics[epicId := Cleared(epics[epicId])], Pass)
  {
    var epic := epics[epicId];
    assert ScanStatus([], subTasks) == Success(New);
    var m := epics[epicId := WithStatus(epic, New)];
    assert StatusUpdate(epics, subTasks, epicId) == Success(m);
    assert AllListed([], subTasks) && Lookup([], subTasks) == [];
    assert Aggregate([]) == EpicTime(0, None, None);
    var m' := m[epicId := WithTime(m[epicId], EpicTime(0, None, None))];
    assert TimeUpdate(m, subTasks, epicId) == Success(m');
    assert WithTime(m[epicId], EpicTime(0, None, None)) == Cleared(epic);
    assert m' == epics[epicId := Cleared(epic)];
  }
}

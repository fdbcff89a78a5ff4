/**
 * The entity model of src/tasks: Task, Epic and SubTask (also published as Subtask).
 *
 * Java's three classes become one value type `Entity` whose `variant` records the runtime
 * class and the subclass field (an epic's list of subtask ids, a subtask's epic id), and one
 * mutable class `Task` that carries the same fields and the setters.  Durations and start
 * times are whole minutes on a fixed time line; a `None` start time is Java's `null`.
 */
module Tasks {
  import opened Wrappers

  /** TaskStatus. */
  datatype Status = New | InProgress | Done

  /** TaskType, the answer of getType(). */
  datatype TaskType = TypeTask | TypeEpic | TypeSubTask

  /** The runtime class of an entity, with the field that class adds to Task. */
  datatype Variant =
    | PlainTask
    | Epic(subTaskIds: seq<int>, endTime: Option<int>)
    | SubTask(epicId: int)

  datatype Entity = Entity(
    id: int,
    name: string,
    description: string,
    status: Status,
    duration: int,
    startTime: Option<int>,
    variant: Variant)

  /** The value built by a Task constructor; the id-less ones pass id 0, the ones without minutes pass 0. */
  function MakeTask(id: int, name: string, description: string, status: Status, minutes: int): Entity
  {
    Entity(id, name, description, status, minutes, None, PlainTask)
  }

  /** The value built by an Epic constructor: no start time, zero duration, an empty subtask list. */
  function MakeEpic(id: int, name: string, description: string, status: Status): Entity
  {
    Entity(id, name, description, status, 0, None, Epic([], None))
  }

  /** The value built by a SubTask constructor. */
  function MakeSubTask(epicId: int, id: int, name: string, description: string, status: Status, minutes: int): Entity
  {
    Entity(id, name, description, status, minutes, None, SubTask(epicId))
  }

  /** getEndTime: start plus duration, or null when there is no start. */
  function EndTime(e: Entity): (r: Option<int>)
    ensures r.None? <==> e.startTime.None?
    ensures r.Some? ==> r.value - e.startTime.value == e.duration
  {
    if e.startTime.Some? then Some(e.startTime.value + e.duration) else None
  }

  /** getType: SubTask overrides it; Epic inherits Task's and so reports TASK. */
  function TypeOf(e: Entity): (t: TaskType)
    ensures t == TypeSubTask <==> e.variant.SubTask?
    ensures t != TypeEpic
  {
    if e.variant.SubTask? then TypeSubTask else TypeTask
  }

  /** getClass() == o.getClass(). */
  predicate SameClass(a: Variant, b: Variant)
  {
    (a.PlainTask? && b.PlainTask?) || (a.Epic? && b.Epic?) || (a.SubTask? && b.SubTask?)
  }

  /**
   * equals: same runtime class, same id, status, name and description, and for an epic the
   * same subtask-id list (in order), for a subtask the same epic id.  Duration, start time and
   * an epic's end time take no part.
   */
  predicate Equal(a: Entity, b: Entity)
  {
    && SameClass(a.variant, b.variant)
    && a.id == b.id && a.status == b.status && a.name == b.name && a.description == b.description
    && (a.variant.Epic? ==> a.variant.subTaskIds == b.variant.subTaskIds)
    && (a.variant.SubTask? ==> a.variant.epicId == b.variant.epicId)
  }

  /** equals is an equivalence relation. */
  lemma EqualIsEquivalence(a: Entity, b: Entity, c: Entity)
    ensures Equal(a, a)
    ensures Equal(a, b) ==> Equal(b, a)
    ensures Equal(a, b) && Equal(b, c) ==> Equal(a, c)
  {
  }

  /** Two entities that differ only in duration and start time are equal. */
  lemma EqualIgnoresSchedule(e: Entity, minutes: int, start: Option<int>)
    ensures Equal(e, e.(duration := minutes, startTime := start))
  {
  }

  /** A task, an epic and a subtask are never equal to each other, whatever their fields. */
  lemma EqualNeedsSameClass(a: Entity, b: Entity)
    requires a.variant.PlainTask? != b.variant.PlainTask? || a.variant.Epic? != b.variant.Epic?
    ensures !Equal(a, b)
  {
  }

  /** ArrayList.indexOf: the position of the first occurrence of x. */
  function IndexOf(s: seq<int>, x: int): (i: int)
    requires x in s
    ensures 0 <= i < |s| && s[i] == x && x !in s[..i]
  {
    if s[0] == x then 0
    else
      var j := IndexOf(s[1..], x);
      assert s[..j + 1] == [s[0]] + s[1..][..j];
      j + 1
  }

  /** ArrayList.remove(Object): drop the first occurrence of x, if any. */
  function RemoveFirst(s: seq<int>, x: int): (r: seq<int>)
    ensures x !in s ==> r == s
    ensures x in s ==> exists i :: 0 <= i < |s| && s[i] == x && x !in s[..i] && r == s[..i] + s[i + 1..]
  {
    if x in s then
      var i := IndexOf(s, x);
      s[..i] + s[i + 1..]
    else s
  }

  /** The mutable Java object: Task, Epic or SubTask, told apart by `variant`. */
  class Task {
    var id: int
    var status: Status
    var name: string
    var description: string
    var duration: int
    var startTime: Option<int>
    var variant: Variant

    /** The object's current field values. */
    function Snapshot(): Entity
      reads this
    {
      Entity(id, name, description, status, duration, startTime, variant)
    }

    /** Task(name, description, status). */
    constructor Create(name: string, description: string, status: Status)
      ensures Snapshot() == MakeTask(0, name, description, status, 0)
    {
      this.id, this.name, this.description, this.status := 0, name, description, status;
      this.duration, this.startTime, this.variant := 0, None, PlainTask;
    }

    /** Task(name, description, status, minutes). */
    constructor CreateWithDuration(name: string, description: string, status: Status, minutes: int)
      ensures Snapshot() == MakeTask(0, name, description, status, minutes)
    {
      this.id, this.name, this.description, this.status := 0, name, description, status;
      this.duration, this.startTime, this.variant := minutes, None, PlainTask;
    }

    /** Task(id, name, description, status). */
    constructor CreateWithId(id: int, name: string, description: string, status: Status)
      ensures Snapshot() == MakeTask(id, name, description, status, 0)
    {
      this.id, this.name, this.description, this.status := id, name, description, status;
      this.duration, this.startTime, this.variant := 0, None, PlainTask;
    }

    /** Task(id, name, description, status, minutes). */
    constructor CreateWithIdAndDuration(id: int, name: string, description: string, status: Status, minutes: int)
      ensures Snapshot() == MakeTask(id, name, description, status, minutes)
    {
      this.id, this.name, this.description, this.status := id, name, description, status;
      this.duration, this.startTime, this.variant := minutes, None, PlainTask;
    }

    /** Epic(name, description, status). */
    constructor CreateEpic(name: string, description: string, status: Status)
      ensures Snapshot() == MakeEpic(0, name, description, status)
    {
      this.id, this.name, this.description, this.status := 0, name, description, status;
      this.duration, this.startTime, this.variant := 0, None, Epic([], None);
    }

    /** Epic(id, name, description, status). */
    constructor CreateEpicWithId(id: int, name: string, description: string, status: Status)
      ensures Snapshot() == MakeEpic(id, name, description, status)
    {
      this.id, this.name, this.description, this.status := id, name, description, status;
      this.duration, this.startTime, this.variant := 0, None, Epic([], None);
    }

    /** SubTask(epicId, name, description, status). */
    constructor CreateSubTask(epicId: int, name: string, description: string, status: Status)
      ensures Snapshot() == MakeSubTask(epicId, 0, name, description, status, 0)
    {
      this.id, this.name, this.description, this.status := 0, name, description, status;
      this.duration, this.startTime, this.variant := 0, None, SubTask(epicId);
    }

    /** SubTask(epicId, name, description, status, minutes). */
    constructor CreateSubTaskWithDuration(epicId: int, name: string, description: string, status: Status, minutes: int)
      ensures Snapshot() == MakeSubTask(epicId, 0, name, description, status, minutes)
    {
      this.id, this.name, this.description, this.status := 0, name, description, status;
      this.duration, this.startTime, this.variant := minutes, None, SubTask(epicId);
    }

    /** SubTask(epicId, id, name, description, status). */
    constructor CreateSubTaskWithId(epicId: int, id: int, name: string, description: string, status: Status)
      ensures Snapshot() == MakeSubTask(epicId, id, name, description, status, 0)
    {
      this.id, this.name, this.description, this.status := id, name, description, status;
      this.duration, this.startTime, this.variant := 0, None, SubTask(epicId);
    }

    /** SubTask(epicId, id, name, description, status, minutes). */
    constructor CreateSubTaskWithIdAndDuration(epicId: int, id: int, name: string, description: string, status: Status, minutes: int)
      ensures Snapshot() == MakeSubTask(epicId, id, name, description, status, minutes)
    {
      this.id, this.name, this.description, this.status := id, name, description, status;
      this.duration, this.startTime, this.variant := minutes, None, SubTask(epicId);
    }

    /** getType. */
    function GetType(): (t: TaskType)
      reads this
      ensures t == TypeOf(Snapshot())
    {
      if variant.SubTask? then TypeSubTask else TypeTask
    }

    /** getEndTime. */
    function GetEndTime(): (r: Option<int>)
      reads this
      ensures r == EndTime(Snapshot())
    {
      if startTime.Some? then Some(startTime.value + duration) else None
    }

    /** equals, on the two objects' current fields. */
    function Equals(other: Task): (r: bool)
      reads this, other
      ensures r == Equal(Snapshot(), other.Snapshot())
    {
      && SameClass(variant, other.variant)
      && id == other.id && status == other.status && name == other.name && description == other.description
      && (variant.Epic? ==> variant.subTaskIds == other.variant.subTaskIds)
      && (variant.SubTask? ==> variant.epicId == other.variant.epicId)
    }

    method SetId(id: int)
      modifies this`id
      ensures this.id == id
    {
      this.id := id;
    }

    method SetName(name: string)
      modifies this`name
      ensures this.name == name
    {
      this.name := name;
    }

    method SetDescription(description: string)
      modifies this`description
      ensures this.description == description
    {
      this.description := description;
    }

    /** setStatus: every TaskStatus constant passes the membership test, so the status is always replaced. */
    method SetStatus(status: Status)
      modifies this`status
      ensures this.status == status
    {
      if status == Done || status == New || status == InProgress {
        this.status := status;
      }
    }

    /** setDuration(minutes) and setDuration(Duration). */
    method SetDuration(minutes: int)
      modifies this`duration
      ensures duration == minutes
    {
      duration := minutes;
    }

    /** setStartTime. */
    method SetStartTime(start: Option<int>)
      modifies this`startTime
      ensures startTime == start
    {
      startTime := start;
    }

    /** SubTask.setEpicId: only the epic id changes. */
    method SetEpicId(epicId: int)
      requires variant.SubTask?
      modifies this`variant
      ensures variant == SubTask(epicId)
    {
      variant := SubTask(epicId);
    }

    /** Epic.getSubTaskOfEpicIDs. */
    function GetSubTaskOfEpicIds(): seq<int>
      reads this
      requires variant.Epic?
    {
      variant.subTaskIds
    }

    /** Epic.setSubTaskOfEpicIDs: the whole list is replaced. */
    method SetSubTaskOfEpicIds(ids: seq<int>)
      requires variant.Epic?
      modifies this`variant
      ensures variant == old(variant).(subTaskIds := ids)
    {
      variant := variant.(subTaskIds := ids);
    }

    /** getSubTaskOfEpicIDs().add(id): the list is live, so the epic sees the append. */
    method AppendSubTaskId(subTaskId: int)
      requires variant.Epic?
      modifies this`variant
      ensures variant == old(variant).(subTaskIds := old(variant.subTaskIds) + [subTaskId])
    {
      variant := variant.(subTaskIds := variant.subTaskIds + [subTaskId]);
    }

    /** getSubTaskOfEpicIDs().remove((Integer) id): the first occurrence leaves the epic's list. */
    method RemoveSubTaskId(subTaskId: int)
      requires variant.Epic?
      modifies this`variant
      ensures variant == old(variant).(subTaskIds := RemoveFirst(old(variant.subTaskIds), subTaskId))
    {
      variant := variant.(subTaskIds := RemoveFirst(variant.subTaskIds, subTaskId));
    }
  }
}

# java-kanban task tracker, modelled in Dafny

This project models the in-memory task tracker of java-kanban and proves properties of the model:

- `InMemoryTaskManager`: three id-keyed maps (tasks, epics, subtasks), the prioritized set (a `TreeSet` ordered by start time), the view history and the shared id counter.
- `InMemoryHistoryManager`: the capped view list.
- `FileBackedTaskManager`: its comma-separated line codec, `save`, `loadFromFile` and the overrides that save after every change.
- The entity classes `Task`, `Epic` and `SubTask`/`Subtask`.

Times and durations are whole minutes. A Java `null` is `None`. A thrown exception is a `Failure`/`Fail` value that names the exception.

Modules, one per file:

- wrappers.dfy (`Wrappers`, `Errors`): `Option`/`Result`/`Outcome`, and the exceptions the code throws
- tasks.dfy (`Tasks`): `Entity` (value snapshot), the mutable `Task` class with its constructors and setters, `equals`, `getType`, `getEndTime`
- prioritized.dfy (`Prioritized`): the `TreeSet` whose comparator compares start times only
- epic_rules.dfy (`EpicRules`): `updateEpicStatus` and `updateEpicTime`: reference rules, the Java loops, and proofs that they agree
- history.dfy (`History`): `InMemoryHistoryManager`, and the id history the task manager keeps
- manager_rules.dfy (`ManagerRules`): `isTimeOverlap`, the id loop, HashMap iteration order, epic recomputation as functions on the epic map
- manager.dfy (`Manager`): the `InMemoryTaskManager` class
- codec.dfy (`Codec`): `toString(Task)`, `fromString`, `String.split(",")`, `Integer.parseInt`, `TaskStatus.valueOf`
- file_backed.dfy (`FileBacked`): the `FileBackedTaskManager` class: `save`, `loadFromFile`, the overrides

The model keeps these behaviours of the code. Each one is stated in the contract of the member named:

- **Id clashes check tasks only.**
  - `addEpic` and `addSubTask` test the task map for a clash, not their own maps.
  - The id counter starts at 0 and is pre-incremented.
  - An entity with a non-zero id keeps it, even if that id is taken.
- **addSubTask stores before it looks up the epic.** The subtask is stored and scheduled first. A missing epic then throws `NullPointerException`, and the subtask stays stored (`Manager.InMemoryTaskManager.AddSubTask`).
- **removeTask and removeSubTask do not clear the prioritized set.**
  - They pass the result of a lookup made after the deletion (null) to `prioritizedTasks.remove`.
  - On an empty set this does nothing.
  - On a non-empty set the comparator dereferences null and throws. The stale entry stays either way.
- **removeEpic leaves the prioritized set alone.** The epic's subtasks stay in it.
- **Removal loops can throw.** `removeAllTasks`, `removeAllSubTasks` and `removeAllEpics` call `prioritizedTasks.remove(x)`. That throws for an entity without a start time while the set is not empty.
- **Equal start times collapse.** Two entities with the same start time are one key of the prioritized set. The second one added is ignored.
- **Overlap is checked only on add.**
  - Only `addTask` and `addSubTask` check for overlap.
  - `isTimeOverlap` compares boxed `Integer` ids with `==`. Equal ids above 127 therefore count as different entities, so a stored task can overlap a copy of itself (`ManagerRules.SelfOverlapAboveCache`).
- **updateSubTask does not recompute time.** It recomputes the epic's status but not its schedule.
- **updateEpicTime can throw.** It throws when a subtask without a start time follows one with a start time, or when a listed id is not stored. Nothing is written to the epic in that case.
- **Lines lose data.**
  - An epic's line does not carry its subtask list, so an epic with subtasks does not read back equal to itself.
  - A task or epic with an empty description cannot be read back: `split(",")` drops the empty last field and `fields[4]` is out of bounds (`Codec.EmptyDescriptionLost`).
- **loadFromFile goes through the saving overrides.** It calls the `FileBackedTaskManager` overrides, so the file is rewritten after every line it loads. A file without any line fails in `subList(1, 0)`.

## Model

| member | source | states |
|---|---|---|
| Tasks.EndTime | src/tasks/Task.java:119-121 | the end time is null exactly when the start time is null, and otherwise exceeds the start by the duration |
| Tasks.TypeOf | src/tasks/Task.java:55-57 | getType is SUBTASK exactly for a subtask and never EPIC: an epic inherits Task's answer TASK |
| Tasks.EqualIsEquivalence | src/tasks/Task.java:133-139 | equals is reflexive, symmetric and transitive |
| Tasks.EqualIgnoresSchedule | src/tasks/Task.java:133-139 | entities differing only in duration and start time are equal |
| Tasks.EqualNeedsSameClass | src/tasks/Task.java:136 | entities of different runtime classes are never equal |
| Tasks.RemoveFirst | src/manager/InMemoryTaskManager.java:279 | ArrayList.remove(Integer) removes exactly the first occurrence and keeps the rest in order; an absent value changes nothing |
| Tasks.Task.Create | src/tasks/Task.java:16-23 | id 0, the given fields, zero duration, no start time |
| Tasks.Task.CreateWithDuration | src/tasks/Task.java:26-33 | id 0, the given fields and minutes, no start time |
| Tasks.Task.CreateWithId | src/tasks/Task.java:36-43 | the supplied id kept, zero duration, no start time |
| Tasks.Task.CreateWithIdAndDuration | src/tasks/Task.java:46-53 | the supplied id and minutes kept, no start time |
| Tasks.Task.CreateEpicWithId | src/tasks/Epic.java:9-12 | the supplied id kept, an empty subtask-id list |
| Tasks.Task.CreateEpic | src/tasks/Epic.java:14-17 | id 0 and an empty subtask-id list |
| Tasks.Task.CreateSubTask | src/tasks/SubTask.java:11-14 | the given epic id stored, id 0 |
| Tasks.Task.CreateSubTaskWithDuration | src/tasks/SubTask.java:17-20 | the given epic id and minutes stored, id 0 |
| Tasks.Task.CreateSubTaskWithId | src/tasks/SubTask.java:23-26 | the given epic id and id stored |
| Tasks.Task.CreateSubTaskWithIdAndDuration | src/tasks/SubTask.java:29-32 | the given epic id, id and minutes stored |
| Tasks.Task.GetType | src/tasks/SubTask.java:34-37 | the object's type is that of its snapshot: SUBTASK for a subtask |
| Tasks.Task.GetEndTime | src/tasks/Task.java:119-121 | the object's end time agrees with the value-level rule |
| Tasks.Task.Equals | src/tasks/Epic.java:38-45 | equality of two objects is the value-level `Equal`: class, id, status, name, description, and for epics the ordered subtask-id lists |
| Tasks.Task.SetId | src/tasks/Task.java:63-65 | the id becomes the argument; nothing else changes |
| Tasks.Task.SetName | src/tasks/Task.java:71-73 | the name becomes the argument; nothing else changes |
| Tasks.Task.SetDescription | src/tasks/Task.java:79-81 | the description becomes the argument; nothing else changes |
| Tasks.Task.SetStatus | src/tasks/Task.java:87-93 | every status passes the membership test, so the status always becomes the argument |
| Tasks.Task.SetDuration | src/tasks/Task.java:99-105 | the duration becomes exactly the given minutes |
| Tasks.Task.SetStartTime | src/tasks/Task.java:111-113 | the start time becomes the argument |
| Tasks.Task.SetEpicId | src/tasks/SubTask.java:43-45 | only the epic id changes |
| Tasks.Task.SetSubTaskOfEpicIds | src/tasks/Epic.java:23-25 | the whole list is replaced and nothing else changes |
| Tasks.Task.AppendSubTaskId | src/manager/InMemoryTaskManager.java:96 | an add through the live list is an append to the epic's own list |
| Tasks.Task.RemoveSubTaskId | src/manager/InMemoryTaskManager.java:279 | a remove through the live list drops the first occurrence from the epic's own list |
| Prioritized.Insert | src/manager/InMemoryTaskManager.java:21 | TreeSet.add keeps the set strictly ordered by start time; when that start time is taken nothing changes, otherwise exactly the new entity joins |
| Prioritized.ExceptStartsOrdered | src/manager/InMemoryTaskManager.java:21 | removing entries keeps the set ordered |
| Prioritized.ExceptStartsTwice | src/manager/InMemoryTaskManager.java:200-204 | removing two batches of start times in turn removes their union |
| Prioritized.Remove | src/manager/InMemoryTaskManager.java:21 | TreeSet.remove throws NullPointerException exactly when the set is non-empty and the argument or its start time is null; otherwise it removes the entry with that start time |
| Prioritized.ExceptStartPresent | src/manager/InMemoryTaskManager.java:21 | removing a start time present in the ordered set removes exactly one entry |
| EpicRules.EpicDoneIffAllDone | src/manager/InMemoryTaskManager.java:310-332 | an epic is DONE exactly when it has subtasks and all are DONE |
| EpicRules.EpicNewIffAllNew | src/manager/InMemoryTaskManager.java:310-332 | an epic is NEW exactly when all its subtasks are NEW, including when it has none |
| EpicRules.ScanStatusAgreesWithRule | src/manager/InMemoryTaskManager.java:310-332 | the loop with its early exits gives the status rule whenever every listed id is stored; otherwise it throws NullPointerException or has already settled on IN_PROGRESS |
| EpicRules.StatusFromSubTasks | src/manager/InMemoryTaskManager.java:317-331 | the imperative loop computes exactly the scan |
| EpicRules.EarliestStartIsLeast | src/manager/InMemoryTaskManager.java:337-344 | the epic start is null exactly when no subtask is scheduled, and otherwise is a subtask's start that no other start precedes |
| EpicRules.LatestEndIsGreatest | src/manager/InMemoryTaskManager.java:338-347 | the epic end is null exactly when no subtask is scheduled, and otherwise is a subtask's end that no other end exceeds |
| EpicRules.AggregateOfNone | src/manager/InMemoryTaskManager.java:336-338 | an epic without subtasks gets zero duration, null start, null end |
| EpicRules.TimeFromSubTasks | src/manager/InMemoryTaskManager.java:334-353 | the loop succeeds exactly when every listed id is stored and no unscheduled subtask follows a scheduled one, and then yields total duration, earliest start, latest end; it fails only with NullPointerException |
| EpicRules.StartEndTogether | src/manager/InMemoryTaskManager.java:342-346 | the running start and end are null together |
| EpicRules.Refreshed | src/manager/InMemoryTaskManager.java:310-353 | recomputation keeps the epic's id, name, description and subtask list |
| History.AppendedBounded | src/manager/InMemoryHistoryManager.java:11-21 | the history stays within ten entries, the viewed task becomes the last entry, and the result is the last ten of the old list plus the task |
| History.RepeatedViewKept | src/manager/InMemoryHistoryManager.java:16 | viewing a task already present adds a second entry (no de-duplication) |
| History.ReplayKeepsMostRecent | src/manager/InMemoryHistoryManager.java:11-26 | after any run of views the history is the ten most recent of the old entries and the non-null views, oldest first |
| History.InMemoryHistoryManager.constructor | src/manager/InMemoryHistoryManager.java:8 | the history starts empty |
| History.InMemoryHistoryManager.AddToHistory | src/manager/InMemoryHistoryManager.java:11-21 | null leaves the list unchanged; otherwise append then evict index 0 above ten |
| History.InMemoryHistoryManager.GetHistory | src/manager/InMemoryHistoryManager.java:24-26 | the list returned never has more than ten entries |
| History.Viewed | src/manager/InMemoryTaskManager.java:241-245 | a lookup records the found entity's id and records nothing for null |
| History.Forget | src/manager/InMemoryTaskManager.java:266 | remove(id) leaves exactly the entries whose id is not removed |
| History.ForgetTwice | src/manager/InMemoryTaskManager.java:288-295 | removing one batch of ids after another removes their union |
| History.ForgetAppend | src/manager/InMemoryTaskManager.java:266 | removal keeps the surviving entries in their order |
| ManagerRules.IsTimeOverlap | src/manager/InMemoryTaskManager.java:145-157 | true exactly when some prioritized entry has a different boxed id, both start times are set, and the half-open intervals intersect |
| ManagerRules.UnscheduledNeverOverlaps | src/manager/InMemoryTaskManager.java:151-152 | an entity without a start time overlaps nothing |
| ManagerRules.ConflictsSymmetric | src/manager/InMemoryTaskManager.java:154-155 | the interval test is symmetric |
| ManagerRules.SelfOverlapAboveCache | src/manager/InMemoryTaskManager.java:148 | a scheduled entity overlaps its own stored copy when its id is above 127, and not when its id is in 0..127 |
| ManagerRules.AssignId | src/manager/InMemoryTaskManager.java:46-53 | a non-zero id is kept with the counter unmoved; id 0 becomes the first counter value above the old one that is not a task key, and the counter stops there |
| ManagerRules.SortedKeys | src/manager/InMemoryTaskManager.java:26-28 | HashMap iteration visits every key once, in ascending order |
| ManagerRules.ValuesInKeyOrder | src/manager/InMemoryTaskManager.java:171 | values() lists one entry per key, in key order, and exactly the map's values |
| ManagerRules.SubTasksOfEpic | src/manager/InMemoryTaskManager.java:301-307 | one entry per listed id, null exactly for the ids not stored, the stored subtask otherwise |
| ManagerRules.StatusUpdate | src/manager/InMemoryTaskManager.java:310-332 | updateEpicStatus changes only the named epic's status, and leaves every other epic and field as it was; with every listed subtask stored it writes the status rule; otherwise it either throws NullPointerException (only when the epic or a listed subtask is missing) or writes IN_PROGRESS |
| ManagerRules.StatusUpdateSettlesBeforeMissing | src/manager/InMemoryTaskManager.java:317-331 | the status loop stops at the first differing subtask, so an epic listing NEW, DONE and then a missing id gets IN_PROGRESS with no exception |
| ManagerRules.TimeUpdate | src/manager/InMemoryTaskManager.java:334-353 | updateEpicTime succeeds exactly when the epic and every listed subtask are stored and no unscheduled subtask follows a scheduled one, failing otherwise with NullPointerException; on success only the epic's duration, start and end change, to the subtasks' total duration, earliest start and latest end |
| ManagerRules.EpicRefreshConsistent | src/manager/InMemoryTaskManager.java:98-99 | when the epic's subtasks are all stored and consistently scheduled, status then time give the status rule and the schedule rule |
| ManagerRules.EpicRefreshFails | src/manager/InMemoryTaskManager.java:310-353 | recomputation throws exactly when the epic is missing, a listed subtask is missing, or an unscheduled subtask follows a scheduled one; always a NullPointerException |
| ManagerRules.EpicRefreshEmpty | src/manager/InMemoryTaskManager.java:217-222 | recomputing an epic with an emptied list always succeeds and leaves it NEW, zero duration, no start or end |
| Manager.Scheduled | src/manager/InMemoryTaskManager.java:56-58 | only entities with a start time join the prioritized set, which stays ordered |
| Manager.Listed | src/manager/InMemoryTaskManager.java:96 | the new id is appended to the named epic's list; the keys stay the same |
| Manager.Unlisted | src/manager/InMemoryTaskManager.java:279 | the first occurrence of the id leaves the named epic's list; the keys stay the same |
| Manager.DropTurn | src/manager/InMemoryTaskManager.java:200-204 | one turn of the removal loop removes the entity from the history and, unless the comparator throws, its start time from the set |
| Manager.InMemoryTaskManager.constructor | src/manager/InMemoryTaskManager.java:25-30 | all maps, the set and the history empty; counter 0 |
| Manager.InMemoryTaskManager.AddTask | src/manager/InMemoryTaskManager.java:41-59 | an overlapping task is refused and nothing changes; otherwise the id is assigned as AssignId states, the task is stored under it and scheduled if it has a start |
| Manager.InMemoryTaskManager.AddEpic | src/manager/InMemoryTaskManager.java:62-73 | the id is assigned against the task map and the epic is stored under it |
| Manager.InMemoryTaskManager.AddSubTask | src/manager/InMemoryTaskManager.java:76-100 | an overlap is refused with nothing changed; otherwise the subtask is stored and scheduled; a missing epic then throws; otherwise the id is appended to the epic's list and the epic recomputed |
| Manager.InMemoryTaskManager.StoreSubTask | src/manager/InMemoryTaskManager.java:81-93 | id loop, store and schedule of a subtask |
| Manager.InMemoryTaskManager.AttachToEpic | src/manager/InMemoryTaskManager.java:95-99 | the append to the epic's list followed by the recomputation |
| Manager.InMemoryTaskManager.RefreshEpic | src/manager/InMemoryTaskManager.java:98-99 | updateEpicStatus then updateEpicTime, stopping at the first exception |
| Manager.InMemoryTaskManager.UpdateTask | src/manager/InMemoryTaskManager.java:104-114 | an unknown id changes nothing; otherwise the task is replaced, the old start time removed (or NullPointerException) and the new task scheduled; no overlap check |
| Manager.InMemoryTaskManager.UpdateEpic | src/manager/InMemoryTaskManager.java:117-127 | an unknown id changes nothing; otherwise only name and description change |
| Manager.InMemoryTaskManager.UpdateSubTask | src/manager/InMemoryTaskManager.java:130-142 | an unknown id changes nothing; otherwise the subtask is replaced, the epic's status (not its time) is recomputed, then the set is updated as in updateTask |
| Manager.InMemoryTaskManager.UpdateEpicStatus | src/manager/InMemoryTaskManager.java:310-332 | the epic map becomes StatusUpdate's result, or is unchanged on NullPointerException |
| Manager.InMemoryTaskManager.UpdateEpicTime | src/manager/InMemoryTaskManager.java:334-353 | the epic map becomes TimeUpdate's result, or is unchanged on NullPointerException |
| Manager.InMemoryTaskManager.GetTaskById | src/manager/InMemoryTaskManager.java:241-245 | the stored task or null, and the history records a found task |
| Manager.InMemoryTaskManager.GetSubTaskById | src/manager/InMemoryTaskManager.java:248-252 | the stored subtask or null, and the history records a found subtask |
| Manager.InMemoryTaskManager.GetEpicById | src/manager/InMemoryTaskManager.java:255-259 | the stored epic or null, and the history records a found epic |
| Manager.InMemoryTaskManager.GetTasks | src/manager/InMemoryTaskManager.java:170-172 | exactly the stored tasks, one entry each |
| Manager.InMemoryTaskManager.GetEpics | src/manager/InMemoryTaskManager.java:175-177 | exactly the stored epics, one entry each |
| Manager.InMemoryTaskManager.GetSubTasks | src/manager/InMemoryTaskManager.java:180-182 | exactly the stored subtasks, one entry each |
| Manager.InMemoryTaskManager.GetAllTasks | src/manager/InMemoryTaskManager.java:161-167 | the tasks, then the epics, then the subtasks, each segment exactly that getter's list: one entry per stored entity |
| Manager.InMemoryTaskManager.GetPrioritizedTasks | src/manager/InMemoryTaskManager.java:184-186 | only scheduled entities, in strictly ascending start time |
| Manager.InMemoryTaskManager.GetSubTasksOfEpic | src/manager/InMemoryTaskManager.java:301-307 | the listed subtasks in list order, null for ids not stored |
| Manager.InMemoryTaskManager.RemoveAll | src/manager/InMemoryTaskManager.java:190-196 | maps, prioritized set and history all empty; the counter is kept |
| Manager.InMemoryTaskManager.DropFromViews | src/manager/InMemoryTaskManager.java:200-204 | each entity leaves history and set; it throws only when the set is non-empty and some entity has no start, and never when the set is empty or all are scheduled |
| Manager.InMemoryTaskManager.ForgetEach | src/manager/InMemoryTaskManager.java:227-228 | every epic id leaves the history |
| Manager.InMemoryTaskManager.RemoveAllTasks | src/manager/InMemoryTaskManager.java:199-206 | on success the task map is empty and the tasks left history and set; on NullPointerException the task map is unchanged |
| Manager.InMemoryTaskManager.RemoveAllSubTasks | src/manager/InMemoryTaskManager.java:209-223 | on success no subtasks remain and every epic has an empty list, status NEW, zero duration and no start or end |
| Manager.InMemoryTaskManager.ClearEpics | src/manager/InMemoryTaskManager.java:217-222 | every epic is emptied and recomputed |
| Manager.InMemoryTaskManager.ClearEpic | src/manager/InMemoryTaskManager.java:218-222 | one epic is emptied and recomputed |
| Manager.InMemoryTaskManager.RemoveAllEpics | src/manager/InMemoryTaskManager.java:226-237 | the epic map is always emptied; on success no subtasks remain and epics and subtasks left the history |
| Manager.InMemoryTaskManager.RemoveTask | src/manager/InMemoryTaskManager.java:263-269 | the task leaves the map and history; the prioritized set is unchanged; it throws exactly when the task was stored and the set is non-empty |
| Manager.InMemoryTaskManager.RemoveSubTask | src/manager/InMemoryTaskManager.java:272-283 | the subtask leaves the map and history; the set is unchanged; it throws on a non-empty set or missing epic, else it unlists the id and recomputes the epic; it passes exactly when SubTaskRemovalPasses held |
| Manager.InMemoryTaskManager.RemoveEpic | src/manager/InMemoryTaskManager.java:286-297 | the epic and its listed subtasks leave their maps and the history; the prioritized set is not touched |
| Manager.InMemoryTaskManager.DropSubTasks | src/manager/InMemoryTaskManager.java:288-292 | every listed id leaves the subtask map and the history |
| Codec.StatusOf | src/manager/FileBackedTaskManager.java:127 | valueOf only accepts an exact constant name |
| Codec.StatusNameRoundTrip | src/manager/FileBackedTaskManager.java:127 | valueOf reads back every printed status |
| Codec.IntToString | src/manager/FileBackedTaskManager.java:89 | %d never prints a comma |
| Codec.ParseInt | src/manager/FileBackedTaskManager.java:124 | parseInt yields only int-range values, fails only with NumberFormatException, and rejects the empty string |
| Codec.ParseIntRoundTrip | src/manager/FileBackedTaskManager.java:124 | parseInt reads back what %d prints, for every int |
| Codec.JavaSplit | src/manager/FileBackedTaskManager.java:123 | no piece contains a comma; a string without a comma is its own only piece |
| Codec.JavaSplitJoin | src/manager/FileBackedTaskManager.java:123 | split undoes joining comma-free fields when the last is non-empty |
| Codec.JavaSplitDropsEmptyTail | src/manager/FileBackedTaskManager.java:123 | an empty last field is lost by split |
| Codec.Fields | src/manager/FileBackedTaskManager.java:86-100 | a SUBTASK line has six fields, TASK and EPIC lines five |
| Codec.FromString | src/manager/FileBackedTaskManager.java:122-141 | a decoded entity has no schedule, an epic an empty list, and ids in int range |
| Codec.RoundTrip | src/manager/FileBackedTaskManager.java:86-141 | for ids in int range, comma-free text and a non-empty task/epic description, reading a written line gives the entity without schedule and list, equal to the original exactly unless an epic had subtasks |
| Codec.FieldsSplitBack | src/manager/FileBackedTaskManager.java:123 | splitting a written line gives back its fields |
| Codec.EmptyDescriptionLost | src/manager/FileBackedTaskManager.java:128 | a task or epic with empty description fails to load with an index out of bounds |
| Codec.UnknownTypeRefused | src/manager/FileBackedTaskManager.java:138-139 | a type token other than TASK, EPIC, SUBTASK is refused |
| FileBacked.SavedLinesRead | src/manager/FileBackedTaskManager.java:72-79 | every line save writes reads back as the entity it was written from, stripped |
| FileBacked.SaveWithoutNull | src/manager/FileBackedTaskManager.java:75-80 | when epics list only stored subtasks, save meets no null and writes exactly one line per task, epic and subtask, plus one per epic and one per listed subtask id |
| FileBacked.FileBackedTaskManager.constructor | src/manager/FileBackedTaskManager.java:11-13 | an empty manager over the given file |
| FileBacked.FileBackedTaskManager.Save | src/manager/FileBackedTaskManager.java:69-84 | the file becomes the header and the lines of getAllTasks() then of each epic and its subtasks, up to the first null subtask, which throws |
| FileBacked.FileBackedTaskManager.WriteEntities | src/manager/FileBackedTaskManager.java:72-74 | one line per entity, in order |
| FileBacked.FileBackedTaskManager.WriteEpics | src/manager/FileBackedTaskManager.java:75-80 | each epic's line then its subtasks' lines; throws exactly at a null subtask |
| FileBacked.FileBackedTaskManager.WriteSubTasks | src/manager/FileBackedTaskManager.java:77-79 | one line per subtask up to the first null one, which throws |
| FileBacked.FileBackedTaskManager.AddTask | src/manager/FileBackedTaskManager.java:16-19 | an overlap throws before anything changes: the manager and the file stay as they were; otherwise the id is assigned as AssignId states, the task is stored under it and scheduled; the epic and subtask maps and the history are unchanged; then the file is saved |
| FileBacked.FileBackedTaskManager.AddEpic | src/manager/FileBackedTaskManager.java:22-25 | the id is assigned against the task map; the epic is stored under it; tasks, subtasks, the prioritized set and the history are unchanged; then the file is saved |
| FileBacked.FileBackedTaskManager.AddSubTask | src/manager/FileBackedTaskManager.java:28-31 | an overlap leaves the manager and the file as they were; otherwise the id is assigned, the subtask stored and scheduled; a missing epic then throws with the file unchanged; otherwise the id joins the epic's list, the epic is recomputed, and the file is saved exactly when the recomputation did not throw |
| FileBacked.FileBackedTaskManager.UpdateTask | src/manager/FileBackedTaskManager.java:34-37 | an unknown id changes nothing in the maps; otherwise the task is replaced, the old start time is removed from the prioritized set (NullPointerException leaves the set and the file) and the new task is scheduled; the other maps, the history and the counter are unchanged; the file is saved exactly when nothing threw |
| FileBacked.FileBackedTaskManager.UpdateEpic | src/manager/FileBackedTaskManager.java:40-43 | an unknown id leaves the epic map unchanged; otherwise only the epic's name and description change; nothing else in the manager changes; then the file is saved |
| FileBacked.FileBackedTaskManager.UpdateSubTask | src/manager/FileBackedTaskManager.java:46-49 | an unknown id changes nothing; otherwise the subtask is replaced, its epic's status (not its time) is recomputed, and the prioritized set updated as in updateTask; tasks, history and counter unchanged; the file is saved exactly when nothing threw |
| FileBacked.FileBackedTaskManager.RemoveTask | src/manager/FileBackedTaskManager.java:52-55 | the task leaves the task map and the history; the prioritized set, the other maps and the counter are unchanged; the file is saved exactly when the task was absent or the set empty, since otherwise removing null throws |
| FileBacked.FileBackedTaskManager.RemoveEpic | src/manager/FileBackedTaskManager.java:58-61 | the epic and every subtask on its list leave their maps and the history; tasks, the prioritized set and the counter are unchanged; then the file is saved |
| FileBacked.FileBackedTaskManager.RemoveSubTask | src/manager/FileBackedTaskManager.java:64-67 | the subtask leaves the subtask map and the history; the prioritized set, tasks and counter are unchanged; on an empty set with its epic stored, the id leaves the epic's list and the epic is recomputed, otherwise the epics are unchanged; the file is saved exactly when the removal passes |
| FileBacked.FileBackedTaskManager.LoadFromFile | src/manager/FileBackedTaskManager.java:102-120 | no lines fails in subList; a header alone gives an empty manager; on success every later line decoded and its entity sits in the map its class names, and the file was rewritten by the last add |
| FileBacked.FileBackedTaskManager.LoadLine | src/manager/FileBackedTaskManager.java:106-114 | a decoding failure passes through; on success the entity is placed and the file saved |
| FileBacked.FileBackedTaskManager.AddLoaded | src/manager/FileBackedTaskManager.java:108-114 | EPIC goes to addEpic, SUBTASK to addSubTask, everything else to addTask |

## Left out

- The HTTP layer (src/manager/httpserver) is network I/O and JSON, and is not part of this model.
- Real file I/O is not modelled: `Files.newBufferedWriter`, `readAllLines`, and `IOException` turned into `ManagerSaveException`. The file is its list of lines, and writing never fails.
- The interfaces and the factory are not part of this model: TaskManager.java, HistoryManager.java and Managers.java. TaskStatus.java and TaskType.java are not part of this model either; they become the datatypes `Status` and `TaskType`.
- The second `InMemoryTaskManager(HistoryManager)` constructor is not modelled. Inside the task manager, the history is the list of viewed ids.
- Manager history `remove` and `clearHistory` are not declared by the history interface shown. They are modelled as removing every entry of an id, and as emptying the list.
- The id counter is a field of each manager, not a static shared by all managers. `++generatorId` is unbounded: there is no 32-bit wrap-around.
- Manager.InMemoryTaskManager.AddTask: the manager stores values, not the caller's object. Java writes the new id into the caller's object and keeps that object, so later setter calls on it change the stored entity; the model returns the id instead and does not model this aliasing.
- Manager.InMemoryTaskManager.AddEpic: stores the epic as a value; the aliasing between the caller's epic and the stored one is not modelled.
- Manager.InMemoryTaskManager.AddSubTask: stores the subtask as a value; the aliasing between the caller's subtask and the stored one is not modelled.
- Entities returned by the getters are values too, so a setter called on a returned object does not reach the stored entity in the model.
- HashMap iteration order is taken as ascending key order, which is what `HashMap<Integer, _>` gives for small non-negative ids.
- SubTask.java and Subtask.java are one variant.
  - In Java a `SubTask` never equals a `Subtask`.
  - The manager only accepts `SubTask`.
  - The getType, equals and setEpicId rows cite SubTask.java. Subtask.java:32-35, :41-43 and :56-63 have the same bodies.
- Nulls are not modelled except in three places: null lookup results, null start and end times, and missing map entries. Null tasks, names, descriptions and statuses are left out.
- Times are integer minutes. `LocalDateTime` calendar validation, overflow, `setStartTime(y, m, d, hh, mm)` and `Duration` internals are left out.
- `Epic.setEndTime`, which `updateEpicTime` calls, is not in the Epic.java shown. The model keeps an epic's end time in its variant.
- The debug `toString()` methods and `hashCode` are not modelled.
- `Integer.parseInt` accepts only ASCII digits in the model, while Java also accepts other Unicode decimal digits. A line break inside a name or description, which would split a line of the file, is not modelled.
- The tests expect `ManagerSaveException` for an unknown type and an eight-column header. The code throws `IllegalArgumentException` and writes a six-column header; the model follows the code.
- Manager.InMemoryTaskManager.DropFromViews: on an exception it states only that the exception is a NullPointerException. The partly updated history and prioritized set are not stated.
- Manager.InMemoryTaskManager.RemoveAllTasks: on NullPointerException it states that the task map is unchanged, but not the partly updated history and prioritized set.
- Manager.InMemoryTaskManager.RemoveAllSubTasks: on NullPointerException it states that the subtask and epic maps are unchanged, but not the partly updated history and prioritized set.
- Manager.InMemoryTaskManager.RemoveAllEpics: on NullPointerException it states that the epic map is empty and the subtask map unchanged, but not the partly updated history and prioritized set.
- FileBacked.FileBackedTaskManager.LoadFromFile: it states that each line decoded, that each decoded entity sits in the map its class names, and that the file was saved. It does not state the maps' full contents after the run of adds, and a failing load does not state how far it got.
- Codec.Fields: its own contract states only the field count. The field contents are stated through RoundTrip and FieldsSplitBack.

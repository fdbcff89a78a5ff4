/**
 * How an epic's status and schedule follow from its subtasks (updateEpicStatus and
 * updateEpicTime of src/manager/InMemoryTaskManager.java).
 *
 * Each rule is given twice: once as a reference definition over the list of subtasks, and once
 * as the Java loop with its early exits and null dereferences, proved to agree with the rule.
 */
module EpicRules {
  import opened Wrappers
  import opened Errors
  import opened Tasks

  /** Every id in the list names a stored subtask. */
  predicate AllListed(ids: seq<int>, subTasks: map<int, Entity>)
  {
    forall i :: 0 <= i < |ids| ==> ids[i] in subTasks
  }

  /** The subtasks the ids name, in list order (getSubTasksOfEpic without nulls). */
  function Lookup(ids: seq<int>, subTasks: map<int, Entity>): (r: seq<Entity>)
    requires AllListed(ids, subTasks)
    ensures |r| == |ids| && forall i :: 0 <= i < |ids| ==> r[i] == subTasks[ids[i]]
  {
    seq(|ids|, i requires 0 <= i < |ids| => subTasks[ids[i]])
  }

  /** Looking up one more id appends one more subtask. */
  lemma LookupSnoc(ids: seq<int>, i: nat, subTasks: map<int, Entity>)
    requires i < |ids| && AllListed(ids[..i + 1], subTasks)
    ensures AllListed(ids[..i], subTasks)
    ensures Lookup(ids[..i + 1], subTasks) == Lookup(ids[..i], subTasks) + [subTasks[ids[i]]]
  {
    assert forall j :: 0 <= j < i ==> ids[..i][j] == ids[..i + 1][j];
  }

  function Statuses(subs: seq<Entity>): (r: seq<Status>)
    ensures |r| == |subs| && forall i :: 0 <= i < |subs| ==> r[i] == subs[i].status
  {
    seq(|subs|, i requires 0 <= i < |subs| => subs[i].status)
  }

  // ---------------------------------------------------------------- status

  /**
   * The epic status rule: NEW with no subtasks; the common status when all subtasks share one
   * that is not IN_PROGRESS; IN_PROGRESS otherwise.
   */
  function EpicStatusRule(st: seq<Status>): Status
  {
    if |st| == 0 then New
    else if (forall i :: 0 <= i < |st| ==> st[i] == st[0]) && st[0] != InProgress then st[0]
    else InProgress
  }

  /** An epic is DONE exactly when it has subtasks and all of them are DONE. */
  lemma EpicDoneIffAllDone(st: seq<Status>)
    ensures EpicStatusRule(st) == Done <==> |st| > 0 && forall i :: 0 <= i < |st| ==> st[i] == Done
  {
  }

  /** An epic is NEW exactly when it has no subtasks or all of them are NEW. */
  lemma EpicNewIffAllNew(st: seq<Status>)
    ensures EpicStatusRule(st) == New <==> forall i :: 0 <= i < |st| ==> st[i] == New
  {
  }

  /**
   * What the loop of updateEpicStatus computes from the subtask ids after the first: `seen` is the
   * remembered status.  A later subtask with a different status, or any later subtask while the
   * remembered status is IN_PROGRESS, decides IN_PROGRESS at once; an id that is not stored is
   * dereferenced as null first.
   */
  function ScanFrom(ids: seq<int>, subTasks: map<int, Entity>, seen: Status): Result<Status, Failure>
  {
    if ids == [] then Success(seen)
    else if ids[0] !in subTasks then Failure(NullPointer)
    else if subTasks[ids[0]].status == seen && seen != InProgress then ScanFrom(ids[1..], subTasks, seen)
    else Success(InProgress)
  }

  /** The status updateEpicStatus assigns to an epic with these subtask ids, or the null dereference. */
  function ScanStatus(ids: seq<int>, subTasks: map<int, Entity>): Result<Status, Failure>
  {
    if ids == [] then Success(New)
    else if ids[0] !in subTasks then Failure(NullPointer)
    else ScanFrom(ids[1..], subTasks, subTasks[ids[0]].status)
  }

  lemma {:induction false} ScanFromAgrees(ids: seq<int>, subTasks: map<int, Entity>, seen: Status)
    ensures AllListed(ids, subTasks) ==>
      ScanFrom(ids, subTasks, seen) ==
      Success(if (forall i :: 0 <= i < |ids| ==> subTasks[ids[i]].status == seen) && seen != InProgress then seen else InProgress)
    ensures ScanFrom(ids, subTasks, seen).Failure? ==> ScanFrom(ids, subTasks, seen).error == NullPointer && !AllListed(ids, subTasks)
    ensures ScanFrom(ids, subTasks, seen).Success? && !AllListed(ids, subTasks) ==> ScanFrom(ids, subTasks, seen).value == InProgress
  {
    if ids != [] {
      ScanFromAgrees(ids[1..], subTasks, seen);
      if AllListed(ids, subTasks) {
        assert AllListed(ids[1..], subTasks) by {
          forall i | 0 <= i < |ids[1..]| ensures ids[1..][i] in subTasks {
            assert ids[1..][i] == ids[i + 1];
          }
        }
        if (forall i :: 0 <= i < |ids[1..]| ==> subTasks[ids[1..][i]].status == seen) {
          forall i | 0 <= i < |ids| && i > 0 ensures subTasks[ids[i]].status == subTasks[ids[1..][i - 1]].status {
          }
        }
      }
      if !AllListed(ids, subTasks) && ids[0] in subTasks {
        assert !AllListed(ids[1..], subTasks) by {
          var i :| 0 <= i < |ids| && ids[i] !in subTasks;
          assert ids[1..][i - 1] == ids[i];
        }
      }
    }
  }

  /**
   * The status rule holds whenever every listed id names a stored subtask; otherwise the scan
   * either dereferences null or has already settled on IN_PROGRESS.
   */
  lemma ScanStatusAgreesWithRule(ids: seq<int>, subTasks: map<int, Entity>)
    ensures AllListed(ids, subTasks) ==> ScanStatus(ids, subTasks) == Success(EpicStatusRule(Statuses(Lookup(ids, subTasks))))
    ensures ScanStatus(ids, subTasks).Failure? ==> ScanStatus(ids, subTasks).error == NullPointer && !AllListed(ids, subTasks)
    ensures ScanStatus(ids, subTasks).Success? && !AllListed(ids, subTasks) ==> ScanStatus(ids, subTasks).value == InProgress
  {
    if ids != [] && ids[0] in subTasks {
      var first := subTasks[ids[0]].status;
      ScanFromAgrees(ids[1..], subTasks, first);
      if AllListed(ids, subTasks) {
        assert AllListed(ids[1..], subTasks) by {
          forall i | 0 <= i < |ids[1..]| ensures ids[1..][i] in subTasks {
            assert ids[1..][i] == ids[i + 1];
          }
        }
        var st := Statuses(Lookup(ids, subTasks));
        assert st[0] == first;
        if forall i :: 0 <= i < |ids[1..]| ==> subTasks[ids[1..][i]].status == first {
          forall i | 0 <= i < |st| ensures st[i] == st[0] {
            if i > 0 { assert ids[1..][i - 1] == ids[i]; }
          }
        } else {
          var i :| 0 <= i < |ids[1..]| && subTasks[ids[1..][i]].status != first;
          assert st[i + 1] != st[0];
        }
      } else {
        assert !AllListed(ids[1..], subTasks) by {
          var i :| 0 <= i < |ids| && ids[i] !in subTasks;
          assert ids[1..][i - 1] == ids[i];
        }
      }
    }
  }

  /**
   * The loop of updateEpicStatus over the epic's subtask ids, with its early exits: the first
   * subtask's status is remembered and each later one either agrees with it or decides
   * IN_PROGRESS.
   */
  method StatusFromSubTasks(ids: seq<int>, subTasks: map<int, Entity>) returns (r: Result<Status, Failure>)
    ensures r == ScanStatus(ids, subTasks)
  {
    if |ids| == 0 {
      return Success(New);
    }
    var status: Option<Status> := None;
    for i := 0 to |ids|
      invariant status.None? <==> i == 0
      invariant i > 0 ==> ScanStatus(ids, subTasks) == ScanFrom(ids[i..], subTasks, status.value)
    {
      var id := ids[i];
      if id !in subTasks {
        return Failure(NullPointer);
      }
      var s := subTasks[id].status;
      if status.None? {
        status := Some(s);
        continue;
      }
      assert ids[i..][1..] == ids[i + 1..];
      if status.value == s && status.value != InProgress {
        continue;
      }
      return Success(InProgress);
    }
    return Success(status.value);
  }

  // ---------------------------------------------------------------- schedule

  /** The aggregate schedule updateEpicTime writes into an epic. */
  datatype EpicTime = EpicTime(duration: int, startTime: Option<int>, endTime: Option<int>)

  /** Sum of the subtasks' durations. */
  function TotalDuration(subs: seq<Entity>): int
  {
    if subs == [] then 0 else TotalDuration(subs[..|subs| - 1]) + subs[|subs| - 1].duration
  }

  /** The smaller of two optional times, a null one being ignored. */
  function Earlier(a: Option<int>, b: Option<int>): Option<int>
  {
    if a.None? then b else if b.None? then a else if b.value < a.value then b else a
  }

  /** The larger of two optional times, a null one being ignored. */
  function Later(a: Option<int>, b: Option<int>): Option<int>
  {
    if a.None? then b else if b.None? then a else if b.value > a.value then b else a
  }

  /** The start time updateEpicTime ends with: the earlier of each subtask's start in turn. */
  function EarliestStart(subs: seq<Entity>): Option<int>
  {
    if subs == [] then None else Earlier(EarliestStart(subs[..|subs| - 1]), subs[|subs| - 1].startTime)
  }

  /** The end time updateEpicTime ends with: the later of each subtask's end in turn. */
  function LatestEnd(subs: seq<Entity>): Option<int>
  {
    if subs == [] then None else Later(LatestEnd(subs[..|subs| - 1]), EndTime(subs[|subs| - 1]))
  }

  /** That start is null exactly when no subtask is scheduled, and otherwise the least start time. */
  lemma {:induction false} EarliestStartIsLeast(subs: seq<Entity>)
    ensures EarliestStart(subs).None? <==> forall i :: 0 <= i < |subs| ==> subs[i].startTime.None?
    ensures EarliestStart(subs).Some? ==> exists i :: 0 <= i < |subs| && subs[i].startTime == EarliestStart(subs)
    ensures EarliestStart(subs).Some? ==>
      forall i :: 0 <= i < |subs| && subs[i].startTime.Some? ==> EarliestStart(subs).value <= subs[i].startTime.value
  {
    if subs != [] {
      var front := subs[..|subs| - 1];
      EarliestStartIsLeast(front);
      assert forall i :: 0 <= i < |front| ==> front[i] == subs[i];
    }
  }

  /** That end is null exactly when no subtask is scheduled, and otherwise the greatest end time. */
  lemma {:induction false} LatestEndIsGreatest(subs: seq<Entity>)
    ensures LatestEnd(subs).None? <==> forall i :: 0 <= i < |subs| ==> subs[i].startTime.None?
    ensures LatestEnd(subs).Some? ==> exists i :: 0 <= i < |subs| && EndTime(subs[i]) == LatestEnd(subs)
    ensures LatestEnd(subs).Some? ==>
      forall i :: 0 <= i < |subs| && subs[i].startTime.Some? ==> EndTime(subs[i]).value <= LatestEnd(subs).value
  {
    if subs != [] {
      var front := subs[..|subs| - 1];
      LatestEndIsGreatest(front);
      assert forall i :: 0 <= i < |front| ==> front[i] == subs[i];
    }
  }

  /** The epic schedule rule: total duration, earliest start, latest end. */
  function Aggregate(subs: seq<Entity>): EpicTime
  {
    EpicTime(TotalDuration(subs), EarliestStart(subs), LatestEnd(subs))
  }

  /** An epic without subtasks gets zero duration and no start or end. */
  lemma AggregateOfNone()
    ensures Aggregate([]) == EpicTime(0, None, None)
  {
  }

  /** Some subtask without a start time comes after one with a start time. */
  predicate UnscheduledAfterScheduled(subs: seq<Entity>)
  {
    exists i, j :: 0 <= i < j < |subs| && subs[i].startTime.Some? && subs[j].startTime.None?
  }

  lemma UnscheduledAfterScheduledSnoc(subs: seq<Entity>, x: Entity)
    ensures UnscheduledAfterScheduled(subs + [x]) <==>
      UnscheduledAfterScheduled(subs) || (x.startTime.None? && EarliestStart(subs).Some?)
  {
    var s := subs + [x];
    if UnscheduledAfterScheduled(s) && !UnscheduledAfterScheduled(subs) {
      var i, j :| 0 <= i < j < |s| && s[i].startTime.Some? && s[j].startTime.None?;
      assert j == |subs| && s[i] == subs[i];
    }
    if UnscheduledAfterScheduled(subs) {
      var i, j :| 0 <= i < j < |subs| && subs[i].startTime.Some? && subs[j].startTime.None?;
      assert s[i] == subs[i] && s[j] == subs[j];
    }
    if x.startTime.None? && EarliestStart(subs).Some? {
      EarliestStartIsLeast(subs);
      var i :| 0 <= i < |subs| && subs[i].startTime.Some?;
      assert s[i] == subs[i] && s[|subs|] == x;
    }
  }

  /**
   * The loop of updateEpicTime over getSubTasksOfEpic(epic).  A null entry, or a subtask without
   * a start time once an earlier one had a start time, is dereferenced and throws; nothing has been
   * written to the epic at that point.
   */
  method TimeFromSubTasks(ids: seq<int>, subTasks: map<int, Entity>) returns (r: Result<EpicTime, Failure>)
    ensures r.Success? <==> AllListed(ids, subTasks) && !UnscheduledAfterScheduled(Lookup(ids, subTasks))
    ensures r.Success? ==> r.value == Aggregate(Lookup(ids, subTasks))
    ensures r.Failure? ==> r.error == NullPointer
  {
    var total := 0;
    var start: Option<int> := None;
    var end: Option<int> := None;
    ghost var done: seq<Entity> := [];
    assert Lookup(ids[..0], subTasks) == [];
    for i := 0 to |ids|
      invariant AllListed(ids[..i], subTasks)
      invariant done == Lookup(ids[..i], subTasks)
      invariant !UnscheduledAfterScheduled(done)
      invariant total == TotalDuration(done)
      invariant start == EarliestStart(done)
      invariant end == LatestEnd(done)
    {
      if ids[i] !in subTasks {
        assert !AllListed(ids, subTasks);
        return Failure(NullPointer);
      }
      var sub := subTasks[ids[i]];
      ListedStep(ids, i, subTasks);
      AggregateSnoc(done, sub);
      total := total + sub.duration;
      if start.Some? && sub.startTime.None? {
        if AllListed(ids, subTasks) {
          PrefixUnscheduled(ids, i + 1, subTasks);
        }
        return Failure(NullPointer);
      }
      StartEndTogether(done);
      if start.None? || sub.startTime.value < start.value {
        start := sub.startTime;
      }
      if end.None? || EndTime(sub).value > end.value {
        end := EndTime(sub);
      }
      done := done + [sub];
    }
    assert ids[..|ids|] == ids;
    return Success(EpicTime(total, start, end));
  }

  /** One more listed id: the prefix stays listed and its lookup gains that subtask. */
  lemma ListedStep(ids: seq<int>, i: nat, subTasks: map<int, Entity>)
    requires i < |ids| && AllListed(ids[..i], subTasks) && ids[i] in subTasks
    ensures AllListed(ids[..i + 1], subTasks)
    ensures Lookup(ids[..i + 1], subTasks) == Lookup(ids[..i], subTasks) + [subTasks[ids[i]]]
  {
    assert AllListed(ids[..i + 1], subTasks);
    LookupSnoc(ids, i, subTasks);
  }

  /** The running start and end are null together: both are null exactly when no subtask is scheduled. */
  lemma StartEndTogether(subs: seq<Entity>)
    ensures EarliestStart(subs).None? <==> LatestEnd(subs).None?
  {
    EarliestStartIsLeast(subs);
    LatestEndIsGreatest(subs);
  }

  /** One more subtask extends each running aggregate by that subtask. */
  lemma AggregateSnoc(done: seq<Entity>, sub: Entity)
    ensures TotalDuration(done + [sub]) == TotalDuration(done) + sub.duration
    ensures EarliestStart(done + [sub]) == Earlier(EarliestStart(done), sub.startTime)
    ensures LatestEnd(done + [sub]) == Later(LatestEnd(done), EndTime(sub))
    ensures UnscheduledAfterScheduled(done + [sub]) <==>
      UnscheduledAfterScheduled(done) || (sub.startTime.None? && EarliestStart(done).Some?)
  {
    assert (done + [sub])[..|done|] == done;
    UnscheduledAfterScheduledSnoc(done, sub);
  }

  lemma PrefixUnscheduled(ids: seq<int>, n: nat, subTasks: map<int, Entity>)
    requires n <= |ids| && AllListed(ids, subTasks)
    requires AllListed(ids[..n], subTasks) && UnscheduledAfterScheduled(Lookup(ids[..n], subTasks))
    ensures UnscheduledAfterScheduled(Lookup(ids, subTasks))
  {
    var pre := Lookup(ids[..n], subTasks);
    var i, j :| 0 <= i < j < |pre| && pre[i].startTime.Some? && pre[j].startTime.None?;
    assert Lookup(ids, subTasks)[i] == pre[i] && Lookup(ids, subTasks)[j] == pre[j];
  }

  // ---------------------------------------------------------------- applying the rules

  /** The epic after updateEpicStatus. */
  function WithStatus(epic: Entity, status: Status): Entity
  {
    epic.(status := status)
  }

  /** The epic after updateEpicTime (setDuration, setStartTime, setEndTime). */
  function WithTime(epic: Entity, time: EpicTime): Entity
    requires epic.variant.Epic?
  {
    epic.(duration := time.duration, startTime := time.startTime, variant := epic.variant.(endTime := time.endTime))
  }

  /** The epic once both rules have been applied to its current subtask list. */
  function Refreshed(epic: Entity, subTasks: map<int, Entity>): (r: Entity)
    requires epic.variant.Epic? && AllListed(epic.variant.subTaskIds, subTasks)
    ensures r.id == epic.id && r.name == epic.name && r.description == epic.description
    ensures r.variant.Epic? && r.variant.subTaskIds == epic.variant.subTaskIds
  {
    var subs := Lookup(epic.variant.subTaskIds, subTasks);
    WithTime(WithStatus(epic, EpicStatusRule(Statuses(subs))), Aggregate(subs))
  }
}

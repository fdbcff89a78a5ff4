/**
 * The manager's `prioritizedTasks`: a TreeSet whose comparator compares start times only.
 *
 * The set is a sequence kept in strictly ascending start-time order.  Because the comparator
 * looks at nothing but the start time, two entries with the same start time are the same key:
 * adding the second is ignored, and removing any entity removes the entry holding its start time.
 * The comparator dereferences the start time, so comparing against a null entity or a null
 * start time throws, which happens as soon as the set has an element to compare with.
 */
module Prioritized {
  import opened Wrappers
  import opened Errors
  import opened Tasks

  /** The TreeSet's shape: every entry has a start time, and start times strictly increase. */
  predicate Ordered(p: seq<Entity>)
  {
    && (forall i :: 0 <= i < |p| ==> p[i].startTime.Some?)
    && (forall i, j :: 0 <= i < j < |p| ==> p[i].startTime.value < p[j].startTime.value)
  }

  /** Some entry already occupies start time k. */
  predicate HasStart(p: seq<Entity>, k: int)
  {
    exists i :: 0 <= i < |p| && p[i].startTime == Some(k)
  }

  /** Prepending an entry that starts before every entry of an ordered set keeps it ordered. */
  lemma ConsOrdered(x: Entity, p: seq<Entity>)
    requires Ordered(p) && x.startTime.Some?
    requires forall e :: e in p ==> x.startTime.value < e.startTime.value
    ensures Ordered([x] + p)
  {
    var q := [x] + p;
    forall i, j | 0 <= i < j < |q| ensures q[i].startTime.value < q[j].startTime.value {
      if i > 0 {
        assert q[i] == p[i - 1] && q[j] == p[j - 1];
      } else {
        assert q[j] == p[j - 1] && q[j] in p;
      }
    }
  }

  /** Every entry of an ordered set after the first starts later than the first. */
  lemma TailStartsLater(p: seq<Entity>)
    requires Ordered(p) && p != []
    ensures Ordered(p[1..])
    ensures forall e :: e in p[1..] ==> p[0].startTime.value < e.startTime.value
  {
    forall e | e in p[1..] ensures p[0].startTime.value < e.startTime.value {
      var j :| 0 <= j < |p[1..]| && p[1..][j] == e;
      assert p[j + 1] == e;
    }
  }

  /** An ordered set holds start time k either in its first entry or in its tail. */
  lemma HasStartSplit(p: seq<Entity>, k: int)
    requires p != []
    ensures HasStart(p, k) <==> p[0].startTime == Some(k) || HasStart(p[1..], k)
  {
    if HasStart(p, k) && p[0].startTime != Some(k) {
      var i :| 0 <= i < |p| && p[i].startTime == Some(k);
      assert p[1..][i - 1] == p[i];
    }
    if HasStart(p[1..], k) {
      var i :| 0 <= i < |p[1..]| && p[1..][i].startTime == Some(k);
      assert p[i + 1] == p[1..][i];
    }
  }

  /** No entry of an ordered set starts before its first entry. */
  lemma StartsBelowFirstAbsent(p: seq<Entity>, k: int)
    requires Ordered(p) && p != [] && k < p[0].startTime.value
    ensures !HasStart(p, k)
    ensures forall e :: e in p ==> k < e.startTime.value
  {
    forall i | 0 <= i < |p| ensures k < p[i].startTime.value {
      if i > 0 {
        assert p[0].startTime.value < p[i].startTime.value;
      }
    }
  }

  /** TreeSet.add(t) for a t with a start time. */
  function Insert(p: seq<Entity>, t: Entity): (r: seq<Entity>)
    requires Ordered(p) && t.startTime.Some?
    ensures Ordered(r)
    ensures HasStart(p, t.startTime.value) ==> r == p
    ensures !HasStart(p, t.startTime.value) ==> |r| == |p| + 1 && forall e :: e in r <==> e in p || e == t
  {
    if p == [] then [t]
    else
      var k := t.startTime.value;
      TailStartsLater(p);
      HasStartSplit(p, k);
      if k < p[0].startTime.value then
        StartsBelowFirstAbsent(p, k);
        ConsOrdered(t, p);
        [t] + p
      else if k == p[0].startTime.value then p
      else
        var rest := Insert(p[1..], t);
        InsertBehindFirst(p, t, rest);
        [p[0]] + rest
  }

  /** Keeping the first entry in front of the tail's insertion result inserts into the whole set. */
  lemma InsertBehindFirst(p: seq<Entity>, t: Entity, rest: seq<Entity>)
    requires Ordered(p) && p != [] && t.startTime.Some?
    requires p[0].startTime.value < t.startTime.value
    requires Ordered(rest)
    requires HasStart(p[1..], t.startTime.value) ==> rest == p[1..]
    requires !HasStart(p[1..], t.startTime.value) ==>
      |rest| == |p[1..]| + 1 && forall e :: e in rest <==> e in p[1..] || e == t
    ensures Ordered([p[0]] + rest)
    ensures HasStart(p, t.startTime.value) ==> [p[0]] + rest == p
    ensures !HasStart(p, t.startTime.value) ==>
      |[p[0]] + rest| == |p| + 1 && forall e :: e in [p[0]] + rest <==> e in p || e == t
  {
    TailStartsLater(p);
    HasStartSplit(p, t.startTime.value);
    assert p == [p[0]] + p[1..];
    assert forall e :: e in p <==> e == p[0] || e in p[1..];
    assert forall e :: e in rest ==> p[0].startTime.value < e.startTime.value;
    ConsOrdered(p[0], rest);
  }

  /** The entries whose start time is not in `starts`, in their order. */
  function ExceptStarts(p: seq<Entity>, starts: set<int>): (r: seq<Entity>)
    ensures forall e :: e in r <==> e in p && !(e.startTime.Some? && e.startTime.value in starts)
    ensures |r| <= |p|
  {
    if p == [] then []
    else
      var rest := ExceptStarts(p[1..], starts);
      if p[0].startTime.Some? && p[0].startTime.value in starts then rest
      else [p[0]] + rest
  }

  /** Removing entries from an ordered set leaves it ordered. */
  lemma {:induction false} ExceptStartsOrdered(p: seq<Entity>, starts: set<int>)
    requires Ordered(p)
    ensures Ordered(ExceptStarts(p, starts))
  {
    if p != [] {
      TailStartsLater(p);
      ExceptStartsOrdered(p[1..], starts);
      if !(p[0].startTime.Some? && p[0].startTime.value in starts) {
        ConsOrdered(p[0], ExceptStarts(p[1..], starts));
      }
    }
  }

  /** Removing two batches of start times one after the other removes their union. */
  lemma {:induction false} ExceptStartsTwice(p: seq<Entity>, a: set<int>, b: set<int>)
    ensures ExceptStarts(ExceptStarts(p, a), b) == ExceptStarts(p, a + b)
  {
    if p != [] {
      ExceptStartsTwice(p[1..], a, b);
    }
  }

  /**
   * TreeSet.remove(o) where `None` stands for a null reference.  An empty set answers without
   * comparing; otherwise a null `o` or a null start time makes the comparator throw.
   */
  function Remove(p: seq<Entity>, o: Option<Entity>): (r: Result<seq<Entity>, Failure>)
    ensures r.Failure? <==> p != [] && (o.None? || o.value.startTime.None?)
    ensures r.Failure? ==> r.error == NullPointer
    ensures r.Success? && p != [] ==> r.value == ExceptStarts(p, {o.value.startTime.value})
    ensures r.Success? && p == [] ==> r.value == []
  {
    if p == [] then Success(p)
    else if o.None? || o.value.startTime.None? then Failure(NullPointer)
    else Success(ExceptStarts(p, {o.value.startTime.value}))
  }

  /** In an ordered set, removing a start time that is present takes out exactly one entry. */
  lemma {:induction false} ExceptStartPresent(p: seq<Entity>, k: int)
    requires Ordered(p) && HasStart(p, k)
    ensures |ExceptStarts(p, {k})| == |p| - 1
  {
    if p[0].startTime != Some(k) {
      assert HasStart(p[1..], k) by {
        var i :| 0 <= i < |p| && p[i].startTime == Some(k);
        assert i > 0 && p[1..][i - 1] == p[i];
      }
      ExceptStartPresent(p[1..], k);
    } else {
      assert forall i :: 0 <= i < |p[1..]| ==> p[1..][i].startTime.value > k;
      ExceptStartsAbsent(p[1..], k);
    }
  }

  /** Removing a start time no entry has changes nothing. */
  lemma {:induction false} ExceptStartsAbsent(p: seq<Entity>, k: int)
    requires forall i :: 0 <= i < |p| ==> p[i].startTime != Some(k)
    ensures ExceptStarts(p, {k}) == p
  {
    if p != [] {
      ExceptStartsAbsent(p[1..], k);
    }
  }

  /** Removing no start times changes nothing. */
  lemma {:induction false} ExceptStartsNone(p: seq<Entity>)
    ensures ExceptStarts(p, {}) == p
  {
    if p != [] {
      ExceptStartsNone(p[1..]);
    }
  }
}

/**
 * The view history: InMemoryHistoryManager (src/manager/InMemoryHistoryManager.java), a list
 * of viewed tasks capped at ten entries where the oldest entry is evicted first and repeated
 * views are kept as repeated entries.
 */
module History {
  import opened Wrappers
  import opened Tasks

  /** The cap on the history length. */
  const MaxHistory := 10

  /** The last n elements of s (all of s when it is shorter). */
  function LastN<T>(s: seq<T>, n: nat): (r: seq<T>)
    ensures |r| == if |s| < n then |s| else n
  {
    if |s| <= n then s else s[|s| - n..]
  }

  /** addToHistory: null is ignored; otherwise append, then drop the head once over the cap. */
  function Appended<T>(h: seq<T>, task: Option<T>): seq<T>
  {
    if task.None? then h
    else if |h + [task.value]| > MaxHistory then (h + [task.value])[1..]
    else h + [task.value]
  }

  /** A history within the cap stays within the cap, and the viewed task is its last entry. */
  lemma AppendedBounded<T>(h: seq<T>, task: Option<T>)
    requires |h| <= MaxHistory
    ensures |Appended(h, task)| <= MaxHistory
    ensures task.Some? ==> |Appended(h, task)| > 0 && Appended(h, task)[|Appended(h, task)| - 1] == task.value
    ensures task.Some? ==> Appended(h, task) == LastN(h + [task.value], MaxHistory)
  {
  }

  /** Viewing an entity already in the history adds a second entry; the earlier one stays unless evicted. */
  lemma RepeatedViewKept<T>(h: seq<T>, t: T)
    requires |h| < MaxHistory && t in h
    ensures multiset(Appended(h, Some(t)))[t] == multiset(h)[t] + 1
  {
    assert Appended(h, Some(t)) == h + [t];
  }

  /** The history after a run of views, one addToHistory call per entry of views. */
  function Replay<T>(h: seq<T>, views: seq<Option<T>>): seq<T>
    decreases |views|
  {
    if views == [] then h else Replay(Appended(h, views[0]), views[1..])
  }

  /** The non-null views in order. */
  function Present<T>(views: seq<Option<T>>): (r: seq<T>)
    ensures |r| <= |views|
  {
    if views == [] then []
    else if views[0].None? then Present(views[1..])
    else [views[0].value] + Present(views[1..])
  }

  lemma LastNOfLastN<T>(a: seq<T>, b: seq<T>, n: nat)
    ensures LastN(LastN(a, n) + b, n) == LastN(a + b, n)
  {
    if |a| > n {
      var a' := a[|a| - n..];
      assert a + b == a[..|a| - n] + (a' + b);
    }
  }

  /**
   * From any history within the cap, a run of views leaves exactly the ten most recent entries
   * of the old history followed by the viewed tasks, in viewing order.
   */
  lemma {:induction false} ReplayKeepsMostRecent<T>(h: seq<T>, views: seq<Option<T>>)
    requires |h| <= MaxHistory
    ensures Replay(h, views) == LastN(h + Present(views), MaxHistory)
    decreases |views|
  {
    if views == [] {
      assert h + [] == h;
    } else {
      var h' := Appended(h, views[0]);
      var rest := Present(views[1..]);
      var first := Present([views[0]]);
      assert |h'| <= MaxHistory by {
        AppendedBounded(h, views[0]);
      }
      ReplayKeepsMostRecent(h', views[1..]);
      assert LastN(h' + rest, MaxHistory) == LastN(h + (first + rest), MaxHistory) by {
        ReplayStep(h, views[0], rest);
      }
      assert first + rest == Present(views) by {
        PresentCons(views);
      }
      assert Replay(h, views) == Replay(h', views[1..]);
    }
  }

  /** One view appended and trimmed, then later views: the same as trimming once at the end. */
  lemma ReplayStep<T>(h: seq<T>, v: Option<T>, rest: seq<T>)
    requires |h| <= MaxHistory
    ensures LastN(Appended(h, v) + rest, MaxHistory) == LastN(h + (Present([v]) + rest), MaxHistory)
  {
    if v.None? {
      assert Present([v]) == [] && [] + rest == rest;
    } else {
      assert Present([v]) == [v.value];
      AppendedBounded(h, v);
      LastNOfLastN(h + [v.value], rest, MaxHistory);
      assert h + [v.value] + rest == h + ([v.value] + rest);
    }
  }

  /** The non-null views of a run: those of its first view, then those of the others. */
  lemma PresentCons<T>(views: seq<Option<T>>)
    requires views != []
    ensures Present(views) == Present([views[0]]) + Present(views[1..])
  {
    assert [views[0]][1..] == [];
  }

  /** InMemoryHistoryManager. */
  class InMemoryHistoryManager {
    var historyList: seq<Entity>

    ghost predicate Valid()
      reads this
    {
      |historyList| <= MaxHistory
    }

    constructor ()
      ensures Valid() && historyList == []
    {
      historyList := [];
    }

    /** addToHistory. */
    method AddToHistory(task: Option<Entity>)
      requires Valid()
      modifies this`historyList
      ensures Valid()
      ensures historyList == Appended(old(historyList), task)
    {
      if task.None? {
        return;
      }
      historyList := historyList + [task.value];
      if |historyList| > MaxHistory {
        historyList := historyList[1..];
      }
    }

    /** getHistory: the viewed tasks, oldest first, never more than ten. */
    function GetHistory(): (r: seq<Entity>)
      reads this
      requires Valid()
      ensures |r| <= MaxHistory
    {
      historyList
    }
  }

  // ---------------------------------------------------------------- history as the task manager uses it

  /**
   * The task manager also removes and clears history entries, calls the HistoryManager interface in
   * src/manager/HistoryManager.java does not declare.  The manager's history is kept as the list of
   * viewed ids: a lookup appends the id of what it found (nothing for null), remove drops every
   * entry of an id, clear empties the list.
   */
  function Viewed(h: seq<int>, found: Option<Entity>): (r: seq<int>)
    ensures found.None? ==> r == h
    ensures found.Some? ==> r == h + [found.value.id]
  {
    if found.None? then h else h + [found.value.id]
  }

  /** The history without any entry whose id is in ids. */
  function Forget(h: seq<int>, ids: set<int>): (r: seq<int>)
    ensures forall x :: x in r <==> x in h && x !in ids
    ensures |r| <= |h|
  {
    if h == [] then []
    else if h[0] in ids then Forget(h[1..], ids)
    else [h[0]] + Forget(h[1..], ids)
  }

  /** Forgetting no ids changes nothing. */
  lemma {:induction false} ForgetNone(h: seq<int>)
    ensures Forget(h, {}) == h
  {
    if h != [] {
      ForgetNone(h[1..]);
    }
  }

  /** Forgetting is order-preserving: the entries that stay keep their relative order. */
  lemma {:induction false} ForgetAppend(a: seq<int>, b: seq<int>, ids: set<int>)
    ensures Forget(a + b, ids) == Forget(a, ids) + Forget(b, ids)
  {
    if a == [] {
      assert a + b == b;
    } else {
      assert (a + b)[1..] == a[1..] + b;
      ForgetAppend(a[1..], b, ids);
    }
  }

  /** Forgetting one set of ids then another is forgetting both at once. */
  lemma {:induction false} ForgetTwice(h: seq<int>, a: set<int>, b: set<int>)
    ensures Forget(Forget(h, a), b) == Forget(h, a + b)
  {
    if h != [] {
      ForgetTwice(h[1..], a, b);
      if h[0] !in a {
        assert Forget(h, a) == [h[0]] + Forget(h[1..], a);
        ForgetAppend([h[0]], Forget(h[1..], a), b);
        assert Forget([h[0]], b) == if h[0] in b then [] else [h[0]];
      }
    }
  }
}

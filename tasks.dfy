/**
 The task record and the pure meaning of every store operation: counts, the sample
 tasks loaded at start-up, toggling, deletion and clearing completed tasks.
 */
module Tasks {
  import opened SeqFilter

  /** One to-do item: `{id, text, completed, timestamp}`. */
  datatype Task = Task(id: int, text: string, completed: bool, timestamp: int)

  predicate IsActive(t: Task) { !t.completed }

  predicate IsCompleted(t: Task) { t.completed }

  /** Some task in `ts` carries the identifier `id`. */
  predicate HasId(ts: seq<Task>, id: int) {
    exists t :: t in ts && t.id == id
  }

  /** No two positions of `ts` carry the same identifier. */
  predicate DistinctIds(ts: seq<Task>) {
    forall i, j :: 0 <= i < |ts| && 0 <= j < |ts| && i != j ==> ts[i].id != ts[j].id
  }

  /** A task in front of `ts` keeps identifiers distinct exactly when `ts` does and does not carry its identifier. */
  lemma DistinctIdsCons(t: Task, ts: seq<Task>)
    ensures DistinctIds([t] + ts) <==> DistinctIds(ts) && !HasId(ts, t.id)
  {
    var s := [t] + ts;
    assert forall i :: 0 <= i < |ts| ==> s[i + 1] == ts[i];
    if DistinctIds(s) {
      forall i, j | 0 <= i < |ts| && 0 <= j < |ts| && i != j
        ensures ts[i].id != ts[j].id
      {
        assert s[i + 1].id != s[j + 1].id;
      }
      forall u | u in ts
        ensures u.id != t.id
      {
        var k :| 0 <= k < |ts| && ts[k] == u;
        assert s[0].id != s[k + 1].id;
      }
    }
    if DistinctIds(ts) && !HasId(ts, t.id) {
      forall i, j | 0 <= i < |s| && 0 <= j < |s| && i != j
        ensures s[i].id != s[j].id
      {
        if i > 0 && j > 0 {
          assert ts[i - 1].id != ts[j - 1].id;
        } else if i > 0 {
          assert ts[i - 1] in ts;
        } else {
          assert ts[j - 1] in ts;
        }
      }
    }
  }

  // ---------------------------------------------------------------- counts

  /** The number shown in the task counter: tasks not yet completed. It is zero exactly when every task is completed. */
  function ActiveCount(ts: seq<Task>): (n: nat)
    ensures n <= |ts|
    ensures n == 0 <==> forall t :: t in ts ==> t.completed
  {
    FilterEmpty(ts, IsActive);
    |Filter(ts, IsActive)|
  }

  /** The number of completed tasks. It is zero exactly when no task is completed. */
  function CompletedCount(ts: seq<Task>): (n: nat)
    ensures n <= |ts|
    ensures n == 0 <==> forall t :: t in ts ==> !t.completed
  {
    FilterEmpty(ts, IsCompleted);
    |Filter(ts, IsCompleted)|
  }

  /** Every task is either active or completed, so the two counts add up to the total. */
  lemma CountsAddUp(ts: seq<Task>)
    ensures ActiveCount(ts) + CompletedCount(ts) == |ts|
  {
    FilterSplit(ts, IsActive, IsCompleted);
  }

  /** The "clear completed" button is disabled when there is nothing completed to clear. */
  function ClearDisabled(ts: seq<Task>): (r: bool)
    ensures r <==> forall t :: t in ts ==> !t.completed
  {
    CompletedCount(ts) == 0
  }

  // ---------------------------------------------------------------- seeding

  /**
   The tasks built from the sample items found in the page, in document order: item
   `i` gets the identifier `clock[i] + i` (a clock reading plus its index), the item's
   text, `completed = false`, and the clock reading as its timestamp.
   */
  function SampleTasks(texts: seq<string>, clock: seq<int>): (r: seq<Task>)
    requires |texts| == |clock|
    ensures |r| == |texts|
    ensures forall i :: 0 <= i < |r| ==> r[i].text == texts[i] && !r[i].completed
  {
    seq(|texts|, i requires 0 <= i < |texts| => Task(clock[i] + i, texts[i], false, clock[i]))
  }

  /**
   Because a clock never runs backwards, the identifiers of the sample tasks are
   strictly increasing and hence distinct, and none of them starts completed.
   */
  lemma SampleTasksFresh(texts: seq<string>, clock: seq<int>)
    requires |texts| == |clock|
    requires forall i, j :: 0 <= i <= j < |clock| ==> clock[i] <= clock[j]
    ensures DistinctIds(SampleTasks(texts, clock))
    ensures forall i, j :: 0 <= i < j < |texts| ==>
              SampleTasks(texts, clock)[i].id < SampleTasks(texts, clock)[j].id
    ensures ActiveCount(SampleTasks(texts, clock)) == |texts|
    ensures CompletedCount(SampleTasks(texts, clock)) == 0
  {
    var r := SampleTasks(texts, clock);
    FilterAllPass(r, IsActive);
    CountsAddUp(r);
  }

  // ---------------------------------------------------------------- adding

  /** A task added under a fresh identifier keeps identifiers distinct. */
  lemma AddKeepsDistinct(ts: seq<Task>, t: Task)
    requires DistinctIds(ts) && !HasId(ts, t.id)
    ensures DistinctIds([t] + ts)
  {
    DistinctIdsCons(t, ts);
  }

  /** A newly added task is active: the active count grows by one, the completed count stays. */
  lemma AddCounts(ts: seq<Task>, id: int, text: string, timestamp: int)
    ensures ActiveCount([Task(id, text, false, timestamp)] + ts) == ActiveCount(ts) + 1
    ensures CompletedCount([Task(id, text, false, timestamp)] + ts) == CompletedCount(ts)
  {
    var t := Task(id, text, false, timestamp);
    FilterAppend([t], ts, IsActive);
    FilterAppend([t], ts, IsCompleted);
  }

  // ---------------------------------------------------------------- toggling

  /**
   `ts` with the `completed` flag of the first task whose identifier is `id` flipped.
   Length, order, identifiers, texts and timestamps are all kept.
   */
  function ToggleFirst(ts: seq<Task>, id: int): (r: seq<Task>)
    ensures |r| == |ts|
    ensures forall k :: 0 <= k < |ts| ==>
              r[k].id == ts[k].id && r[k].text == ts[k].text && r[k].timestamp == ts[k].timestamp
  {
    if ts == [] then []
    else if ts[0].id == id then [ts[0].(completed := !ts[0].completed)] + ts[1..]
    else [ts[0]] + ToggleFirst(ts[1..], id)
  }

  /** If the first match for `id` is at position `i`, toggling changes that task's flag and nothing else. */
  lemma {:induction false} ToggleFirstAt(ts: seq<Task>, id: int, i: nat)
    requires i < |ts| && ts[i].id == id
    requires forall j :: 0 <= j < i ==> ts[j].id != id
    ensures ToggleFirst(ts, id) == ts[i := ts[i].(completed := !ts[i].completed)]
  {
    if i > 0 {
      ToggleFirstAt(ts[1..], id, i - 1);
      assert ts[1..][i - 1 := ts[i].(completed := !ts[i].completed)]
          == ts[i := ts[i].(completed := !ts[i].completed)][1..];
    }
  }

  /** Toggling an identifier nobody carries is a no-op. */
  lemma {:induction false} ToggleFirstAbsent(ts: seq<Task>, id: int)
    requires !HasId(ts, id)
    ensures ToggleFirst(ts, id) == ts
  {
    if ts != [] {
      assert ts[0] in ts;
      ToggleFirstAbsent(ts[1..], id);
    }
  }

  /** Toggling the same identifier twice restores the original tasks. */
  lemma {:induction false} ToggleTwice(ts: seq<Task>, id: int)
    ensures ToggleFirst(ToggleFirst(ts, id), id) == ts
  {
    if ts != [] && ts[0].id != id {
      ToggleTwice(ts[1..], id);
    }
  }

  /** Toggling keeps identifiers distinct. */
  lemma ToggleKeepsDistinct(ts: seq<Task>, id: int)
    requires DistinctIds(ts)
    ensures DistinctIds(ToggleFirst(ts, id))
  {
  }

  /** Replacing position `i` of `ts` by `x` puts `x` between the part before and the part after. */
  lemma UpdateSplits(ts: seq<Task>, i: nat, x: Task)
    requires i < |ts|
    ensures ts[i := x] == ts[..i] + [x] + ts[i + 1..]
  {
  }

  /** Toggling the first match moves exactly one task between the active and the completed counts. */
  lemma ToggleCounts(ts: seq<Task>, id: int, i: nat)
    requires i < |ts| && ts[i].id == id
    requires forall j :: 0 <= j < i ==> ts[j].id != id
    ensures ts[i].completed ==>
              ActiveCount(ToggleFirst(ts, id)) == ActiveCount(ts) + 1
              && CompletedCount(ToggleFirst(ts, id)) + 1 == CompletedCount(ts)
    ensures !ts[i].completed ==>
              ActiveCount(ToggleFirst(ts, id)) + 1 == ActiveCount(ts)
              && CompletedCount(ToggleFirst(ts, id)) == CompletedCount(ts) + 1
  {
    var t := ts[i];
    var t' := t.(completed := !t.completed);
    var before, after := ts[..i], ts[i + 1..];
    ToggleFirstAt(ts, id, i);
    UpdateSplits(ts, i, t');
    UpdateSplits(ts, i, t);
    assert ts[i := t] == ts;
    FilterAround(before, t, after, IsActive);
    FilterAround(before, t', after, IsActive);
    FilterAround(before, t, after, IsCompleted);
    FilterAround(before, t', after, IsCompleted);
  }

  // ---------------------------------------------------------------- deleting

  /** The callback deletion passes to `filter`: it keeps exactly the tasks whose identifier differs from `id`. */
  function OtherThan(id: int): (keep: Task -> bool)
    ensures forall t :: keep(t) <==> t.id != id
  {
    (t: Task) => t.id != id
  }

  /** The tasks left after deleting `id`: exactly those with another identifier, in order. */
  function WithoutId(ts: seq<Task>, id: int): (r: seq<Task>)
    ensures forall t :: t in r <==> t in ts && t.id != id
    ensures !HasId(r, id)
  {
    Filter(ts, OtherThan(id))
  }

  /** Deleting an identifier nobody carries changes nothing. */
  lemma DeleteAbsent(ts: seq<Task>, id: int)
    requires !HasId(ts, id)
    ensures WithoutId(ts, id) == ts
  {
    FilterAllPass(ts, OtherThan(id));
  }

  /** Deleting twice is deleting once. */
  lemma DeleteTwice(ts: seq<Task>, id: int)
    ensures WithoutId(WithoutId(ts, id), id) == WithoutId(ts, id)
  {
    FilterIdempotent(ts, OtherThan(id));
  }

  /** Deletion keeps the relative order: deleting from a concatenation deletes from each part. */
  lemma DeleteKeepsOrder(a: seq<Task>, b: seq<Task>, id: int)
    ensures WithoutId(a + b, id) == WithoutId(a, id) + WithoutId(b, id)
  {
    FilterAppend(a, b, OtherThan(id));
  }

  /** With distinct identifiers, deletion removes exactly one task when `id` is present, none otherwise. */
  lemma {:induction false} DeleteRemovesAtMostOne(ts: seq<Task>, id: int)
    requires DistinctIds(ts)
    ensures |WithoutId(ts, id)| == if HasId(ts, id) then |ts| - 1 else |ts|
  {
    if ts == [] {
    } else {
      DistinctIdsCons(ts[0], ts[1..]);
      assert ts == [ts[0]] + ts[1..];
      DeleteRemovesAtMostOne(ts[1..], id);
      if ts[0].id == id {
        assert !HasId(ts[1..], id);
      } else {
        assert HasId(ts, id) <==> HasId(ts[1..], id) by {
          if HasId(ts, id) {
            var u :| u in ts && u.id == id;
            assert u in ts[1..];
          }
        }
      }
    }
  }

  /** Any filter keeps identifiers distinct: deletion (171) and clearing completed tasks (235) both do. */
  lemma {:induction false} FilterKeepsDistinct(ts: seq<Task>, p: Task -> bool)
    requires DistinctIds(ts)
    ensures DistinctIds(Filter(ts, p))
  {
    if ts != [] {
      DistinctIdsCons(ts[0], ts[1..]);
      assert ts == [ts[0]] + ts[1..];
      FilterKeepsDistinct(ts[1..], p);
      var rest := Filter(ts[1..], p);
      if p(ts[0]) {
        DistinctIdsCons(ts[0], rest);
      } else {
        assert Filter(ts, p) == rest;
      }
    }
  }

  /** A toggle that lands just before a delete of the same task does not stop the deletion. */
  lemma {:induction false} ToggleThenDelete(ts: seq<Task>, id: int)
    ensures WithoutId(ToggleFirst(ts, id), id) == WithoutId(ts, id)
  {
    if ts != [] {
      ToggleThenDelete(ts[1..], id);
      var r := ToggleFirst(ts, id);
      assert r == [r[0]] + r[1..];
      assert ts == [ts[0]] + ts[1..];
      FilterAppend([r[0]], r[1..], OtherThan(id));
      FilterAppend([ts[0]], ts[1..], OtherThan(id));
      if ts[0].id == id {
        assert r[1..] == ts[1..];
      } else {
        assert r[1..] == ToggleFirst(ts[1..], id);
      }
    }
  }

  /** Once a task is deleted, toggling its identifier does nothing. */
  lemma DeleteThenToggle(ts: seq<Task>, id: int)
    ensures ToggleFirst(WithoutId(ts, id), id) == WithoutId(ts, id)
  {
    ToggleFirstAbsent(WithoutId(ts, id), id);
  }

  // ---------------------------------------------------------------- clearing completed

  /** The tasks left after clearing completed ones: exactly the active tasks, in order. */
  function WithoutCompleted(ts: seq<Task>): (r: seq<Task>)
    ensures forall t :: t in r <==> t in ts && !t.completed
  {
    Filter(ts, IsActive)
  }

  /** Clearing keeps every active task and drops every completed one. */
  lemma ClearCounts(ts: seq<Task>)
    ensures ActiveCount(WithoutCompleted(ts)) == ActiveCount(ts)
    ensures CompletedCount(WithoutCompleted(ts)) == 0
    ensures |ts| - |WithoutCompleted(ts)| == CompletedCount(ts)
  {
    FilterIdempotent(ts, IsActive);
    CountsAddUp(ts);
  }

  /** With no completed task, clearing changes nothing (the early return has no effect on the tasks). */
  lemma ClearNothing(ts: seq<Task>)
    requires CompletedCount(ts) == 0
    ensures WithoutCompleted(ts) == ts
  {
    FilterAllPass(ts, IsActive);
  }
}

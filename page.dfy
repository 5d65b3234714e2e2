/**
 The visibility pass of the page: `filterTasks` shows or hides each task item and
 then `updateUI` decides between the task list and the empty-state panel by counting
 the items jQuery considers `:visible`. The page is modelled by three display flags:
 the list container's, each item's own (one per stored task, in store order, the
 item of `ts[i]` carrying the id `ts[i].id`), and the empty-state panel's.
 */
module Page {
  import opened Tasks
  import opened View

  datatype PageState = PageState(listShown: bool, itemShown: seq<bool>, emptyShown: bool)

  /** The number of items whose own display flag is set. */
  function ShownCount(flags: seq<bool>): (n: nat)
    ensures n <= |flags|
    ensures n == 0 <==> forall i :: 0 <= i < |flags| ==> !flags[i]
  {
    if flags == [] then 0
    else (if flags[0] then 1 else 0) + ShownCount(flags[1..])
  }

  /**
   What `$('.task-item:visible').length` counts: an item is `:visible` only when it and
   every ancestor are displayed, so nothing counts while the list container is hidden.
   */
  function VisibleItemCount(p: PageState): (n: nat)
    ensures n <= ShownCount(p.itemShown)
    ensures !p.listShown ==> n == 0
    ensures p.listShown ==> n == ShownCount(p.itemShown)
  {
    if p.listShown then ShownCount(p.itemShown) else 0
  }

  /** Where `tasks.find(t => t.id == id)` stops: the first position carrying `id`. */
  function FirstIndexOf(ts: seq<Task>, id: int): (k: nat)
    requires HasId(ts, id)
    ensures k < |ts| && ts[k].id == id
    ensures forall j :: 0 <= j < k ==> ts[j].id != id
  {
    if ts[0].id == id then 0
    else
      assert HasId(ts[1..], id) by {
        var u :| u in ts && u.id == id;
        assert u in ts[1..];
      }
      1 + FirstIndexOf(ts[1..], id)
  }

  /**
   The flags that pass the filter task by task: one per task, set exactly when that
   task passes, so as many are set as there are visible tasks.
   */
  function OwnFlags(ts: seq<Task>, filter: string): (flags: seq<bool>)
    ensures |flags| == |ts|
    ensures forall i :: 0 <= i < |ts| ==> flags[i] == Visible(ts[i], filter)
    ensures ShownCount(flags) == |VisibleTasks(ts, filter)|
  {
    if ts == [] then []
    else
      var rest := OwnFlags(ts[1..], filter);
      var flags := [Visible(ts[0], filter)] + rest;
      assert flags[1..] == rest;
      flags
  }

  /**
   The item flags `filterTasks` sets: each item looks its task up by id, so it gets the
   flag of the first stored task that carries its id.
   */
  function ItemFlags(ts: seq<Task>, filter: string): (flags: seq<bool>)
    ensures |flags| == |ts|
    ensures forall i :: 0 <= i < |ts| ==> flags[i] == Visible(ts[FirstIndexOf(ts, ts[i].id)], filter)
  {
    seq(|ts|, i requires 0 <= i < |ts| =>
      assert ts[i] in ts;
      Visible(ts[FirstIndexOf(ts, ts[i].id)], filter))
  }

  /** With distinct ids every item finds its own task, so the lookup gives the task-by-task flags. */
  lemma ItemFlagsDistinct(ts: seq<Task>, filter: string)
    requires DistinctIds(ts)
    ensures ItemFlags(ts, filter) == OwnFlags(ts, filter)
  {
    forall i | 0 <= i < |ts|
      ensures ItemFlags(ts, filter)[i] == OwnFlags(ts, filter)[i]
    {
      assert ts[i] in ts;
      assert FirstIndexOf(ts, ts[i].id) == i;
    }
  }

  /**
   Two tasks sharing an id, the first completed and the second active, under "active":
   both items look up the completed task, so neither is shown, though one task passes.
   */
  lemma ItemFlagsCollision(a: Task, b: Task)
    requires a.id == b.id && a.completed && !b.completed
    ensures ItemFlags([a, b], ActiveFilter) == [false, false]
    ensures OwnFlags([a, b], ActiveFilter) == [false, true]
  {
    assert FirstIndexOf([a, b], b.id) == 0;
  }

  /**
   `updateUI` as written: with no `:visible` item the empty state is shown and the list
   hidden, otherwise the reverse. The item flags are left alone.
   */
  function UpdateUIAsWritten(p: PageState): (q: PageState)
    ensures q.itemShown == p.itemShown
    ensures q.emptyShown <==> VisibleItemCount(p) == 0
    ensures q.listShown <==> !q.emptyShown
  {
    var none := VisibleItemCount(p) == 0;
    PageState(!none, p.itemShown, none)
  }

  /** `filterTasks` as written: set every item's flag from the store, then run `updateUI`. */
  function FilterTasksAsWritten(p: PageState, ts: seq<Task>, filter: string): (q: PageState)
    ensures q.itemShown == ItemFlags(ts, filter)
    ensures !p.listShown ==> !q.listShown && q.emptyShown
  {
    UpdateUIAsWritten(p.(itemShown := ItemFlags(ts, filter)))
  }

  /**
   One active task, "completed" selected and then "all": after the second pass the
   task's own flag is set and the task passes the filter, yet the list stays hidden and
   the empty state stays on screen.
   */
  lemma StuckEmptyState(t: Task)
    requires !t.completed
    ensures FilterTasksAsWritten(PageState(true, [true], false), [t], CompletedFilter).emptyShown
    ensures FilterTasksAsWritten(FilterTasksAsWritten(PageState(true, [true], false), [t], CompletedFilter), [t], AllFilter).itemShown == [true]
    ensures !FilterTasksAsWritten(FilterTasksAsWritten(PageState(true, [true], false), [t], CompletedFilter), [t], AllFilter).listShown
    ensures FilterTasksAsWritten(FilterTasksAsWritten(PageState(true, [true], false), [t], CompletedFilter), [t], AllFilter).emptyShown
    ensures !EmptyStateShown([t], AllFilter)
  {
    assert ItemFlags([t], CompletedFilter) == [false];
    assert ItemFlags([t], AllFilter) == [true];
  }

  /** `addTask`'s page work as written: the new item, displayed, goes in front of the others (106-110); then `updateUI` runs. */
  function AddItemAsWritten(p: PageState): (q: PageState)
    ensures q.itemShown == [true] + p.itemShown
    ensures !p.listShown ==> !q.listShown && q.emptyShown
  {
    UpdateUIAsWritten(p.(itemShown := [true] + p.itemShown))
  }

  /**
   A page that starts with no items: the `updateUI` at start-up hides the list, and after
   an add the new item is displayed and its task passes "all", yet the list stays hidden.
   */
  lemma EmptyStartStuck(listShown: bool, emptyShown: bool, t: Task)
    ensures UpdateUIAsWritten(PageState(listShown, [], emptyShown)) == PageState(false, [], true)
    ensures AddItemAsWritten(UpdateUIAsWritten(PageState(listShown, [], emptyShown))) == PageState(false, [true], true)
    ensures !EmptyStateShown([t], AllFilter)
  {
  }

  /**
   `updateUI` as evidently intended: the choice between list and empty state depends on
   the items' own flags, so hiding the container does not feed back into the count.
   */
  function UpdateUI(p: PageState): (q: PageState)
    ensures q.itemShown == p.itemShown
    ensures q.emptyShown <==> forall i :: 0 <= i < |p.itemShown| ==> !p.itemShown[i]
    ensures q.listShown <==> !q.emptyShown
  {
    var none := ShownCount(p.itemShown) == 0;
    PageState(!none, p.itemShown, none)
  }

  /** `filterTasks` with the intended `updateUI`. */
  function FilterTasks(p: PageState, ts: seq<Task>, filter: string): (q: PageState)
    ensures q.itemShown == ItemFlags(ts, filter)
  {
    UpdateUI(p.(itemShown := ItemFlags(ts, filter)))
  }

  /**
   With the intended `updateUI` and distinct ids, whatever the page showed before, the
   pass leaves the empty state on screen exactly when the reconciled display has it,
   and the list on screen exactly when some task is visible.
   */
  lemma FilterTasksMatchesRender(p: PageState, ts: seq<Task>, filter: string)
    requires DistinctIds(ts)
    ensures FilterTasks(p, ts, filter).emptyShown == Render(ts, filter).emptyShown
    ensures FilterTasks(p, ts, filter).listShown <==> VisibleTasks(ts, filter) != []
  {
    ItemFlagsDistinct(ts, filter);
    var v := VisibleTasks(ts, filter);
    assert v != [] ==> v[0] in v;
  }
}

/**
 The widget's state, `tasks` and `currentFilter`, and the handlers that change it.
 Each handler is modelled by its effect on the state. `Render` of the new state is
 the display that state calls for; the page the source produces can differ from it
 (module `Page`).
 */
module Store {
  import opened Tasks
  import opened Text
  import opened View

  datatype Option<T> = None | Some(value: T)

  /** The key code of the Enter key, which submits the text field. */
  const EnterKey: int := 13

  class TaskStore {
    /** The tasks, newest first. */
    var tasks: seq<Task>
    /** The selected filter name. */
    var filter: string

    /** The state before any handler runs: no tasks and the "all" filter. */
    constructor ()
      ensures tasks == [] && filter == AllFilter
    {
      tasks := [];
      filter := AllFilter;
    }

    /**
     Start-up: the sample items already in the page become tasks, appended in
     document order. `clock` holds one clock reading per item.
     */
    method LoadSampleTasks(texts: seq<string>, clock: seq<int>)
      requires |texts| == |clock|
      modifies this
      ensures tasks == old(tasks) + SampleTasks(texts, clock)
      ensures filter == old(filter)
    {
      var i := 0;
      while i < |texts|
        invariant 0 <= i <= |texts|
        invariant tasks == old(tasks) + SampleTasks(texts, clock)[..i]
        invariant filter == old(filter)
      {
        tasks := tasks + [Task(clock[i] + i, texts[i], false, clock[i])];
        i := i + 1;
        assert SampleTasks(texts, clock)[..i] == SampleTasks(texts, clock)[..i - 1] + [SampleTasks(texts, clock)[i - 1]];
      }
      assert SampleTasks(texts, clock)[..i] == SampleTasks(texts, clock);
    }

    /** A new active task goes in front of all the others; nothing else changes. */
    method Add(id: int, text: string, timestamp: int)
      modifies this
      ensures tasks == [Task(id, text, false, timestamp)] + old(tasks)
      ensures filter == old(filter)
    {
      tasks := [Task(id, text, false, timestamp)] + tasks;
    }

    /**
     The add button: the text field's value is trimmed, and when something is left
     it becomes a new task and the field is emptied. A blank value changes nothing.
     Returns the field's new value.
     */
    method Submit(input: string, id: int, timestamp: int) returns (field: string)
      modifies this
      ensures Trim(input) == [] ==> tasks == old(tasks) && field == input
      ensures Trim(input) != [] ==> tasks == [Task(id, Trim(input), false, timestamp)] + old(tasks) && field == []
      ensures filter == old(filter)
    {
      var text := Trim(input);
      if text != [] {
        Add(id, text, timestamp);
        field := [];
      } else {
        field := input;
      }
    }

    /** A key press in the text field: Enter submits, any other key changes nothing. */
    method KeyPress(key: int, input: string, id: int, timestamp: int) returns (field: string)
      modifies this
      ensures key == EnterKey && Trim(input) != [] ==>
                tasks == [Task(id, Trim(input), false, timestamp)] + old(tasks) && field == []
      ensures !(key == EnterKey && Trim(input) != []) ==> tasks == old(tasks) && field == input
      ensures filter == old(filter)
    {
      if key == EnterKey {
        field := Submit(input, id, timestamp);
      } else {
        field := input;
      }
    }

    /** The position of the first task whose identifier is `id`, if there is one. */
    method Find(id: int) returns (r: Option<nat>)
      ensures r.Some? ==> r.value < |tasks| && tasks[r.value].id == id
      ensures r.Some? ==> forall j :: 0 <= j < r.value ==> tasks[j].id != id
      ensures r.None? <==> !HasId(tasks, id)
    {
      var i := 0;
      while i < |tasks|
        invariant 0 <= i <= |tasks|
        invariant forall j :: 0 <= j < i ==> tasks[j].id != id
      {
        if tasks[i].id == id {
          assert tasks[i] in tasks;
          return Some(i);
        }
        i := i + 1;
      }
      return None;
    }

    /** The completion checkbox: the first task with identifier `id` changes state. */
    method Toggle(id: int)
      modifies this
      ensures tasks == ToggleFirst(old(tasks), id)
      ensures filter == old(filter)
    {
      var found := Find(id);
      if found.Some? {
        var i := found.value;
        ToggleFirstAt(tasks, id, i);
        tasks := tasks[i := tasks[i].(completed := !tasks[i].completed)];
      } else {
        ToggleFirstAbsent(tasks, id);
      }
    }

    /** The delete button: every task with identifier `id` is removed. */
    method Delete(id: int)
      modifies this
      ensures tasks == WithoutId(old(tasks), id)
      ensures filter == old(filter)
    {
      tasks := WithoutId(tasks, id);
    }

    /**
     The "clear completed" button: with nothing completed it returns at once;
     otherwise every completed task is removed. Returns how many were removed.
     */
    method ClearCompleted() returns (cleared: nat)
      modifies this
      ensures cleared == old(CompletedCount(tasks))
      ensures cleared == 0 ==> tasks == old(tasks)
      ensures cleared != 0 ==> tasks == WithoutCompleted(old(tasks))
      ensures filter == old(filter)
    {
      cleared := CompletedCount(tasks);
      if cleared == 0 {
        return;
      }
      tasks := WithoutCompleted(tasks);
    }

    /** A filter button: the selected filter changes and the tasks stay as they are. */
    method SetFilter(f: string)
      modifies this
      ensures filter == f
      ensures tasks == old(tasks)
    {
      filter := f;
    }
  }

  /** The views of a two-task list whose first task is active and whose second is completed. */
  lemma MixedPairViews(a: Task, c: Task)
    requires !a.completed && c.completed
    ensures VisibleTasks([a, c], CompletedFilter) == [c]
    ensures VisibleTasks([a, c], ActiveFilter) == [a]
    ensures ActiveCount([a, c]) == 1 && CompletedCount([a, c]) == 1
    ensures Render([a, c], AllFilter).counter == 1 && !Render([a, c], AllFilter).clearDisabled
    ensures Render([a, c], CompletedFilter).visible == [c] && !Render([a, c], CompletedFilter).emptyShown
    ensures Render([a, c], ActiveFilter).visible == [a]
  {
    assert [a, c][1..] == [c];
    ViewsPartition([a, c]);
  }

  /** Under "all", a list of active tasks is shown whole, and the counter counts every task. */
  lemma AllActiveView(ts: seq<Task>)
    requires forall t :: t in ts ==> !t.completed
    ensures Render(ts, AllFilter).visible == ts
    ensures Render(ts, AllFilter).counter == |ts|
    ensures ts != [] ==> !Render(ts, AllFilter).emptyShown
  {
    ViewsPartition(ts);
  }

  /**
   The first part of a session: from an empty list, submit `first` and then `second`.
   Returns the store and the display after each add: after the first one task shows
   and the counter is 1; after the second both show, newest first, and the counter is 2.
   */
  method AddTwo(first: string, second: string)
    returns (store: TaskStore, afterFirst: Display, afterSecond: Display)
    requires first != [] && !IsWhiteSpace(first[0]) && !IsWhiteSpace(first[|first| - 1])
    requires second != [] && !IsWhiteSpace(second[0]) && !IsWhiteSpace(second[|second| - 1])
    ensures fresh(store)
    ensures store.tasks == [Task(2, second, false, 20), Task(1, first, false, 10)]
    ensures store.filter == AllFilter
    ensures afterFirst.visible == [Task(1, first, false, 10)]
    ensures afterFirst.counter == 1 && !afterFirst.emptyShown
    ensures afterSecond.visible == [Task(2, second, false, 20), Task(1, first, false, 10)]
    ensures afterSecond.counter == 2 && !afterSecond.emptyShown
  {
    store := new TaskStore();
    TrimmedUnchanged(first);
    TrimmedUnchanged(second);
    var older := Task(1, first, false, 10);
    var newer := Task(2, second, false, 20);
    var field := store.Submit(first, 1, 10);
    assert store.tasks == [older];
    AllActiveView(store.tasks);
    afterFirst := Render(store.tasks, store.filter);
    field := store.Submit(second, 2, 20);
    assert store.tasks == [newer, older];
    AllActiveView(store.tasks);
    afterSecond := Render(store.tasks, store.filter);
  }

  /**
   A session from an empty list: add two tasks, complete the older one, switch to the
   "completed" view and then to the "active" view, clear the completed tasks and
   return to "all". Returns the display at each of those checkpoints: after the first
   add the counter is 1 and no empty state shows; after the second both tasks show,
   newest first, and the counter is 2; after the toggle the counter says one task is
   left and "clear completed" is enabled; the "completed" view shows only the
   completed task and no empty state; the "active" view shows only the other one; and
   at the end one active task remains with nothing left to clear.
   */
  method Session(first: string, second: string)
    returns (afterFirst: Display, afterSecond: Display, afterToggle: Display,
             completedView: Display, activeView: Display, d: Display)
    requires first != [] && !IsWhiteSpace(first[0]) && !IsWhiteSpace(first[|first| - 1])
    requires second != [] && !IsWhiteSpace(second[0]) && !IsWhiteSpace(second[|second| - 1])
    ensures afterFirst.visible == [Task(1, first, false, 10)]
    ensures afterFirst.counter == 1 && !afterFirst.emptyShown
    ensures afterSecond.visible == [Task(2, second, false, 20), Task(1, first, false, 10)]
    ensures afterSecond.counter == 2 && !afterSecond.emptyShown
    ensures afterToggle.counter == 1 && !afterToggle.clearDisabled
    ensures completedView.visible == [Task(1, first, true, 10)] && !completedView.emptyShown
    ensures activeView.visible == [Task(2, second, false, 20)]
    ensures d.visible == [Task(2, second, false, 20)]
    ensures d.counter == 1 && d.clearDisabled && !d.emptyShown
  {
    var store;
    store, afterFirst, afterSecond := AddTwo(first, second);
    var older := Task(1, first, false, 10);
    var newer := Task(2, second, false, 20);

    store.Toggle(1);
    ToggleFirstAt([newer, older], 1, 1);
    var done := older.(completed := true);
    assert store.tasks == [newer, done];
    MixedPairViews(newer, done);
    afterToggle := Render(store.tasks, store.filter);

    store.SetFilter(CompletedFilter);
    completedView := Render(store.tasks, store.filter);
    store.SetFilter(ActiveFilter);
    activeView := Render(store.tasks, store.filter);

    assert WithoutCompleted([newer, done]) == [newer];
    var cleared := store.ClearCompleted();
    assert store.tasks == [newer];
    store.SetFilter(AllFilter);
    AllActiveView(store.tasks);
    d := Render(store.tasks, store.filter);
  }
}

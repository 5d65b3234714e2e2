/**
 What the widget shows for a list of tasks under the current filter: which tasks are
 visible, the active-task counter, whether "clear completed" is disabled, and the
 empty-state panel with its filter-specific message.
 */
module View {
  import opened SeqFilter
  import opened Tasks

  /** The filter names carried by the filter buttons. */
  const AllFilter: string := "all"
  const ActiveFilter: string := "active"
  const CompletedFilter: string := "completed"

  predicate IsKnownFilter(filter: string) {
    filter == AllFilter || filter == ActiveFilter || filter == CompletedFilter
  }

  /**
   Whether `t` is shown under `filter`. A filter name outside the three known ones
   matches no case of the switch, so the task stays hidden.
   */
  function Visible(t: Task, filter: string): (shown: bool)
    ensures shown ==> IsKnownFilter(filter)
    ensures filter == AllFilter ==> shown
    ensures filter == ActiveFilter ==> (shown <==> IsActive(t))
    ensures filter == CompletedFilter ==> (shown <==> IsCompleted(t))
  {
    if filter == AllFilter then true
    else if filter == ActiveFilter then !t.completed
    else if filter == CompletedFilter then t.completed
    else false
  }

  /** The tasks shown under `filter`, in store order. */
  function VisibleTasks(ts: seq<Task>, filter: string): (r: seq<Task>)
    ensures forall t :: t in r <==> t in ts && Visible(t, filter)
  {
    Filter(ts, t => Visible(t, filter))
  }

  /** The empty-state panel shows exactly when no task is visible. */
  predicate EmptyStateShown(ts: seq<Task>, filter: string)
    ensures EmptyStateShown(ts, filter) <==> forall t :: t in ts ==> !Visible(t, filter)
  {
    FilterEmpty(ts, t => Visible(t, filter));
    VisibleTasks(ts, filter) == []
  }

  /** The heading and the sentence of the empty-state panel. */
  datatype Message = Message(title: string, text: string)

  /**
   The empty-state message: one fixed pair for "active", one for "completed", and the
   default pair for every other filter name. The title tells the three cases apart.
   */
  function EmptyMessage(filter: string): (m: Message)
    ensures m.title == "No active tasks!" <==> filter == ActiveFilter
    ensures m.title == "No completed tasks!" <==> filter == CompletedFilter
    ensures m.title == "All caught up!" <==> filter != ActiveFilter && filter != CompletedFilter
  {
    assert "All caught up!"[0] != "No active tasks!"[0];
    assert "All caught up!"[0] != "No completed tasks!"[0];
    assert "No active tasks!"[3] != "No completed tasks!"[3];
    if filter == ActiveFilter then
      Message("No active tasks!", "All your tasks are completed. Great job!")
    else if filter == CompletedFilter then
      Message("No completed tasks!", "Complete some tasks to see them here.")
    else
      Message("All caught up!", "You have no tasks remaining. Great job!")
  }

  /** Everything on screen that is derived from the tasks and the filter. */
  datatype Display = Display(
    visible: seq<Task>,
    counter: nat,
    clearDisabled: bool,
    emptyShown: bool,
    empty: Message)

  /**
   The display after a reconciliation pass. The counter counts the active tasks
   whatever the filter, "clear completed" is disabled exactly when no task is
   completed, and the empty state shows exactly when no task passes the filter.
   */
  function Render(ts: seq<Task>, filter: string): (d: Display)
    ensures forall t :: t in d.visible <==> t in ts && Visible(t, filter)
    ensures d.counter + CompletedCount(ts) == |ts|
    ensures d.clearDisabled <==> forall t :: t in ts ==> !t.completed
    ensures d.emptyShown <==> forall t :: t in ts ==> !Visible(t, filter)
    ensures d.empty == EmptyMessage(filter)
  {
    CountsAddUp(ts);
    var visible := VisibleTasks(ts, filter);
    assert visible != [] ==> visible[0] in visible;
    Display(visible, ActiveCount(ts), ClearDisabled(ts), EmptyStateShown(ts, filter), EmptyMessage(filter))
  }

  /**
   The "active" and "completed" views split the tasks between them, the "all" view is
   the whole list, and the sizes of the first two views are the two counts.
   */
  lemma ViewsPartition(ts: seq<Task>)
    ensures VisibleTasks(ts, AllFilter) == ts
    ensures |VisibleTasks(ts, ActiveFilter)| == ActiveCount(ts)
    ensures |VisibleTasks(ts, CompletedFilter)| == CompletedCount(ts)
    ensures |VisibleTasks(ts, ActiveFilter)| + |VisibleTasks(ts, CompletedFilter)| == |ts|
    ensures forall t :: t in ts ==> (t in VisibleTasks(ts, ActiveFilter) <==> t !in VisibleTasks(ts, CompletedFilter))
    ensures VisibleTasks(ts, ActiveFilter) == WithoutCompleted(ts)
    ensures VisibleTasks(ts, CompletedFilter) == Filter(ts, IsCompleted)
  {
    FilterAllPass(ts, t => Visible(t, AllFilter));
    FilterCongruent(ts, t => Visible(t, ActiveFilter), IsActive);
    FilterCongruent(ts, t => Visible(t, CompletedFilter), IsCompleted);
    CountsAddUp(ts);
  }

  /** The empty state under each known filter: no tasks at all, no active task, no completed task. */
  lemma EmptyStateByFilter(ts: seq<Task>)
    ensures EmptyStateShown(ts, AllFilter) <==> ts == []
    ensures EmptyStateShown(ts, ActiveFilter) <==> ActiveCount(ts) == 0
    ensures EmptyStateShown(ts, CompletedFilter) <==> CompletedCount(ts) == 0
  {
    ViewsPartition(ts);
  }

  /** Under a filter name the switch does not know, nothing is visible and the default message shows. */
  lemma UnknownFilter(ts: seq<Task>, filter: string)
    requires !IsKnownFilter(filter)
    ensures VisibleTasks(ts, filter) == []
    ensures EmptyStateShown(ts, filter)
    ensures EmptyMessage(filter) == EmptyMessage(AllFilter)
  {
    FilterEmpty(ts, t => Visible(t, filter));
  }
}

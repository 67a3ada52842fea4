/**
 * The controller logic of ui/main_window.py, without the widgets: the
 * timer text, the split of a project's tasks into "my" and "other" tasks
 * and the task combo's item list, the start-button rule, and the
 * tracking toggle with logout and close. A combo box's `currentData()` is
 * passed in as a parameter; Qt signal wiring is not modelled.
 */
module MainWindow {
  import opened Wrappers
  import Numerals
  import opened TrackingSession
  import Worker

  // ---------------------------------------------------------------- timer text

  /**
   * The fields of `update_timer_display`. Python's `//` and `%` floor;
   * with the positive divisors used here they agree with Dafny's.
   */
  function HoursMinutesSeconds(seconds: int): (hms: (int, int, int))
    ensures 0 <= hms.1 < 60 && 0 <= hms.2 < 60
    ensures hms.0 * 3600 + hms.1 * 60 + hms.2 == seconds
    ensures seconds >= 0 ==> hms.0 >= 0
  {
    (seconds / 3600, (seconds % 3600) / 60, seconds % 60)
  }

  /** `f"{h:02d}:{m:02d}:{s:02d}"`. */
  function TimerText(seconds: nat): string
  {
    var (h, m, s) := HoursMinutesSeconds(seconds);
    Numerals.Pad2(h) + ":" + Numerals.Pad2(m) + ":" + Numerals.Pad2(s)
  }

  /** Reads a timer text back: hours are everything before the last six characters. */
  function ParseTimer(text: string): int
    requires |text| >= 8
  {
    var n := |text|;
    Numerals.Value(text[..n - 6], 10) * 3600
      + Numerals.Value(text[n - 5..n - 3], 10) * 60
      + Numerals.Value(text[n - 2..], 10)
  }

  /** Where the three fields sit in "H..:MM:SS" when minutes and seconds have two characters. */
  lemma TimerLayout(hs: string, ms: string, ss: string)
    requires |ms| == 2 && |ss| == 2
    ensures var t := hs + ":" + ms + ":" + ss;
      && |t| == |hs| + 6 && t[|t| - 3] == ':' && t[|t| - 6] == ':'
      && t[..|t| - 6] == hs && t[|t| - 5..|t| - 3] == ms && t[|t| - 2..] == ss
  {
  }

  /**
   * The display is "HH:MM:SS" with minutes and seconds exactly two digits
   * and hours at least two, and it denotes exactly the elapsed seconds.
   */
  lemma TimerTextRoundTrip(seconds: nat)
    ensures var text := TimerText(seconds);
      && |text| >= 8 && text[|text| - 3] == ':' && text[|text| - 6] == ':'
      && (seconds < 360000 ==> |text| == 8)
      && ParseTimer(text) == seconds
  {
    var (h, m, s) := HoursMinutesSeconds(seconds);
    var hs, ms, ss := Numerals.Pad2(h), Numerals.Pad2(m), Numerals.Pad2(s);
    TimerLayout(hs, ms, ss);
    var text := hs + ":" + ms + ":" + ss;
    assert text == TimerText(seconds);
    assert ParseTimer(text)
      == Numerals.Value(hs, 10) * 3600 + Numerals.Value(ms, 10) * 60 + Numerals.Value(ss, 10);
    assert seconds < 360000 ==> h < 100;
  }

  /** What `toggle_tracking` resets the display to. */
  lemma TimerTextOfZero()
    ensures TimerText(0) == "00:00:00"
  {
    assert Numerals.Digits(0, 10) == "0";
  }

  // ---------------------------------------------------------------- task lists

  /** A task as `get_tasks_for_project` lists it; a missing `employees` key is the empty list. */
  datatype TaskSummary = TaskSummary(id: string, name: string, employees: seq<string>)

  /** `my_user_id in task_summary.get('employees', [])`; a user without an id is in no list. */
  predicate AssignedTo(user: Option<string>, task: TaskSummary)
  {
    user.Some? && user.value in task.employees
  }

  /** The tasks assigned to `user`, in the order listed. */
  function Mine(tasks: seq<TaskSummary>, user: Option<string>): seq<TaskSummary>
  {
    if tasks == [] then []
    else Mine(tasks[..|tasks| - 1], user)
         + (if AssignedTo(user, tasks[|tasks| - 1]) then [tasks[|tasks| - 1]] else [])
  }

  /** The other tasks, in the order listed. */
  function Others(tasks: seq<TaskSummary>, user: Option<string>): seq<TaskSummary>
  {
    if tasks == [] then []
    else Others(tasks[..|tasks| - 1], user)
         + (if AssignedTo(user, tasks[|tasks| - 1]) then [] else [tasks[|tasks| - 1]])
  }

  function IdsOf(tasks: seq<TaskSummary>): set<string>
  {
    set t | t in tasks :: t.id
  }

  /** Every task lands in exactly one list: the two lists together hold each listed task exactly as often. */
  lemma {:induction false} PartitionIsExact(tasks: seq<TaskSummary>, user: Option<string>)
    ensures multiset(Mine(tasks, user)) + multiset(Others(tasks, user)) == multiset(tasks)
    decreases |tasks|
  {
    if tasks != [] {
      var front, last := tasks[..|tasks| - 1], tasks[|tasks| - 1];
      PartitionIsExact(front, user);
      assert tasks == front + [last];
      assert multiset(tasks) == multiset(front) + multiset{last};
      if AssignedTo(user, last) {
        assert Mine(tasks, user) == Mine(front, user) + [last];
        assert Others(tasks, user) == Others(front, user);
      } else {
        assert Mine(tasks, user) == Mine(front, user);
        assert Others(tasks, user) == Others(front, user) + [last];
      }
    }
  }

  /** A task is among "my" tasks exactly when it is listed and the user is among its employees. */
  lemma {:induction false} MineAreAssigned(tasks: seq<TaskSummary>, user: Option<string>)
    ensures forall t :: t in Mine(tasks, user) <==> t in tasks && AssignedTo(user, t)
    decreases |tasks|
  {
    if tasks != [] {
      var front, last := tasks[..|tasks| - 1], tasks[|tasks| - 1];
      MineAreAssigned(front, user);
      assert tasks == front + [last];
    }
  }

  /** A task is among the "other" tasks exactly when it is listed and the user is not among its employees. */
  lemma {:induction false} OthersAreUnassigned(tasks: seq<TaskSummary>, user: Option<string>)
    ensures forall t :: t in Others(tasks, user) <==> t in tasks && !AssignedTo(user, t)
    decreases |tasks|
  {
    if tasks != [] {
      var front, last := tasks[..|tasks| - 1], tasks[|tasks| - 1];
      OthersAreUnassigned(front, user);
      assert tasks == front + [last];
    }
  }

  /** Splitting preserves the listed order: the split of a concatenation is the concatenation of the splits. */
  lemma {:induction false} MineKeepsOrder(a: seq<TaskSummary>, b: seq<TaskSummary>, user: Option<string>)
    ensures Mine(a + b, user) == Mine(a, user) + Mine(b, user)
    decreases |b|
  {
    if b == [] {
      assert a + b == a;
    } else {
      var front, last := b[..|b| - 1], b[|b| - 1];
      var tail := if AssignedTo(user, last) then [last] else [];
      MineKeepsOrder(a, front, user);
      assert (a + b)[..|a + b| - 1] == a + front;
      assert Mine(a + b, user) == Mine(a + front, user) + tail;
      assert Mine(b, user) == Mine(front, user) + tail;
    }
  }

  lemma {:induction false} OthersKeepOrder(a: seq<TaskSummary>, b: seq<TaskSummary>, user: Option<string>)
    ensures Others(a + b, user) == Others(a, user) + Others(b, user)
    decreases |b|
  {
    if b == [] {
      assert a + b == a;
    } else {
      var front, last := b[..|b| - 1], b[|b| - 1];
      var tail := if AssignedTo(user, last) then [] else [last];
      OthersKeepOrder(a, front, user);
      assert (a + b)[..|a + b| - 1] == a + front;
      assert Others(a + b, user) == Others(a + front, user) + tail;
      assert Others(b, user) == Others(front, user) + tail;
    }
  }

  /** The loop of `load_tasks` that fills the two lists and `my_task_ids`. */
  method PartitionTasks(tasks: seq<TaskSummary>, user: Option<string>)
    returns (mine: seq<TaskSummary>, others: seq<TaskSummary>, ids: set<string>)
    ensures mine == Mine(tasks, user) && others == Others(tasks, user)
    ensures ids == IdsOf(mine)
  {
    mine, others, ids := [], [], {};
    for i := 0 to |tasks|
      invariant mine == Mine(tasks[..i], user) && others == Others(tasks[..i], user)
      invariant ids == IdsOf(mine)
    {
      assert tasks[..i + 1][..i] == tasks[..i];
      if AssignedTo(user, tasks[i]) {
        mine := mine + [tasks[i]];
        ids := ids + {tasks[i].id};
      } else {
        others := others + [tasks[i]];
      }
    }
    assert tasks[..|tasks|] == tasks;
  }

  /** A task id is in `my_task_ids` exactly when some listed task with that id is assigned to the user. */
  lemma MyTaskIdsAreAssigned(tasks: seq<TaskSummary>, user: Option<string>)
    ensures forall id :: id in IdsOf(Mine(tasks, user)) <==>
      exists t :: t in tasks && t.id == id && AssignedTo(user, t)
  {
    MineAreAssigned(tasks, user);
  }

  // ---------------------------------------------------------------- combo items

  /** The two disabled group headers of the task combo. */
  datatype Group = MyTasks | OtherTasks

  function HeaderText(g: Group): string
  {
    match g
    case MyTasks => "--- My Tasks ---"
    case OtherTasks => "--- Other Tasks ---"
  }

  /** An item of the task combo: a disabled header, a task entry (text and item data), or a separator. */
  datatype ComboItem = Header(group: Group) | Entry(text: string, data: string) | Separator

  /** One selectable item per task, labelled with its summary name and carrying its id. */
  function Entries(tasks: seq<TaskSummary>): seq<ComboItem>
  {
    if tasks == [] then []
    else Entries(tasks[..|tasks| - 1]) + [Entry(tasks[|tasks| - 1].name, tasks[|tasks| - 1].id)]
  }

  /** A group: its header then its entries, or nothing for no tasks. */
  function GroupItems(g: Group, tasks: seq<TaskSummary>): seq<ComboItem>
  {
    if tasks != [] then [Header(g)] + Entries(tasks) else []
  }

  /** The item list `load_tasks` puts in the task combo. */
  function TaskItems(mine: seq<TaskSummary>, others: seq<TaskSummary>): seq<ComboItem>
  {
    GroupItems(MyTasks, mine)
    + (if mine != [] && others != [] then [Separator] else [])
    + GroupItems(OtherTasks, others)
  }

  /** The selectable entries of an item list, in order. */
  function Selectable(items: seq<ComboItem>): seq<ComboItem>
  {
    if items == [] then []
    else Selectable(items[..|items| - 1]) + (if items[|items| - 1].Entry? then [items[|items| - 1]] else [])
  }

  lemma {:induction false} SelectableOfConcat(a: seq<ComboItem>, b: seq<ComboItem>)
    ensures Selectable(a + b) == Selectable(a) + Selectable(b)
    decreases |b|
  {
    if b == [] {
      assert a + b == a;
    } else {
      SelectableOfConcat(a, b[..|b| - 1]);
      assert (a + b)[..|a + b| - 1] == a + b[..|b| - 1];
    }
  }

  lemma {:induction false} EntriesAreSelectable(tasks: seq<TaskSummary>)
    ensures Selectable(Entries(tasks)) == Entries(tasks)
    decreases |tasks|
  {
    if tasks != [] {
      var front := tasks[..|tasks| - 1];
      var e := Entry(tasks[|tasks| - 1].name, tasks[|tasks| - 1].id);
      EntriesAreSelectable(front);
      assert Entries(tasks) == Entries(front) + [e];
      assert Entries(tasks)[..|Entries(tasks)| - 1] == Entries(front);
    }
  }

  /** One entry per task, in the listed order, showing its name and carrying its id. */
  lemma {:induction false} EntriesFollowTasks(tasks: seq<TaskSummary>)
    ensures |Entries(tasks)| == |tasks|
    ensures forall i :: 0 <= i < |tasks| ==> Entries(tasks)[i] == Entry(tasks[i].name, tasks[i].id)
    decreases |tasks|
  {
    if tasks != [] {
      EntriesFollowTasks(tasks[..|tasks| - 1]);
    }
  }

  /** A header or separator contributes no selectable entry. */
  lemma HeaderNotSelectable(x: ComboItem, rest: seq<ComboItem>)
    requires !x.Entry?
    ensures Selectable([x] + rest) == Selectable(rest)
  {
    SelectableOfConcat([x], rest);
    assert [x][..0] == [];
  }

  /** Only entries are selectable, so no header or separator survives `Selectable`. */
  lemma {:induction false} SelectableHoldsEntries(items: seq<ComboItem>)
    ensures forall x :: x in Selectable(items) ==> x.Entry? && x in items
    decreases |items|
  {
    if items != [] {
      SelectableHoldsEntries(items[..|items| - 1]);
    }
  }

  /**
   * The "My Tasks" header appears exactly when there are my tasks, the
   * "Other Tasks" header exactly when there are other tasks, a separator
   * exactly when there are both, and the selectable entries are my tasks
   * then the other tasks, each in listed order.
   */
  lemma TaskItemsShape(mine: seq<TaskSummary>, others: seq<TaskSummary>)
    ensures var items := TaskItems(mine, others);
      && (Header(MyTasks) in items <==> mine != [])
      && (Header(OtherTasks) in items <==> others != [])
      && (Separator in items <==> mine != [] && others != [])
      && Selectable(items) == Entries(mine) + Entries(others)
  {
    TaskItemsMembers(mine, others);
    TaskItemsEntries(mine, others);
  }

  lemma {:induction false} EntriesAreEntries(tasks: seq<TaskSummary>)
    ensures forall x :: x in Entries(tasks) ==> x.Entry?
    decreases |tasks|
  {
    if tasks != [] {
      EntriesAreEntries(tasks[..|tasks| - 1]);
    }
  }

  /** The non-entry items of a group: its header, and only when it has tasks. */
  lemma GroupMembers(g: Group, tasks: seq<TaskSummary>)
    ensures forall x :: x in GroupItems(g, tasks) && !x.Entry? ==> x == Header(g) && tasks != []
  {
    EntriesAreEntries(tasks);
  }

  lemma TaskItemsMembers(mine: seq<TaskSummary>, others: seq<TaskSummary>)
    ensures var items := TaskItems(mine, others);
      && (Header(MyTasks) in items <==> mine != [])
      && (Header(OtherTasks) in items <==> others != [])
      && (Separator in items <==> mine != [] && others != [])
  {
    GroupMembers(MyTasks, mine);
    GroupMembers(OtherTasks, others);
    var a := GroupItems(MyTasks, mine);
    var b := if mine != [] && others != [] then [Separator] else [];
    var c := GroupItems(OtherTasks, others);
    assert TaskItems(mine, others) == a + b + c;
    assert mine != [] ==> a[0] == Header(MyTasks);
    assert others != [] ==> c[0] == Header(OtherTasks);
  }

  lemma GroupEntries(g: Group, tasks: seq<TaskSummary>)
    ensures Selectable(GroupItems(g, tasks)) == Entries(tasks)
  {
    EntriesAreSelectable(tasks);
    if tasks != [] {
      HeaderNotSelectable(Header(g), Entries(tasks));
    }
  }

  lemma TaskItemsEntries(mine: seq<TaskSummary>, others: seq<TaskSummary>)
    ensures Selectable(TaskItems(mine, others)) == Entries(mine) + Entries(others)
  {
    var a := GroupItems(MyTasks, mine);
    var b := if mine != [] && others != [] then [Separator] else [];
    var c := GroupItems(OtherTasks, others);
    GroupEntries(MyTasks, mine);
    GroupEntries(OtherTasks, others);
    assert Selectable(b) == [] by {
      if b != [] {
        assert b[..0] == [];
      }
    }
    calc {
      Selectable(TaskItems(mine, others));
      Selectable((a + b) + c);
      { SelectableOfConcat(a + b, c); }
      Selectable(a + b) + Selectable(c);
      { SelectableOfConcat(a, b); }
      Selectable(a) + Selectable(b) + Selectable(c);
      Entries(mine) + [] + Entries(others);
      { assert Entries(mine) + [] == Entries(mine); }
      Entries(mine) + Entries(others);
    }
  }

  /** One `addItem(name, userData=id)` per task, in order. */
  method AppendEntries(items: seq<ComboItem>, tasks: seq<TaskSummary>) returns (r: seq<ComboItem>)
    ensures r == items + Entries(tasks)
  {
    r := items;
    for i := 0 to |tasks|
      invariant r == items + Entries(tasks[..i])
    {
      assert tasks[..i + 1][..i] == tasks[..i];
      r := r + [Entry(tasks[i].name, tasks[i].id)];
    }
    assert tasks[..|tasks|] == tasks;
  }

  /** The item-building part of `load_tasks`: header, entries, separator, header, entries. */
  method BuildTaskItems(mine: seq<TaskSummary>, others: seq<TaskSummary>) returns (items: seq<ComboItem>)
    ensures items == TaskItems(mine, others)
  {
    items := [];
    if mine != [] {
      items := AppendEntries(items + [Header(MyTasks)], mine);
    }
    assert items == GroupItems(MyTasks, mine);
    if mine != [] && others != [] {
      items := items + [Separator];
    }
    ghost var before := items;
    if others != [] {
      items := AppendEntries(items + [Header(OtherTasks)], others);
      assert items == before + GroupItems(OtherTasks, others);
    }
  }

  // ---------------------------------------------------------------- start button

  /** `update_start_button_state`: a truthy selected id that is one of my tasks. */
  predicate StartEnabled(selected: Option<string>, myTaskIds: set<string>)
  {
    selected.Some? && selected.value != "" && selected.value in myTaskIds
  }

  /** After `load_tasks`, Start is enabled exactly for a selected task assigned to the user. */
  lemma StartEnabledOnlyForMyTask(tasks: seq<TaskSummary>, user: Option<string>, selected: Option<string>)
    ensures StartEnabled(selected, IdsOf(Mine(tasks, user))) <==>
      selected.Some? && selected.value != "" &&
      exists t :: t in tasks && t.id == selected.value && AssignedTo(user, t)
  {
    MyTaskIdsAreAssigned(tasks, user);
  }

  // ---------------------------------------------------------------- the window

  class MainWindow {
    /** `user_data.get('id')`. */
    const userId: Option<string>
    var myTaskIds: set<string>
    var taskItems: seq<ComboItem>
    var taskPlaceholder: string
    var startEnabled: bool
    var isTracking: bool
    var worker: Worker.TrackingWorker?
    var projectComboEnabled: bool
    var taskComboEnabled: bool
    var timerText: string
    var buttonText: string
    var closed: bool

    /** While tracking there is a worker; any worker keeps its own invariant. */
    ghost predicate Valid()
      reads this, worker
    {
      && (isTracking ==> worker != null)
      && (worker != null ==> worker.Valid())
    }

    /** `__init__` and the initial widget states of `setup_ui`. */
    constructor (userId: Option<string>)
      ensures Valid() && this.userId == userId
      ensures !isTracking && worker == null && myTaskIds == {} && taskItems == []
      ensures !startEnabled && !taskComboEnabled && projectComboEnabled && !closed
      ensures timerText == "00:00:00" && buttonText == "Start Tracking"
    {
      this.userId := userId;
      myTaskIds := {};
      taskItems := [];
      taskPlaceholder := "Select a project first";
      startEnabled := false;
      isTracking := false;
      worker := null;
      projectComboEnabled := true;
      taskComboEnabled := false;
      timerText := "00:00:00";
      buttonText := "Start Tracking";
      closed := false;
    }

    /** `update_start_button_state`, with the task combo's current data as `selected`. */
    method UpdateStartButtonState(selected: Option<string>)
      modifies this`startEnabled
      ensures startEnabled == StartEnabled(selected, myTaskIds)
    {
      startEnabled := StartEnabled(selected, myTaskIds);
    }

    /**
     * `load_tasks`: `tasks` is what the API returned (None on failure).
     * The previous ids and items are cleared first; an empty or missing
     * list leaves them empty and shows "No tasks found".
     */
    method LoadTasks(tasks: Option<seq<TaskSummary>>, selected: Option<string>)
      modifies this`taskItems, this`myTaskIds, this`taskPlaceholder, this`startEnabled
      ensures tasks.Some? && tasks.value != [] ==>
        && myTaskIds == IdsOf(Mine(tasks.value, userId))
        && taskItems == TaskItems(Mine(tasks.value, userId), Others(tasks.value, userId))
        && taskPlaceholder == old(taskPlaceholder)
      ensures !(tasks.Some? && tasks.value != []) ==>
        myTaskIds == {} && taskItems == [] && taskPlaceholder == "No tasks found"
      ensures startEnabled == StartEnabled(selected, myTaskIds)
    {
      taskItems := [];
      myTaskIds := {};
      if tasks.Some? && tasks.value != [] {
        var mine, others, ids := PartitionTasks(tasks.value, userId);
        myTaskIds := ids;
        taskItems := BuildTaskItems(mine, others);
      } else {
        taskPlaceholder := "No tasks found";
      }
      UpdateStartButtonState(selected);
    }

    /** `update_timer_display`, the slot of the worker's `time_updated`. */
    method UpdateTimerDisplay(seconds: nat)
      modifies this`timerText
      ensures timerText == TimerText(seconds)
    {
      var (h, m, s) := HoursMinutesSeconds(seconds);
      timerText := Numerals.Pad2(h) + ":" + Numerals.Pad2(m) + ":" + Numerals.Pad2(s);
    }

    /**
     * `toggle_tracking`. Stopping stops the worker (clock reading `at`),
     * re-enables both selectors and resets the display; starting locks
     * the selectors and runs a new worker for the current project and
     * task, whose first chunk starts at `at.clock`.
     */
    method ToggleTracking(project: SelectionId, task: SelectionId, at: Sample)
      requires Valid()
      requires isTracking ==> ClockAllows(worker.State(), at.clock)
      modifies this`isTracking, this`buttonText, this`projectComboEnabled, this`taskComboEnabled
      modifies this`timerText, this`worker, worker
      ensures Valid() && isTracking == !old(isTracking)
      ensures old(isTracking) ==>
        && worker == old(worker) && worker.State() == StopStep(old(worker.State()), at)
        && projectComboEnabled && taskComboEnabled
        && timerText == TimerText(0) && buttonText == "Start Tracking"
      ensures !old(isTracking) ==>
        && fresh(worker) && worker.State() == RunStep(New(project, task), at.clock)
        && !projectComboEnabled && !taskComboEnabled && buttonText == "Stop Tracking"
        && timerText == old(timerText)
      ensures !old(isTracking) && old(worker) != null ==> old(worker).State() == old(worker.State())
    {
      if isTracking {
        if worker != null {
          worker.Stop(at);
        }
        isTracking := false;
        buttonText := "Start Tracking";
        projectComboEnabled := true;
        taskComboEnabled := true;
        UpdateTimerDisplay(0);
      } else {
        isTracking := true;
        buttonText := "Stop Tracking";
        projectComboEnabled := false;
        taskComboEnabled := false;
        var w := new Worker.TrackingWorker(project, task);
        w.Start(at.clock);
        worker := w;
      }
    }

    /** `closeEvent`: stop the worker if tracking (the flag is not cleared), then accept. */
    method CloseEvent(at: Sample)
      requires Valid()
      requires isTracking ==> ClockAllows(worker.State(), at.clock)
      modifies this`closed, worker
      ensures Valid() && closed
      ensures old(isTracking) ==> worker.State() == StopStep(old(worker.State()), at)
      ensures !old(isTracking) && worker != null ==> worker.State() == old(worker.State())
    {
      if isTracking && worker != null {
        worker.Stop(at);
      }
      closed := true;
    }

    /**
     * `handle_logout`: stop the worker if tracking, then close. The flag
     * stays set, so `closeEvent` stops the same worker a second time
     * (reading `second`), and a mid-chunk session emits a second final
     * window over the same chunk.
     */
    method HandleLogout(first: Sample, second: Sample)
      requires Valid()
      requires isTracking ==> ClockAllows(worker.State(), first.clock) && first.clock <= second.clock
      modifies this`closed, worker
      ensures Valid() && closed && isTracking == old(isTracking)
      ensures old(isTracking) ==>
        worker.State() == StopStep(StopStep(old(worker.State()), first), second)
      ensures !old(isTracking) && worker != null ==> worker.State() == old(worker.State())
    {
      if isTracking {
        worker.Stop(first);
      }
      CloseEvent(second);
    }
  }
}

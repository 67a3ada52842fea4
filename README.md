# T3 Tracker desktop client — a Dafny model of its tracking core

This project models the time-tracking core of the T3 Tracker desktop
client (a PySide6 application) and proves properties of that model.

- **`TrackingWorker`** (workers/tracking_worker.py) counts tracked seconds.
  It reports each second on `time_updated`. Every 60 seconds it packages
  the current chunk into a time window and emits it on
  `window_ready_to_send`. On `stop` it emits the partial chunk, if there
  is one.
- **The main window** (ui/main_window.py):
  - the `HH:MM:SS` timer;
  - the split of a project's tasks into "my" and "other" tasks;
  - the task combo's item list;
  - the Start button's enabled state;
  - `toggle_tracking`, `handle_logout` and `closeEvent`.
- **The token store** (services/config_manager.py): the `Auth/token` entry
  of an INI configuration.
- **Host identity** (services/system_info.py): `get_domain`,
  `get_system_info` and `get_timezone_offset`.

## Files

- `tracking_session.dfy`: the worker's state machine as pure step
  functions (`RunStep`, `TickStep`, `StopStep`, `Package`).
  - `Counted` and `Ordered` are the invariants the steps keep.
  - `Replay` runs any interleaving of ticks and stops, with lemmas about it.
  - `IdealRun` is an idealised clock under which the windows can be added
    up.
- `tracking_worker.dfy`: the class `TrackingWorker`. Its fields are
  updated in place. `Start`, `Tick` and `Stop` are each proved to move
  `State()` by the matching step function and to keep `Valid()`.
  `PackageAndSend`, the helper `Tick` and `Stop` share, appends one
  window and needs no invariant.
- `main_window.dfy`:
  - the timer text and its parser;
  - the task partition, as a loop method and as reference functions;
  - the combo item list;
  - the Start-button predicate;
  - the class `MainWindow`.
- `config_manager.dfy`: configparser's basic `%` interpolation, the
  token functions and the class `ConfigManager`.
- `system_info.dfy`: `Split`/`Join`, the fqdn domain rule, the
  system-info dictionary and the timezone offset.
- `numerals.dfy`: digit strings for Python's `hex()` and `{:02d}`, with
  their values. A canonical digit string is the one `Digits` gives.
- `strings.dfy`: `IndexOf`, the first occurrence of a character.
- `wrappers.dfy`: `Option`.

Nothing is read from the platform. The wall clock, `time.timezone` and
the host facts are the parameters of a `Sample`, taken at each packaging
instant. Clock readings are integers in milliseconds, and
non-decreasing readings are a precondition (`ClockAllows`).

Some things a reader might expect of the code do not hold. The model
follows the code:

- `stop` is documented as "Stops the tracking thread", with the comment
  "Send any remaining time before stopping"
  (workers/tracking_worker.py:41-43). One might expect a second call to
  do nothing. It does not: a second `stop` mid-chunk emits a second
  final window over the same chunk.
  - `TrackingSession.StopTwiceReportsChunkTwice` and
    `TrackingSession.IdealDoubleStopOvercounts` state this.
  - `MainWindow.MainWindow.HandleLogout` shows that the window itself
    makes a second call. `handle_logout` stops the worker, and the
    `close()` that follows runs `closeEvent`, which stops it again
    because `is_tracking` is still set.
  - In the application as main.py:34-41 wires it, the slot connected to
    `logout_requested` already closes the window inside `emit()`, and
    the later `self.close()` may deliver another close event. So the
    worker is stopped at least twice. `HandleLogout` models the window on
    its own.
  - On this path the duplicate window is emitted but never reaches the
    server. `handle_logout` clears the API token (services/api_client.py:47-49)
    before the window is closed, and `send_time_window` returns early
    without a token (services/api_client.py:107-110). Only the first
    final window is emitted while the token is still set. The API client
    is not part of this model.
- One might expect starting with a missing project or task id to be
  rejected. The code passes the combo data through unchecked, so the ids
  are `Option<string>` and any value is accepted.
- The comment at services/system_info.py:34 says the offset is meant to
  be positive for zones west of UTC. `time.timezone` counts seconds west
  of UTC, so it is positive there, and `-time.timezone * 1000` is
  negative. `SystemInfo.TimezoneOffset` follows the code: its contract
  states that the offset is negative exactly when `time.timezone` is
  positive, that is, for zones west of UTC.
- One might expect the window durations to add up to 1000 ms per counted
  second. They measure wall-clock time instead:
  - `TrackingSession.WallClockReported`: when no time passes between
    packaging a window and restarting the chunk, a stop mid-chunk leaves
    windows whose durations add up to the stop reading minus the reading
    `run` took. A stop at a minute boundary adds no window, and the
    durations add up to the last restart reading minus `run`'s reading.
  - Only if each tick's reading is also exactly 1000 ms after the
    previous one (the idealised clock `IdealRun`) is the total 1000 ms
    per counted second (`TrackingSession.IdealStopReportsAllTime`).
    `time.sleep(1)` plus the loop's own work gives no such clock.
  - `TrackingSession.ReplayKeepsContiguous` proves the no-gap part for
    any run without restart drift.

## Model

| member | source | states |
|---|---|---|
| SystemInfo.Split | services/system_info.py:12 | `fqdn.split('.')` gives at least one part, more than one exactly when the separator occurs, and no part contains the separator |
| SystemInfo.Join | services/system_info.py:13 | `'.'.join(...)`; `JoinSplit` proves it undoes `Split` |
| SystemInfo.JoinSplit | services/system_info.py:12-13 | `Join` undoes `Split`: joining the parts of a text on the separator gives back the text |
| SystemInfo.DomainFromFqdn | services/system_info.py:10-13 | the fqdn rule yields no domain exactly when the fqdn has no dot |
| SystemInfo.DomainIsTextAfterFirstDot | services/system_info.py:10-13 | when there is a dot, the domain is everything after the first dot, and the host label, a dot and the domain rebuild the fqdn |
| SystemInfo.TrailingDotGivesEmptyDomain | services/system_info.py:12-13 | `"host."` yields the empty domain rather than none |
| SystemInfo.DomainKeepsLaterLabels | services/system_info.py:12-13 | `"pc.corp.example"` yields `"corp.example"` (every label after the first) |
| SystemInfo.GetDomain | services/system_info.py:7-13 | on Windows the result is the USERDOMAIN variable; elsewhere it is the fqdn rule's result: none exactly when the fqdn has no dot, otherwise the text after the first dot |
| SystemInfo.GetSystemInfo | services/system_info.py:15-27 | exactly the six keys; `computer` is the node name, `user` the login, `os` the system name, `osVersion` the release; `domain` is None exactly when `get_domain` is, and otherwise its text; `hwid` is `0x` followed by canonical lower-case hex digits whose value is the node number |
| SystemInfo.TimezoneOffset | services/system_info.py:29-35 | a whole number of seconds in milliseconds, equal to minus `time.timezone` seconds: positive exactly when `time.timezone` is negative, negative exactly when it is positive |
| Numerals.Digits | services/system_info.py:26 | at least one digit, all valid in the base, no leading zero except for 0 itself |
| Numerals.ValueOfDigits | services/system_info.py:26 | the digit string denotes exactly the number (the digit-string round trip) |
| Numerals.CanonicalIsDigits | services/system_info.py:26 | a canonical digit string is exactly the digits of its value, so `hex()` and `{:02d}` output is unique |
| Numerals.ValuePositive | services/system_info.py:26 | proof support for `CanonicalIsDigits`: a digit string's value is non-negative, at least 1 without a leading 0 |
| Numerals.DigitsAppend | services/system_info.py:26 | proof support for `CanonicalIsDigits`: the digits of q·base + d are those of q followed by d |
| Numerals.DivModUnique | services/system_info.py:26 | proof support for `DigitsAppend` (Euclidean division, not itself in the source): dividing q·base + d by the base gives back q and d |
| Numerals.DigitRoundTrip | services/system_info.py:26 | proof support for `CanonicalIsDigits`: a digit character's value maps back to it, and only '0' has value zero |
| Numerals.Hex | services/system_info.py:26 | `hex(n)` is `0x` followed by canonical lower-case digits (no leading zero except for 0) whose base-16 value is `n` |
| Numerals.Pad2 | ui/main_window.py:189 | `{:02d}`: at least two decimal digits, exactly two below 100, with value `n`; a leading zero only for a single-digit `n` |
| TrackingSession.PackageContents | workers/tracking_worker.py:48-61 | a window runs from the chunk start to the reading and carries the worker's ids, the offset `-timezone*1000` and the system info of the host sampled at that instant (its six keys, `os` the system name) |
| TrackingSession.RunningHasOnlyCadenceWindows | workers/tracking_worker.py:26-38 | while running there is exactly one window per 60 counted seconds |
| TrackingSession.NewIsIdle | workers/tracking_worker.py:13-19 | a new worker is stopped at zero seconds with the given ids and has emitted nothing |
| TrackingSession.RunKeepsInv | workers/tracking_worker.py:21-24 | the prologue of `run` keeps the invariant and emits no window |
| TrackingSession.TickEffect | workers/tracking_worker.py:26-38 | a running tick adds one second, reports it, and emits a window exactly at multiples of 60; that window spans the chunk up to the reading, and the next chunk starts at the later reading; a tick after `stop` changes nothing |
| TrackingSession.TickKeepsCounted | workers/tracking_worker.py:26-38 | a tick keeps the counting invariant: updates are 1..elapsed, one cadence window per minute, and the windows carry the worker's ids |
| TrackingSession.TickKeepsOrdered | workers/tracking_worker.py:26-38 | under a non-decreasing clock, a tick keeps every window non-negative and the cadence windows in sequence |
| TrackingSession.StopEffect | workers/tracking_worker.py:40-45 | `stop` clears the flag and emits exactly one window (the open chunk) when the counter is not a multiple of 60, and none otherwise, in particular none at zero seconds |
| TrackingSession.StopKeepsCounted | workers/tracking_worker.py:40-45 | `stop` keeps the counting invariant; any extra window starts at the chunk start |
| TrackingSession.StopKeepsOrdered | workers/tracking_worker.py:40-45 | under a non-decreasing clock, `stop` keeps the windows ordered |
| TrackingSession.StopTwiceReportsChunkTwice | workers/tracking_worker.py:40-45 | two `stop` calls mid-chunk emit two windows over the same chunk, and the total duration grows by both |
| TrackingSession.ReplayKeepsCounted | workers/tracking_worker.py:26-45 | any interleaving of ticks and stops keeps the counting invariant and the ids |
| TrackingSession.ReplayKeepsInv | workers/tracking_worker.py:26-45 | any interleaving under a non-decreasing clock keeps the full invariant |
| TrackingSession.FrozenOnceStopped | workers/tracking_worker.py:28-29 | once stopped, no event changes the counter, the updates or the chunk start, and windows are only appended |
| TrackingSession.NothingTicksAfterStop | workers/tracking_worker.py:28-29 | after `stop`, ticks alone change nothing |
| TrackingSession.TicksCount | workers/tracking_worker.py:31-32 | running ticks add one second each |
| TrackingSession.TicksAfterRun | workers/tracking_worker.py:21-38 | n ticks after `run` report 1, 2, ..., n in order and emit n/60 windows with the worker's ids |
| TrackingSession.WindowCount | workers/tracking_worker.py:26-45 | in any interleaving the window count is one per minute, plus one per `stop` call when the counter ends mid-chunk |
| TrackingSession.RunningOrNoFinals | workers/tracking_worker.py:40-45 | final windows exist only mid-chunk and after `stop` |
| TrackingSession.SessionWindowCount | workers/tracking_worker.py:21-45 | from `run`, windows = elapsed/60, plus the number of stops when mid-chunk |
| TrackingSession.WindowsInOrder | workers/tracking_worker.py:35-38 | under a non-decreasing clock each cadence window ends before every later window starts |
| TrackingSession.ReplayKeepsStart | workers/tracking_worker.py:24 | the first window (or the open chunk) keeps its start through any events |
| TrackingSession.FirstWindowStartsAtRun | workers/tracking_worker.py:24 | the first window starts at the reading `run` took |
| TrackingSession.TickKeepsContiguous | workers/tracking_worker.py:35-38 | a tick without drift leaves no gap between cadence windows and the next chunk |
| TrackingSession.StopKeepsContiguous | workers/tracking_worker.py:40-45 | `stop` cannot open a gap between cadence windows |
| TrackingSession.ReplayKeepsContiguous | workers/tracking_worker.py:35-38 | without drift, each window starts where the previous cadence window ended |
| TrackingSession.IdealRunCounters | workers/tracking_worker.py:26-32 | under the idealised clock n ticks keep running and report 1..n |
| TrackingSession.TickCounts | workers/tracking_worker.py:31-32 | a running tick extends the reported 1..k by k+1 |
| TrackingSession.MinuteSlicesDuration | workers/tracking_worker.py:35-38 | q minute slices last 60000·q ms |
| TrackingSession.IdealRunWindows | workers/tracking_worker.py:35-38 | under the idealised clock the cadence windows are back-to-back 60000 ms slices from the start, and the chunk starts after the last one |
| TrackingSession.IdealTick | workers/tracking_worker.py:31-38 | one ideal tick keeps the minute-slice shape |
| TrackingSession.IdealStopReportsAllTime | workers/tracking_worker.py:21-45 | stopping after n ideal seconds: windows contiguous from the start, full minutes of 60000 ms, a partial window only mid-chunk, and total duration exactly 1000·n |
| TrackingSession.StopAfterSlices | workers/tracking_worker.py:40-45 | stopping after q minute slices and rem seconds adds the partial slice only if rem ≠ 0, for a total of 60000·q + 1000·rem |
| TrackingSession.TrackingFor130Seconds | workers/tracking_worker.py:21-45 | 130 ideal seconds give windows [0,60000], [60000,120000], [120000,130000] and updates 1..130 |
| TrackingSession.IdealDoubleStopOvercounts | workers/tracking_worker.py:40-45 | stopping twice mid-chunk reports 1000·(n mod 60) ms more than was tracked |
| TrackingSession.New | workers/tracking_worker.py:13-19 | the idle session; `NewIsIdle` states its fields |
| TrackingSession.RunStep | workers/tracking_worker.py:21-24 | `run`'s prologue; `RunKeepsInv` states what it keeps |
| TrackingSession.TickStep | workers/tracking_worker.py:26-38 | one loop pass; `TickEffect`, `TickKeepsCounted` and `TickKeepsOrdered` state it |
| TrackingSession.StopStep | workers/tracking_worker.py:40-45 | `stop`; `StopEffect`, `StopKeepsCounted` and `StopKeepsOrdered` state it |
| TrackingSession.Package | workers/tracking_worker.py:48-61 | the window dictionary; `PackageContents` states it |
| TrackingSession.TickTelescopes | workers/tracking_worker.py:26-38 | a drift-free running tick keeps the windows' total equal to the chunk start minus `run`'s reading |
| TrackingSession.TicksTelescope | workers/tracking_worker.py:26-38 | any run of drift-free ticks keeps that total |
| TrackingSession.WallClockReported | workers/tracking_worker.py:21-45 | without restart drift, a mid-chunk stop's windows add up to the stop reading minus `run`'s reading; at a minute boundary, to the last restart reading minus it |
| Worker.TrackingWorker.constructor | workers/tracking_worker.py:13-19 | a new worker is the idle session with the given ids |
| Worker.TrackingWorker.Start | workers/tracking_worker.py:21-24 | `run`'s prologue sets the flag and the chunk start, and keeps the invariant |
| Worker.TrackingWorker.PackageAndSend | workers/tracking_worker.py:48-61 | appends the packaged window of the current chunk, changing nothing else |
| Worker.TrackingWorker.Tick | workers/tracking_worker.py:26-38 | one loop pass moves the state exactly as `TickStep` and keeps the invariant |
| Worker.TrackingWorker.Stop | workers/tracking_worker.py:40-45 | moves the state exactly as `StopStep`, clears the flag and keeps the invariant |
| ConfigManager.SavedTokenIsRead | services/config_manager.py:20-25 | a text stored with its `%` doubled is accepted and reads back as the text, whether or not the section existed; a token without `%` is accepted and reads back unchanged |
| ConfigManager.ReferenceLength | services/config_manager.py:24 | a match of `%(name)s` at the start: at least five characters, the delimiters in place, no `)` in the name |
| ConfigManager.ReferenceLengthComplete | services/config_manager.py:24 | the other direction: every such match at the start is the one found |
| ConfigManager.DropEscapes | services/config_manager.py:24 | the `%%` removal of `before_set`; `EscapesDropped` states it |
| ConfigManager.DropReferences | services/config_manager.py:24 | the reference removal of `before_set`; `NoPercentNoReferences` and `ReferenceIsAccepted` state it |
| ConfigManager.AcceptedOnSet | services/config_manager.py:24 | `before_set`'s ValueError rule; `EscapesDropped` and `PercentSigns` state it |
| ConfigManager.Interpolate | services/config_manager.py:17 | `before_get`; `EscapeIsExpanded`, `UnknownReferenceRaises` and `MissingKeyRaises` state it |
| ConfigManager.WithAuth | services/config_manager.py:22-23 | the section creation that survives a refused save; `RefusedSaveKeepsToken` states it |
| ConfigManager.Lower | services/config_manager.py:17 | option names are looked up lower-cased: each letter A-Z becomes its lower-case letter, every other character is kept |
| ConfigManager.Escape | services/config_manager.py:24 | doubling every `%` leaves a text without `%` unchanged |
| ConfigManager.EscapesDropped | services/config_manager.py:24 | an escaped text has no `%` left once `%%` pairs are removed, so setting it is accepted |
| ConfigManager.NoPercentNoReferences | services/config_manager.py:24 | a text without `%` holds no reference |
| ConfigManager.EscapeStep | services/config_manager.py:17 | reading an escaped text yields its first character, then the rest |
| ConfigManager.EscapeIsExpanded | services/config_manager.py:17 | reading an escaped text gives back the text |
| ConfigManager.PercentSigns | services/config_manager.py:17-24 | `"50%"` is refused on save; `"a%%b"` is accepted and reads back as `"a%b"` |
| ConfigManager.ReferenceIsAccepted | services/config_manager.py:24 | `"%(x)s"` is one whole reference and is accepted on save |
| ConfigManager.UnknownReferenceRaises | services/config_manager.py:17 | a value starting with a reference to a key the section lacks makes reading raise |
| ConfigManager.MissingKeyRaises | services/config_manager.py:17 | reading `"%(x)s"` raises in a section without `x` |
| ConfigManager.MissingReferenceRaises | services/config_manager.py:17-24 | `"%(x)s"` saved in a fresh Auth section is accepted but reading it raises |
| ConfigManager.ReadToken | services/config_manager.py:14-18 | `get_token`: no token exactly when none is stored |
| ConfigManager.StoredToken | services/config_manager.py:16-17 | the raw stored value; `ReadToken` states how it is read |
| ConfigManager.WithToken | services/config_manager.py:20-25 | an accepted save; `SaveChangesOnlyToken` states it |
| ConfigManager.WithoutAuth | services/config_manager.py:27-31 | `clear_token`; `ClearedTokenIsGone` states it |
| ConfigManager.RefusedSaveKeepsToken | services/config_manager.py:20-24 | a refused save leaves an Auth section but the stored token is the old one |
| ConfigManager.SaveChangesOnlyToken | services/config_manager.py:20-25 | saving creates Auth if absent and changes only Auth/token |
| ConfigManager.ClearedTokenIsGone | services/config_manager.py:27-31 | after clearing, no token and no Auth section remain, and other sections are untouched |
| ConfigManager.ClearIsIdempotent | services/config_manager.py:27-31 | clearing without an Auth section changes nothing; clearing twice is clearing once |
| ConfigManager.ConfigManager.constructor | services/config_manager.py:8-12 | the configuration is what was read, and nothing has been written |
| ConfigManager.ConfigManager.GetToken | services/config_manager.py:14-18 | no token exactly when Auth lacks the key; otherwise the interpolated value, or an interpolation error |
| ConfigManager.ConfigManager.SaveToken | services/config_manager.py:20-25 | accepted exactly when interpolation allows the value; then the configuration becomes `WithToken` and the file is written once; when refused (ValueError) the Auth section created first stays, the token is not set and nothing is written |
| ConfigManager.ConfigManager.ClearToken | services/config_manager.py:27-31 | the configuration loses Auth, reading gives no token, and the file is written only if Auth existed |
| ConfigManager.ConfigManager.WriteConfig | services/config_manager.py:33-36 | the current configuration is appended to what was written |
| MainWindow.HoursMinutesSeconds | ui/main_window.py:188 | minutes and seconds are below 60, and h·3600 + m·60 + s equals the input |
| MainWindow.TimerTextRoundTrip | ui/main_window.py:187-189 | the timer text has the form HH:MM:SS (exactly 8 characters below 100 hours) and parses back to the seconds |
| MainWindow.TimerTextOfZero | ui/main_window.py:174 | zero seconds display as `00:00:00` |
| MainWindow.TimerText | ui/main_window.py:187-189 | the timer text; `TimerTextRoundTrip` states it |
| MainWindow.PartitionIsExact | ui/main_window.py:110-115 | the two lists together hold every listed task exactly as often (multiset) |
| MainWindow.MineAreAssigned | ui/main_window.py:110-113 | a task is in "my" list exactly when it is listed and the user is among its employees |
| MainWindow.OthersAreUnassigned | ui/main_window.py:114-115 | a task is in the other list exactly when it is listed and the user is not among its employees |
| MainWindow.MineKeepsOrder | ui/main_window.py:110-113 | "my" list keeps the listed order (the split distributes over concatenation) |
| MainWindow.OthersKeepOrder | ui/main_window.py:114-115 | the other list keeps the listed order |
| MainWindow.AssignedTo | ui/main_window.py:111 | the membership test; `MineAreAssigned` and `OthersAreUnassigned` state it |
| MainWindow.IdsOf | ui/main_window.py:113 | `my_task_ids`; `MyTaskIdsAreAssigned` states it |
| MainWindow.Mine | ui/main_window.py:110-113 | my tasks; `MineAreAssigned` and `MineKeepsOrder` state them |
| MainWindow.Others | ui/main_window.py:114-115 | the other tasks; `OthersAreUnassigned` and `OthersKeepOrder` state them |
| MainWindow.PartitionTasks | ui/main_window.py:105-115 | the loop yields exactly `Mine`, `Others` and the ids of `Mine` |
| MainWindow.MyTaskIdsAreAssigned | ui/main_window.py:113 | an id is in `my_task_ids` exactly when some listed task assigned to the user has it |
| MainWindow.EntriesFollowTasks | ui/main_window.py:121-139 | one entry per task, in order, with its name and id |
| MainWindow.SelectableHoldsEntries | ui/main_window.py:119-137 | only entries from the list are selectable; headers and separators never are |
| MainWindow.TaskItemsShape | ui/main_window.py:118-139 | each header appears exactly when its group is non-empty, the separator exactly when both are, and the selectable entries are my tasks then the other tasks |
| MainWindow.TaskItemsMembers | ui/main_window.py:118-137 | the header and separator membership half of `TaskItemsShape` |
| MainWindow.TaskItemsEntries | ui/main_window.py:118-139 | the selectable-entries half of `TaskItemsShape` |
| MainWindow.AppendEntries | ui/main_window.py:138-139 | the loop appends exactly one entry per task, in order |
| MainWindow.BuildTaskItems | ui/main_window.py:118-139 | the item list built step by step equals `TaskItems` |
| MainWindow.TaskItems | ui/main_window.py:118-139 | the combo item list; `TaskItemsShape` states it |
| MainWindow.StartEnabledOnlyForMyTask | ui/main_window.py:160-165 | Start is enabled exactly for a non-empty selected id of a listed task assigned to the user |
| MainWindow.StartEnabled | ui/main_window.py:160-165 | the Start-button rule; `StartEnabledOnlyForMyTask` states it |
| MainWindow.MainWindow.constructor | ui/main_window.py:9-20 | not tracking, no worker, no tasks, Start disabled, task combo disabled, timer `00:00:00` |
| MainWindow.MainWindow.UpdateStartButtonState | ui/main_window.py:160-165 | the button state is `StartEnabled` of the selection and the ids |
| MainWindow.MainWindow.LoadTasks | ui/main_window.py:101-143 | ids and items are cleared, then set from the partition when tasks were returned, with the placeholder unchanged; otherwise they stay empty with "No tasks found"; the button is recomputed |
| MainWindow.MainWindow.UpdateTimerDisplay | ui/main_window.py:187-189 | the label becomes `TimerText(seconds)` |
| MainWindow.MainWindow.ToggleTracking | ui/main_window.py:167-185 | changes only the flag, the button text, the two selectors' enabled state, the timer text and the worker; stopping steps the same worker by `StopStep`, unlocks the selectors and resets the timer; starting locks them, keeps the timer, runs a fresh worker for the current ids and leaves the previous worker as it was |
| MainWindow.MainWindow.CloseEvent | ui/main_window.py:197-199 | if tracking, the worker is stopped once; the flag is left set |
| MainWindow.MainWindow.HandleLogout | ui/main_window.py:191-195 | while tracking, the worker ends up stopped twice, once by logout and once by `closeEvent` |

## Left out

- Threads and timing. The Qt thread, `time.sleep(1)` and races between
  the thread and `stop` are not modelled. The run loop is any sequence of
  `TickStep`/`StopStep`, so a tick after `stop` is covered, but `stop`
  running in the middle of a tick is not.
- Clock values. The float wall clock becomes integer millisecond
  readings. A tick's second reading (the restart after a flush) is its
  own parameter.
- Signals. Qt signals become ghost streams (`timeUpdates`, `windows`).
  Their delivery to slots is not modelled.
- Printing. The `print` output of the worker is not modelled.
- The API client. services/api_client.py is not part of this model:
  - sending time windows;
  - the logout request;
  - task-time queries;
  - the per-task detail fetch in `load_tasks`. My-task entries use the
    summary name, which is what the code falls back to when the fetch
    fails.
- MainWindow.MainWindow.LoadTasks: does not model the detail-name fetch
  (see above) or `update_task_time_display`.
- Other main-window code: `load_projects`, `on_project_selected`,
  `on_task_selected`, `update_task_time_display` and the widget layout
  depend only on the API client and the widget toolkit.
- main.py's handling of `logout_requested` is not part of this model.
- INI files. configparser's file format, the DEFAULT section (whose keys
  interpolation can also see) and the case folding of keys are not
  modelled. Reading at start-up is the constructor argument. Writes are
  recorded as snapshots.
- ConfigManager.ConfigManager.GetToken: every interpolation error
  (bad `%` syntax, a missing key, nesting too deep) becomes the one
  `InterpolationError`; their exception types are not distinguished.
- ConfigManager.Lower: folds only the ASCII letters A-Z; Python's
  `str.lower` also folds other letters.
- Platform calls. These become `Host` fields and `Sample` parameters:
  `platform`, `os.getlogin`, `socket.getfqdn`, `uuid.getnode` and
  `time.timezone`. Every one of them is assumed to succeed. In the code
  `os.getlogin()` raises OSError when the process has no controlling
  terminal, and it is called while packaging each window. At a minute
  boundary that exception would end `run`'s loop with `_is_running`
  still set. In `stop` it would escape before `toggle_tracking` clears
  `is_tracking`. The model has no such failure, so "every 60th tick
  emits a window" holds only under this assumption.
- Task data. Task summaries are records with string ids and employees.
  JSON values of other types are not modelled.

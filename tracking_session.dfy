/**
 * The state machine of workers/tracking_worker.py as pure step functions.
 *
 * A `Session` is everything a `TrackingWorker` holds, together with the two
 * signal streams it emits: `updates` (every `time_updated` value) and
 * `windows` (every `window_ready_to_send` payload). The thread's loop is an
 * arbitrary sequence of `TickStep` (one pass of the loop body after the
 * sleep) and `StopStep` (`stop()`), see `Replay`.
 *
 * The wall clock is injected: every packaging gets a `Sample` holding the
 * clock reading in milliseconds, the platform's `time.timezone` and the host
 * facts, all read at that instant.
 */
module TrackingSession {
  import opened Wrappers
  import SystemInfo

  /** Seconds of tracked time per cadence window. */
  const FlushEvery: nat := 60

  /** Project and task ids are whatever the combo boxes hold, possibly None. */
  type SelectionId = Option<string>

  /** The platform read at one packaging instant. */
  datatype Sample = Sample(clock: int, timezone: int, host: SystemInfo.Host)

  /**
   * The payload of `window_ready_to_send`. The `system_info` entry is
   * `SystemInfo.GetSystemInfo` of the host sampled at packaging, see
   * `SystemInfoOf`.
   */
  datatype Window = Window(
    start: int,
    end: int,
    timezoneOffset: int,
    projectId: SelectionId,
    taskId: SelectionId,
    host: SystemInfo.Host)

  /** The `system_info` dictionary a window carries. */
  function SystemInfoOf(w: Window): map<string, SystemInfo.Value>
  {
    SystemInfo.GetSystemInfo(w.host)
  }

  datatype Session = Session(
    projectId: SelectionId,
    taskId: SelectionId,
    running: bool,
    elapsed: nat,
    chunkStart: int,
    updates: seq<int>,
    windows: seq<Window>)

  /** `TrackingWorker.__init__`. */
  function New(projectId: SelectionId, taskId: SelectionId): Session
  {
    Session(projectId, taskId, false, 0, 0, [], [])
  }

  /** The prologue of `run`: mark running and take the first chunk start. */
  function RunStep(s: Session, now: int): Session
  {
    s.(running := true, chunkStart := now)
  }

  /** `package_and_send_window`: the current chunk up to the clock reading. */
  function Package(s: Session, at: Sample): Window
  {
    Window(s.chunkStart, at.clock, SystemInfo.TimezoneOffset(at.timezone),
           s.projectId, s.taskId, at.host)
  }

  /**
   * A packaged window runs from the chunk start to the reading, carries the
   * session's ids, the offset `-timezone * 1000` and the six system-info
   * keys read at that instant.
   */
  lemma PackageContents(s: Session, at: Sample)
    ensures var w := Package(s, at);
      && w.start == s.chunkStart && w.end == at.clock
      && w.projectId == s.projectId && w.taskId == s.taskId
      && w.timezoneOffset == -1000 * at.timezone
      && w.host == at.host && SystemInfoOf(w) == SystemInfo.GetSystemInfo(at.host)
      && SystemInfoOf(w).Keys == SystemInfo.InfoKeys
      && SystemInfoOf(w)["os"] == SystemInfo.Text(at.host.system)
  {
    var w := Package(s, at);
    assert w.timezoneOffset / 1000 == -at.timezone;
  }

  /**
   * One pass of the `run` loop after the sleep. The re-check of the running
   * flag makes a tick after `stop` a no-op. On an exact multiple of 60 the
   * chunk is packaged with reading `at` and a new chunk starts at reading
   * `restart`.
   */
  function TickStep(s: Session, at: Sample, restart: int): Session
  {
    if !s.running then s
    else
      var e := s.elapsed + 1;
      var t := s.(elapsed := e, updates := s.updates + [e]);
      if e % FlushEvery == 0 then
        t.(windows := t.windows + [Package(t, at)], chunkStart := restart)
      else t
  }

  /** `stop`: clear the flag, then flush the partial chunk if there is one. No guard against a second call. */
  function StopStep(s: Session, at: Sample): Session
  {
    var t := s.(running := false);
    if t.elapsed % FlushEvery != 0 then t.(windows := t.windows + [Package(t, at)]) else t
  }

  /** The number of cadence windows `elapsed` seconds produce. */
  function Cadence(s: Session): nat
  {
    s.elapsed / FlushEvery
  }

  /** A clock reading `t` is no earlier than any reading the session has recorded. */
  predicate ClockAllows(s: Session, t: int)
  {
    && t >= s.chunkStart
    && (s.windows != [] ==> t >= s.windows[|s.windows| - 1].end)
  }

  /**
   * What holds of the counters and streams whatever the clock does: the
   * updates are 1, 2, ..., elapsed; the first `Cadence` windows are the
   * cadence flushes; any further window is a final flush, which happens
   * only once the session is stopped mid-chunk, and starts at the chunk
   * start; every window carries the session's ids.
   */
  ghost predicate Counted(s: Session)
  {
    && |s.updates| == s.elapsed
    && (forall i :: 0 <= i < |s.updates| ==> s.updates[i] == i + 1)
    && Cadence(s) <= |s.windows|
    && (|s.windows| > Cadence(s) ==> !s.running && s.elapsed % FlushEvery != 0)
    && (forall i :: Cadence(s) <= i < |s.windows| ==> s.windows[i].start == s.chunkStart)
    && (forall i :: 0 <= i < |s.windows| ==>
          s.windows[i].projectId == s.projectId && s.windows[i].taskId == s.taskId)
  }

  /**
   * What a non-decreasing clock adds: every window ends no earlier than it
   * starts, each cadence window starts no earlier than the previous one
   * ended, and the open chunk starts no earlier than the last cadence
   * window ended.
   */
  ghost predicate Ordered(s: Session)
  {
    && (forall i :: 0 <= i < |s.windows| ==> s.windows[i].start <= s.windows[i].end)
    && (forall i :: 0 < i < Cadence(s) && i < |s.windows| ==> s.windows[i - 1].end <= s.windows[i].start)
    && (0 < Cadence(s) <= |s.windows| ==> s.windows[Cadence(s) - 1].end <= s.chunkStart)
  }

  ghost predicate Inv(s: Session)
  {
    Counted(s) && Ordered(s)
  }

  /** While running there are exactly `Cadence` windows. */
  lemma RunningHasOnlyCadenceWindows(s: Session)
    requires Counted(s) && s.running
    ensures |s.windows| == Cadence(s)
  {
  }

  /** A fresh worker: zero seconds, not running, the given ids, no output. */
  lemma NewIsIdle(projectId: SelectionId, taskId: SelectionId)
    ensures var s := New(projectId, taskId);
      && s.elapsed == 0 && !s.running && s.updates == [] && s.windows == []
      && s.projectId == projectId && s.taskId == taskId && Inv(s)
  {
  }

  lemma RunKeepsInv(s: Session, now: int)
    requires Inv(s) && s.elapsed == 0
    ensures Inv(RunStep(s, now)) && RunStep(s, now).windows == []
  {
  }

  /**
   * One tick while running: the counter goes up by exactly one, that value
   * is appended to the updates, and a window is emitted exactly when the
   * new value is a multiple of 60; that window is the chunk up to `at`, and
   * the next chunk starts at `restart`. Stopped, a tick changes nothing.
   */
  lemma TickEffect(s: Session, at: Sample, restart: int)
    ensures !s.running ==> TickStep(s, at, restart) == s
    ensures s.running ==>
      var r := TickStep(s, at, restart);
      && r.running && r.elapsed == s.elapsed + 1
      && r.updates == s.updates + [s.elapsed + 1]
      && (r.elapsed % FlushEvery == 0 <==> |r.windows| == |s.windows| + 1)
      && (r.elapsed % FlushEvery != 0 <==> r.windows == s.windows)
      && (r.elapsed % FlushEvery == 0 ==>
            && r.windows == s.windows + [Package(s, at)]
            && r.windows[|s.windows|].start == s.chunkStart
            && r.windows[|s.windows|].end == at.clock
            && r.chunkStart == restart)
  {
  }

  lemma {:induction false} TickKeepsCounted(s: Session, at: Sample, restart: int)
    requires Counted(s)
    ensures Counted(TickStep(s, at, restart))
  {
    if s.running {
      RunningHasOnlyCadenceWindows(s);
      var r := TickStep(s, at, restart);
      assert Cadence(r) == Cadence(s) + (if r.elapsed % FlushEvery == 0 then 1 else 0);
      assert |r.windows| == Cadence(r);
    }
  }

  lemma {:induction false} TickKeepsOrdered(s: Session, at: Sample, restart: int)
    requires Counted(s) && Ordered(s)
    requires ClockAllows(s, at.clock) && at.clock <= restart
    ensures Ordered(TickStep(s, at, restart))
  {
    if s.running {
      RunningHasOnlyCadenceWindows(s);
      var r := TickStep(s, at, restart);
      var e := s.elapsed + 1;
      if e % FlushEvery == 0 {
        assert Cadence(r) == Cadence(s) + 1;
        var w := Package(s.(elapsed := e, updates := s.updates + [e]), at);
        assert r.windows == s.windows + [w] && r.chunkStart == restart;
        assert w.start == s.chunkStart <= at.clock == w.end;
        forall i | 0 <= i < |r.windows|
          ensures r.windows[i].start <= r.windows[i].end
          ensures 0 < i ==> r.windows[i - 1].end <= r.windows[i].start
        {
          if i < |s.windows| { assert r.windows[i] == s.windows[i]; }
          if 0 < i { assert r.windows[i - 1] == s.windows[i - 1]; }
        }
      } else {
        assert Cadence(r) == Cadence(s) && r.windows == s.windows;
      }
    }
  }

  /**
   * `stop` always clears the flag; it emits exactly one window, the open
   * chunk up to `at`, when the counter is not a multiple of 60, and none
   * otherwise (in particular none at zero seconds). Nothing else changes.
   */
  lemma StopEffect(s: Session, at: Sample)
    ensures var r := StopStep(s, at);
      && !r.running
      && r.elapsed == s.elapsed && r.updates == s.updates && r.chunkStart == s.chunkStart
      && (s.elapsed % FlushEvery != 0 ==> r.windows == s.windows + [Package(s, at)])
      && (s.elapsed % FlushEvery == 0 ==> r.windows == s.windows)
      && (s.elapsed == 0 ==> r.windows == s.windows)
  {
  }

  lemma StopKeepsCounted(s: Session, at: Sample)
    requires Counted(s)
    ensures Counted(StopStep(s, at))
  {
    var r := StopStep(s, at);
    if s.elapsed % FlushEvery != 0 {
      var w := Package(s.(running := false), at);
      assert r.windows == s.windows + [w];
      assert w.start == r.chunkStart && w.projectId == r.projectId && w.taskId == r.taskId;
      forall i | 0 <= i < |r.windows|
        ensures r.windows[i].projectId == r.projectId && r.windows[i].taskId == r.taskId
        ensures Cadence(r) <= i ==> r.windows[i].start == r.chunkStart
      {
        if i < |s.windows| { assert r.windows[i] == s.windows[i]; }
      }
    }
  }

  lemma StopKeepsOrdered(s: Session, at: Sample)
    requires Counted(s) && Ordered(s) && ClockAllows(s, at.clock)
    ensures Ordered(StopStep(s, at))
  {
    var r := StopStep(s, at);
    if s.elapsed % FlushEvery != 0 {
      var w := Package(s.(running := false), at);
      assert r.windows == s.windows + [w];
      assert w.start == s.chunkStart <= at.clock == w.end;
      forall i | 0 <= i < |r.windows| ensures r.windows[i].start <= r.windows[i].end {
        if i < |s.windows| { assert r.windows[i] == s.windows[i]; }
      }
    }
  }

  /**
   * `stop` is not idempotent: a second call mid-chunk emits a second final
   * window over the same chunk, so that chunk's time is reported twice.
   */
  lemma {:induction false} StopTwiceReportsChunkTwice(s: Session, first: Sample, second: Sample)
    requires s.elapsed % FlushEvery != 0
    ensures var r := StopStep(StopStep(s, first), second);
      && |r.windows| == |s.windows| + 2
      && r.windows[|s.windows|].start == s.chunkStart
      && r.windows[|s.windows| + 1].start == s.chunkStart
      && r.windows[|s.windows|].end == first.clock
      && r.windows[|s.windows| + 1].end == second.clock
      && TotalDuration(r.windows)
           == TotalDuration(s.windows) + (first.clock - s.chunkStart) + (second.clock - s.chunkStart)
  {
    var r1 := StopStep(s, first);
    var r := StopStep(r1, second);
    assert r1.windows == s.windows + [Package(s, first)];
    assert r.windows[..|r.windows| - 1] == r1.windows;
    assert r1.windows[..|r1.windows| - 1] == s.windows;
  }

  /** The summed length, in milliseconds, of a list of windows. */
  function TotalDuration(ws: seq<Window>): int
  {
    if ws == [] then 0
    else TotalDuration(ws[..|ws| - 1]) + (ws[|ws| - 1].end - ws[|ws| - 1].start)
  }

  /** Any order of ticks and stops. */
  datatype Event = TickEvent(at: Sample, restart: int) | StopEvent(at: Sample)

  function Step(s: Session, e: Event): Session
  {
    match e
    case TickEvent(at, restart) => TickStep(s, at, restart)
    case StopEvent(at) => StopStep(s, at)
  }

  /** The clock readings an event brings are no earlier than the readings before them. */
  predicate StepAllowed(s: Session, e: Event)
  {
    match e
    case TickEvent(at, restart) => ClockAllows(s, at.clock) && at.clock <= restart
    case StopEvent(at) => ClockAllows(s, at.clock)
  }

  function Replay(s: Session, evs: seq<Event>): Session
    decreases |evs|
  {
    if evs == [] then s else Replay(Step(s, evs[0]), evs[1..])
  }

  /** Every event of `evs` meets a non-decreasing clock. */
  ghost predicate Admissible(s: Session, evs: seq<Event>)
    decreases |evs|
  {
    evs == [] || (StepAllowed(s, evs[0]) && Admissible(Step(s, evs[0]), evs[1..]))
  }

  function Stops(evs: seq<Event>): nat
  {
    if evs == [] then 0 else (if evs[0].StopEvent? then 1 else 0) + Stops(evs[1..])
  }

  predicate AllTicks(evs: seq<Event>)
  {
    forall i :: 0 <= i < |evs| ==> evs[i].TickEvent?
  }

  /** The counting invariant holds whatever the clock does. */
  lemma {:induction false} ReplayKeepsCounted(s: Session, evs: seq<Event>)
    requires Counted(s)
    ensures Counted(Replay(s, evs))
    ensures Replay(s, evs).projectId == s.projectId && Replay(s, evs).taskId == s.taskId
    decreases |evs|
  {
    if evs != [] {
      match evs[0] {
        case TickEvent(at, restart) => TickKeepsCounted(s, at, restart);
        case StopEvent(at) => StopKeepsCounted(s, at);
      }
      ReplayKeepsCounted(Step(s, evs[0]), evs[1..]);
    }
  }

  /** Under a non-decreasing clock the windows stay ordered. */
  lemma {:induction false} ReplayKeepsInv(s: Session, evs: seq<Event>)
    requires Inv(s) && Admissible(s, evs)
    ensures Inv(Replay(s, evs))
    decreases |evs|
  {
    if evs != [] {
      match evs[0] {
        case TickEvent(at, restart) =>
          TickKeepsCounted(s, at, restart);
          TickKeepsOrdered(s, at, restart);
        case StopEvent(at) =>
          StopKeepsCounted(s, at);
          StopKeepsOrdered(s, at);
      }
      ReplayKeepsInv(Step(s, evs[0]), evs[1..]);
    }
  }

  /**
   * Once the flag is clear, no event increments the counter, emits an
   * update or moves the chunk start; only a further `stop` can add a
   * window, and it adds it after the existing ones.
   */
  lemma {:induction false} FrozenOnceStopped(s: Session, evs: seq<Event>)
    requires !s.running
    ensures var r := Replay(s, evs);
      && !r.running && r.elapsed == s.elapsed && r.updates == s.updates
      && r.chunkStart == s.chunkStart
      && |s.windows| <= |r.windows| && r.windows[..|s.windows|] == s.windows
    decreases |evs|
  {
    if evs != [] {
      var t := Step(s, evs[0]);
      FrozenOnceStopped(t, evs[1..]);
      assert t.windows[..|s.windows|] == s.windows;
    }
  }

  /** After `stop`, ticks alone change nothing at all. */
  lemma {:induction false} NothingTicksAfterStop(s: Session, evs: seq<Event>)
    requires !s.running && AllTicks(evs)
    ensures Replay(s, evs) == s
    decreases |evs|
  {
    if evs != [] {
      assert evs[0].TickEvent?;
      NothingTicksAfterStop(s, evs[1..]);
    }
  }

  /** Ticks alone, while running, add one second each. */
  lemma {:induction false} TicksCount(s: Session, evs: seq<Event>)
    requires s.running && AllTicks(evs)
    ensures Replay(s, evs).running && Replay(s, evs).elapsed == s.elapsed + |evs|
    decreases |evs|
  {
    if evs != [] {
      assert evs[0].TickEvent?;
      TicksCount(Step(s, evs[0]), evs[1..]);
    }
  }

  /**
   * n ticks after `run` report 1, 2, ..., n in order and emit n / 60
   * windows, each with the worker's ids.
   */
  lemma TicksAfterRun(projectId: SelectionId, taskId: SelectionId, now: int, evs: seq<Event>)
    requires AllTicks(evs)
    ensures var r := Replay(RunStep(New(projectId, taskId), now), evs);
      && r.running && r.elapsed == |evs|
      && |r.updates| == |evs| && (forall i :: 0 <= i < |evs| ==> r.updates[i] == i + 1)
      && |r.windows| == |evs| / FlushEvery
      && (forall i :: 0 <= i < |r.windows| ==>
            r.windows[i].projectId == projectId && r.windows[i].taskId == taskId)
  {
    var s := RunStep(New(projectId, taskId), now);
    TicksCount(s, evs);
    ReplayKeepsCounted(s, evs);
    RunningHasOnlyCadenceWindows(Replay(s, evs));
  }

  /**
   * The number of windows of any interleaving: one per 60 seconds, plus,
   * when the counter stops mid-chunk, one for every `stop` call.
   */
  lemma {:induction false} WindowCount(s: Session, evs: seq<Event>)
    requires Counted(s)
    ensures var r := Replay(s, evs);
      |r.windows| == Cadence(r) + (if r.elapsed % FlushEvery != 0
                                   then |s.windows| - Cadence(s) + Stops(evs) else 0)
    decreases |evs|
  {
    var r := Replay(s, evs);
    if evs == [] {
      RunningOrNoFinals(s);
    } else {
      var t := Step(s, evs[0]);
      ReplayKeepsCounted(s, [evs[0]]);
      assert Replay(s, [evs[0]]) == t;
      WindowCount(t, evs[1..]);
      if !t.running {
        FrozenOnceStopped(t, evs[1..]);
      }
      RunningOrNoFinals(s);
    }
  }

  /** Final windows exist only mid-chunk. */
  lemma RunningOrNoFinals(s: Session)
    requires Counted(s)
    ensures s.elapsed % FlushEvery == 0 || s.running ==> |s.windows| == Cadence(s)
  {
  }

  /** From `run`, whatever the order of events, windows = elapsed / 60 + (stops if mid-chunk). */
  lemma SessionWindowCount(projectId: SelectionId, taskId: SelectionId, now: int, evs: seq<Event>)
    ensures var r := Replay(RunStep(New(projectId, taskId), now), evs);
      |r.windows| == r.elapsed / FlushEvery + (if r.elapsed % FlushEvery != 0 then Stops(evs) else 0)
  {
    WindowCount(RunStep(New(projectId, taskId), now), evs);
  }

  /** Under a non-decreasing clock, each cadence window ends before every later window starts. */
  lemma {:induction false} WindowsInOrder(s: Session, i: nat, j: nat)
    requires Inv(s)
    requires i < j < |s.windows| && i < Cadence(s)
    ensures s.windows[i].end <= s.windows[j].start
    decreases j - i
  {
    if j < Cadence(s) {
      if i + 1 < j {
        WindowsInOrder(s, i + 1, j);
        assert s.windows[i].end <= s.windows[i + 1].start;
      }
    } else {
      if i + 1 < Cadence(s) {
        WindowsInOrder(s, i + 1, j);
      } else {
        assert s.windows[j].start == s.chunkStart;
      }
    }
  }

  /** The first window starts at the reading `run` took. */
  ghost predicate StartsAt(s: Session, t0: int)
  {
    if s.windows == [] then s.chunkStart == t0 else s.windows[0].start == t0
  }

  lemma {:induction false} ReplayKeepsStart(s: Session, t0: int, evs: seq<Event>)
    requires StartsAt(s, t0)
    ensures StartsAt(Replay(s, evs), t0)
    decreases |evs|
  {
    if evs != [] {
      var t := Step(s, evs[0]);
      assert |s.windows| <= |t.windows| && t.windows[..|s.windows|] == s.windows;
      if s.windows != [] {
        assert t.windows[0] == t.windows[..|s.windows|][0];
      }
      ReplayKeepsStart(t, t0, evs[1..]);
    }
  }

  lemma FirstWindowStartsAtRun(projectId: SelectionId, taskId: SelectionId, now: int, evs: seq<Event>)
    ensures var r := Replay(RunStep(New(projectId, taskId), now), evs);
      r.windows != [] ==> r.windows[0].start == now
  {
    ReplayKeepsStart(RunStep(New(projectId, taskId), now), now, evs);
  }

  /** A tick whose restart reading equals the reading its window ended with. */
  predicate NoDrift(e: Event)
  {
    e.TickEvent? ==> e.restart == e.at.clock
  }

  /** Each window up to the last cadence window ends exactly where the next one starts. */
  ghost predicate Contiguous(s: Session)
  {
    && (forall i :: 0 < i < |s.windows| && i <= Cadence(s) ==> s.windows[i - 1].end == s.windows[i].start)
    && (0 < Cadence(s) <= |s.windows| ==> s.windows[Cadence(s) - 1].end == s.chunkStart)
  }

  /** A tick without drift keeps the windows back to back. */
  lemma TickKeepsContiguous(s: Session, at: Sample, restart: int)
    requires Counted(s) && Contiguous(s) && restart == at.clock
    ensures Contiguous(TickStep(s, at, restart))
  {
    var t := TickStep(s, at, restart);
    TickKeepsCounted(s, at, restart);
    if s.running {
      assert Cadence(t) == Cadence(s) + (if t.elapsed % FlushEvery == 0 then 1 else 0);
      assert t.windows[..|s.windows|] == s.windows;
    }
  }

  /** Stopping only appends a window after the cadence windows, so it cannot open a gap. */
  lemma StopKeepsContiguous(s: Session, at: Sample)
    requires Counted(s) && Contiguous(s)
    ensures Contiguous(StopStep(s, at))
  {
    var t := StopStep(s, at);
    StopKeepsCounted(s, at);
    assert Cadence(t) == Cadence(s);
    if s.elapsed % FlushEvery != 0 {
      assert t.windows[..|s.windows|] == s.windows;
    }
  }

  /**
   * When no time passes between packaging a cadence window and restarting
   * the chunk, the windows leave no gap: each starts where the previous
   * cadence window ended.
   */
  lemma {:induction false} ReplayKeepsContiguous(s: Session, evs: seq<Event>)
    requires Counted(s) && Contiguous(s)
    requires forall i :: 0 <= i < |evs| ==> NoDrift(evs[i])
    ensures Contiguous(Replay(s, evs))
    decreases |evs|
  {
    if evs != [] {
      var t := Step(s, evs[0]);
      assert NoDrift(evs[0]);
      match evs[0] {
        case TickEvent(at, restart) =>
          TickKeepsContiguous(s, at, restart);
          TickKeepsCounted(s, at, restart);
        case StopEvent(at) =>
          StopKeepsContiguous(s, at);
          StopKeepsCounted(s, at);
      }
      assert Counted(t) && Contiguous(t);
      assert forall i :: 0 <= i < |evs[1..]| ==> NoDrift(evs[1..][i]) by {
        forall i | 0 <= i < |evs[1..]| ensures NoDrift(evs[1..][i]) {
          assert evs[1..][i] == evs[i + 1];
        }
      }
      ReplayKeepsContiguous(t, evs[1..]);
    }
  }

  /** One drift-free tick: a flushed window spans exactly the time the chunk start moves on. */
  lemma TickTelescopes(s: Session, t0: int, at: Sample, restart: int)
    requires Counted(s) && s.running && TotalDuration(s.windows) == s.chunkStart - t0
    requires restart == at.clock
    ensures var t := TickStep(s, at, restart);
      Counted(t) && t.running && TotalDuration(t.windows) == t.chunkStart - t0
  {
    var t := TickStep(s, at, restart);
    TickKeepsCounted(s, at, restart);
    if (s.elapsed + 1) % FlushEvery == 0 {
      assert t.windows == s.windows + [Package(s, at)];
      assert t.windows[..|t.windows| - 1] == s.windows;
    } else {
      assert t.windows == s.windows && t.chunkStart == s.chunkStart;
    }
  }

  /**
   * Without restart drift, ticks make the windows add up to the clock time
   * from `t0` to the current chunk start, whatever the readings are.
   */
  lemma {:induction false} TicksTelescope(s: Session, t0: int, evs: seq<Event>)
    requires Counted(s) && s.running && TotalDuration(s.windows) == s.chunkStart - t0
    requires AllTicks(evs) && forall i :: 0 <= i < |evs| ==> NoDrift(evs[i])
    ensures var r := Replay(s, evs);
      Counted(r) && r.running && TotalDuration(r.windows) == r.chunkStart - t0
    decreases |evs|
  {
    if evs != [] {
      var e := evs[0];
      assert e.TickEvent? && NoDrift(e);
      var t := Step(s, e);
      TickTelescopes(s, t0, e.at, e.restart);
      assert AllTicks(evs[1..]) && forall i :: 0 <= i < |evs[1..]| ==> NoDrift(evs[1..][i]) by {
        forall i | 0 <= i < |evs[1..]| ensures evs[1..][i].TickEvent? && NoDrift(evs[1..][i]) {
          assert evs[1..][i] == evs[i + 1];
        }
      }
      TicksTelescope(t, t0, evs[1..]);
    }
  }

  /**
   * Without restart drift the windows report clock time, not counted
   * seconds: stopping mid-chunk at reading `at`, they add up to exactly
   * `at.clock - t0`; stopping on a minute boundary, to the time up to the
   * last cadence flush.
   */
  lemma WallClockReported(projectId: SelectionId, taskId: SelectionId, t0: int, evs: seq<Event>, at: Sample)
    requires AllTicks(evs) && forall i :: 0 <= i < |evs| ==> NoDrift(evs[i])
    ensures var s := Replay(RunStep(New(projectId, taskId), t0), evs);
      var f := StopStep(s, at);
      && (s.elapsed % FlushEvery != 0 ==> TotalDuration(f.windows) == at.clock - t0)
      && (s.elapsed % FlushEvery == 0 ==> TotalDuration(f.windows) == s.chunkStart - t0)
  {
    var s0 := RunStep(New(projectId, taskId), t0);
    NewIsIdle(projectId, taskId);
    RunKeepsInv(New(projectId, taskId), t0);
    TicksTelescope(s0, t0, evs);
    var s := Replay(s0, evs);
    var f := StopStep(s, at);
    if s.elapsed % FlushEvery != 0 {
      assert f.windows[..|f.windows| - 1] == s.windows;
    } else {
      assert f.windows == s.windows;
    }
  }

  /**
   * `n` ticks after `run` at `t0` under an idealised clock: the k-th tick
   * reads exactly `t0 + 1000 k` and no time passes inside a tick.
   */
  function IdealRun(projectId: SelectionId, taskId: SelectionId, t0: int, n: nat,
                    timezone: int, host: SystemInfo.Host): Session
    decreases n
  {
    if n == 0 then RunStep(New(projectId, taskId), t0)
    else
      var c := t0 + 1000 * n;
      TickStep(IdealRun(projectId, taskId, t0, n - 1, timezone, host), Sample(c, timezone, host), c)
  }

  /** Under the idealised clock, `n` ticks report 1, 2, ..., n and the session keeps running. */
  lemma {:induction false} IdealRunCounters(projectId: SelectionId, taskId: SelectionId, t0: int, n: nat,
                                            timezone: int, host: SystemInfo.Host)
    ensures var s := IdealRun(projectId, taskId, t0, n, timezone, host);
      && s.running && s.elapsed == n
      && |s.updates| == n && (forall i :: 0 <= i < n ==> s.updates[i] == i + 1)
    decreases n
  {
    if n > 0 {
      var prev := IdealRun(projectId, taskId, t0, n - 1, timezone, host);
      var c := t0 + 1000 * n;
      IdealRunCounters(projectId, taskId, t0, n - 1, timezone, host);
      assert IdealRun(projectId, taskId, t0, n, timezone, host) == TickStep(prev, Sample(c, timezone, host), c);
      TickCounts(prev, Sample(c, timezone, host), c);
    }
  }

  /** A running tick extends the updates 1, ..., k by k + 1. */
  lemma TickCounts(prev: Session, at: Sample, restart: int)
    requires prev.running && |prev.updates| == prev.elapsed
    requires forall i :: 0 <= i < |prev.updates| ==> prev.updates[i] == i + 1
    ensures var s := TickStep(prev, at, restart);
      && s.running && s.elapsed == prev.elapsed + 1
      && |s.updates| == s.elapsed && (forall i :: 0 <= i < |s.updates| ==> s.updates[i] == i + 1)
  {
    var s := TickStep(prev, at, restart);
    assert s.updates == prev.updates + [prev.elapsed + 1];
  }

  /** Windows cut at `t0`, `t0 + 60000`, `t0 + 120000`, ... */
  ghost predicate MinuteSlices(ws: seq<Window>, t0: int)
  {
    forall i :: 0 <= i < |ws| ==> ws[i].start == t0 + 60000 * i && ws[i].end == t0 + 60000 * (i + 1)
  }

  lemma {:induction false} MinuteSlicesDuration(ws: seq<Window>, t0: int)
    requires MinuteSlices(ws, t0)
    ensures TotalDuration(ws) == 60000 * |ws|
    decreases |ws|
  {
    if ws != [] {
      MinuteSlicesDuration(ws[..|ws| - 1], t0);
    }
  }

  /** Appending the next slice keeps a list of minute slices. */
  lemma MinuteSlicesAppend(ws: seq<Window>, t0: int, w: Window)
    requires MinuteSlices(ws, t0)
    requires w.start == t0 + 60000 * |ws| && w.end == t0 + 60000 * (|ws| + 1)
    ensures MinuteSlices(ws + [w], t0)
  {
  }

  /** Under the idealised clock, the cadence windows are back-to-back 60000 ms slices from `t0`. */
  lemma {:induction false} IdealRunWindows(projectId: SelectionId, taskId: SelectionId, t0: int, n: nat,
                                           timezone: int, host: SystemInfo.Host)
    ensures var s := IdealRun(projectId, taskId, t0, n, timezone, host);
      && s.chunkStart == t0 + 60000 * (n / 60)
      && |s.windows| == n / 60
      && MinuteSlices(s.windows, t0)
    decreases n
  {
    if n > 0 {
      var prev := IdealRun(projectId, taskId, t0, n - 1, timezone, host);
      IdealRunWindows(projectId, taskId, t0, n - 1, timezone, host);
      IdealRunCounters(projectId, taskId, t0, n - 1, timezone, host);
      IdealTick(prev, t0, n, timezone, host);
    }
  }

  /** The n-th ideal tick, given the shape after n - 1 ticks. */
  lemma IdealTick(prev: Session, t0: int, n: nat, timezone: int, host: SystemInfo.Host)
    requires n > 0 && prev.running && prev.elapsed == n - 1
    requires prev.chunkStart == t0 + 60000 * ((n - 1) / 60)
    requires |prev.windows| == (n - 1) / 60 && MinuteSlices(prev.windows, t0)
    ensures var s := TickStep(prev, Sample(t0 + 1000 * n, timezone, host), t0 + 1000 * n);
      && s.chunkStart == t0 + 60000 * (n / 60)
      && |s.windows| == n / 60
      && MinuteSlices(s.windows, t0)
  {
    var c := t0 + 1000 * n;
    var s := TickStep(prev, Sample(c, timezone, host), c);
    if n % 60 == 0 {
      var q := n / 60;
      var w := Package(prev.(elapsed := n, updates := prev.updates + [n]), Sample(c, timezone, host));
      assert s.windows == prev.windows + [w] && s.chunkStart == c;
      assert (n - 1) / 60 == q - 1;
      assert 1000 * n == 60000 * q;
      MinuteSlicesAppend(prev.windows, t0, w);
    } else {
      assert (n - 1) / 60 == n / 60;
    }
  }

  /**
   * Stopping after `n` ideal seconds reports every millisecond exactly
   * once: contiguous windows from `t0` summing to `1000 n`, the last one
   * partial, and no trailing window when `n` is a multiple of 60.
   */
  lemma IdealStopReportsAllTime(projectId: SelectionId, taskId: SelectionId, t0: int, n: nat,
                                timezone: int, host: SystemInfo.Host)
    ensures var f := StopStep(IdealRun(projectId, taskId, t0, n, timezone, host),
                              Sample(t0 + 1000 * n, timezone, host));
      && |f.windows| == n / 60 + (if n % 60 != 0 then 1 else 0)
      && (f.windows != [] ==> f.windows[0].start == t0)
      && (forall i :: 0 < i < |f.windows| ==> f.windows[i - 1].end == f.windows[i].start)
      && (forall i :: 0 <= i < n / 60 ==> f.windows[i].end - f.windows[i].start == 60000)
      && TotalDuration(f.windows) == 1000 * n
  {
    var s := IdealRun(projectId, taskId, t0, n, timezone, host);
    IdealRunWindows(projectId, taskId, t0, n, timezone, host);
    IdealRunCounters(projectId, taskId, t0, n, timezone, host);
    assert n == 60 * (n / 60) + n % 60;
    StopAfterSlices(s, t0, n / 60, n % 60, Sample(t0 + 1000 * n, timezone, host));
  }

  /** Stopping `rem` seconds into the chunk after `q` minute slices adds the partial slice, if any. */
  lemma StopAfterSlices(s: Session, t0: int, q: nat, rem: nat, at: Sample)
    requires s.elapsed == 60 * q + rem && rem < 60
    requires s.chunkStart == t0 + 60000 * q && |s.windows| == q && MinuteSlices(s.windows, t0)
    requires at.clock == t0 + 60000 * q + 1000 * rem
    ensures var f := StopStep(s, at);
      && |f.windows| == q + (if rem != 0 then 1 else 0)
      && (f.windows != [] ==> f.windows[0].start == t0)
      && (forall i :: 0 < i < |f.windows| ==> f.windows[i - 1].end == f.windows[i].start)
      && (forall i :: 0 <= i < q ==> f.windows[i].end - f.windows[i].start == 60000)
      && TotalDuration(f.windows) == 60000 * q + 1000 * rem
  {
    MinuteSlicesDuration(s.windows, t0);
    var f := StopStep(s, at);
    assert s.elapsed % FlushEvery == rem;
    if rem != 0 {
      var w := Package(s.(running := false), at);
      assert f.windows == s.windows + [w];
      assert f.windows[..|f.windows| - 1] == s.windows;
      forall i | 0 < i < |f.windows| ensures f.windows[i - 1].end == f.windows[i].start {
        assert f.windows[i - 1] == s.windows[i - 1];
        if i < |s.windows| { assert f.windows[i] == s.windows[i]; }
      }
    } else {
      assert f.windows == s.windows;
    }
  }

  /** The 130-second session: windows [0, 60000], [60000, 120000] and the partial [120000, 130000]. */
  lemma TrackingFor130Seconds(projectId: SelectionId, taskId: SelectionId, timezone: int, host: SystemInfo.Host)
    ensures var f := StopStep(IdealRun(projectId, taskId, 0, 130, timezone, host), Sample(130000, timezone, host));
      && |f.windows| == 3
      && f.windows[0].start == 0 && f.windows[0].end == 60000
      && f.windows[1].start == 60000 && f.windows[1].end == 120000
      && f.windows[2].start == 120000 && f.windows[2].end == 130000
      && |f.updates| == 130 && (forall i :: 0 <= i < 130 ==> f.updates[i] == i + 1)
  {
    IdealRunWindows(projectId, taskId, 0, 130, timezone, host);
    IdealRunCounters(projectId, taskId, 0, 130, timezone, host);
  }

  /**
   * With the idealised clock, stopping twice after `n` seconds mid-chunk
   * reports `1000 (n % 60)` milliseconds more than were tracked.
   */
  lemma IdealDoubleStopOvercounts(projectId: SelectionId, taskId: SelectionId, t0: int, n: nat,
                                  timezone: int, host: SystemInfo.Host)
    requires n % 60 != 0
    ensures var at := Sample(t0 + 1000 * n, timezone, host);
      var f := StopStep(StopStep(IdealRun(projectId, taskId, t0, n, timezone, host), at), at);
      TotalDuration(f.windows) == 1000 * n + 1000 * (n % 60) > 1000 * n
  {
    var s := IdealRun(projectId, taskId, t0, n, timezone, host);
    var at := Sample(t0 + 1000 * n, timezone, host);
    IdealRunWindows(projectId, taskId, t0, n, timezone, host);
    IdealRunCounters(projectId, taskId, t0, n, timezone, host);
    MinuteSlicesDuration(s.windows, t0);
    StopTwiceReportsChunkTwice(s, at, at);
    assert n == 60 * (n / 60) + n % 60;
  }
}

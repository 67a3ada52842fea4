/**
 * `TrackingWorker` of workers/tracking_worker.py as an object whose
 * methods update its fields in place. The two Qt signals become ghost
 * streams the methods append to; `State` gives the abstract value each
 * method is specified against (the step functions of TrackingSession).
 */
module Worker {
  import opened TrackingSession

  class TrackingWorker {
    const projectId: SelectionId
    const taskId: SelectionId
    var running: bool
    var elapsedSeconds: nat
    var chunkStart: int
    /** Every value sent on `time_updated`, in order. */
    ghost var timeUpdates: seq<int>
    /** Every payload sent on `window_ready_to_send`, in order. */
    ghost var windows: seq<Window>

    ghost function State(): Session
      reads this
    {
      Session(projectId, taskId, running, elapsedSeconds, chunkStart, timeUpdates, windows)
    }

    ghost predicate Valid()
      reads this
    {
      Inv(State())
    }

    /** `__init__`: the ids are fixed for the worker's life (they are constants here). */
    constructor (projectId: SelectionId, taskId: SelectionId)
      ensures Valid() && State() == New(projectId, taskId)
      ensures !running && elapsedSeconds == 0
    {
      this.projectId := projectId;
      this.taskId := taskId;
      running := false;
      elapsedSeconds := 0;
      chunkStart := 0;
      timeUpdates := [];
      windows := [];
    }

    /** The prologue of `run`, entered once, on a worker that has not ticked. */
    method Start(now: int)
      requires Valid() && elapsedSeconds == 0
      modifies this
      ensures Valid() && State() == RunStep(old(State()), now)
      ensures running && chunkStart == now && windows == []
    {
      running := true;
      chunkStart := now;
      RunKeepsInv(old(State()), now);
    }

    /**
     * `package_and_send_window`: emit the open chunk, ending at the
     * reading in `at`, with the timezone offset and system info sampled
     * at the same instant.
     */
    method PackageAndSend(at: Sample)
      modifies this`windows
      ensures windows == old(windows) + [Package(old(State()), at)]
    {
      windows := windows + [Package(State(), at)];
    }

    /**
     * One pass of the `run` loop after the sleep: re-check the flag,
     * count the second, report it, and on every multiple of 60 flush and
     * restart the chunk at the reading `restart`.
     */
    method Tick(at: Sample, restart: int)
      requires Valid() && ClockAllows(State(), at.clock) && at.clock <= restart
      modifies this
      ensures Valid() && State() == TickStep(old(State()), at, restart)
    {
      ghost var next := TickStep(State(), at, restart);
      TickKeepsCounted(State(), at, restart);
      TickKeepsOrdered(State(), at, restart);
      if !running {
        return;
      }
      elapsedSeconds := elapsedSeconds + 1;
      timeUpdates := timeUpdates + [elapsedSeconds];
      if elapsedSeconds % FlushEvery == 0 {
        PackageAndSend(at);
        chunkStart := restart;
      }
      assert State() == next;
    }

    /** `stop`: clear the flag and flush a partial chunk. A second call flushes it again. */
    method Stop(at: Sample)
      requires Valid() && ClockAllows(State(), at.clock)
      modifies this
      ensures Valid() && State() == StopStep(old(State()), at)
      ensures !running
    {
      ghost var next := StopStep(State(), at);
      StopKeepsCounted(State(), at);
      StopKeepsOrdered(State(), at);
      running := false;
      if elapsedSeconds % FlushEvery != 0 {
        PackageAndSend(at);
      }
      assert State() == next;
    }
  }
}

/** The single-timer task tracker of app.py: a list of task records, the index of
    the task whose timer runs, and the moment that timer started. Wall-clock time
    (`time.time()` in the source) is the parameter `now`, in whole seconds. */
module TimeTracker {

  import opened Wrappers

  /** The `status` field of a task record ('Pending', 'Paused', 'Running ⏱️'). */
  datatype Status = Pending | Paused | Running

  /** One task record: `name`, `total_seconds`, `status`. The total is the time
      accumulated over finished runs; it may become negative, because the source
      adds `now - start_time` without a clamp. */
  datatype Task = Task(name: string, totalSeconds: int, status: Status)

  /** The session state: `tasks`, `active_task_idx`, `start_time`. */
  datatype Session = Session(tasks: seq<Task>, activeTaskIdx: Option<nat>, startTime: Option<int>)

  /** What `toggle_timer` relies on: a start time is recorded exactly when a task
      is active, and the active index points into the task list. */
  predicate Consistent(s: Session)
  {
    (s.activeTaskIdx.None? <==> s.startTime.None?) &&
    (s.activeTaskIdx.Some? ==> s.activeTaskIdx.value < |s.tasks|)
  }

  /** A task shows `Running` exactly when it is the active one; in particular at
      most one task is running. */
  predicate StatusAgrees(s: Session)
  {
    forall i :: 0 <= i < |s.tasks| ==> (s.tasks[i].status == Running <==> s.activeTaskIdx == Some(i))
  }

  /** The invariant of every session the application can reach. */
  predicate ValidSession(s: Session)
  {
    Consistent(s) && StatusAgrees(s)
  }

  /** The state the application starts from (app.py:26-33). */
  const Initial := Session([], None, None)

  /** The state after `add_task` with the text of the input box: a new pending
      task with no time when the text is not empty, nothing otherwise. */
  function WithTask(s: Session, taskName: string): (r: Session)
    ensures r.activeTaskIdx == s.activeTaskIdx && r.startTime == s.startTime
    ensures taskName == [] ==> r == s
    ensures taskName != [] ==>
      |r.tasks| == |s.tasks| + 1 && r.tasks[..|s.tasks|] == s.tasks &&
      r.tasks[|s.tasks|] == Task(taskName, 0, Pending)
    ensures Consistent(s) ==> Consistent(r)
    ensures ValidSession(s) ==> ValidSession(r)
  {
    if taskName != [] then s.(tasks := s.tasks + [Task(taskName, 0, Pending)]) else s
  }

  /** The time the running timer has accumulated by `now`. */
  function Elapsed(s: Session, now: int): int
    requires s.startTime.Some?
  {
    now - s.startTime.value
  }

  /** Ending the active task's run: its total grows by the elapsed interval, its
      status becomes `Paused`, and no task is active any more. */
  function StopActive(s: Session, now: int): (r: Session)
    requires Consistent(s) && s.activeTaskIdx.Some?
    ensures Consistent(r) && r.activeTaskIdx.None? && |r.tasks| == |s.tasks|
    ensures var i := s.activeTaskIdx.value;
      r.tasks[i].name == s.tasks[i].name && r.tasks[i].status == Paused &&
      r.tasks[i].totalSeconds == s.tasks[i].totalSeconds + Elapsed(s, now)
    ensures forall j :: 0 <= j < |s.tasks| && s.activeTaskIdx != Some(j) ==> r.tasks[j] == s.tasks[j]
  {
    var i := s.activeTaskIdx.value;
    var t := s.tasks[i];
    Session(s.tasks[i := t.(totalSeconds := t.totalSeconds + Elapsed(s, now), status := Paused)], None, None)
  }

  /** Starting the timer of task `index` at `now`. */
  function StartTask(s: Session, index: nat, now: int): (r: Session)
    requires index < |s.tasks|
    ensures Consistent(r) && r.activeTaskIdx == Some(index) && r.startTime == Some(now)
    ensures |r.tasks| == |s.tasks| && r.tasks[index].status == Running
    ensures r.tasks[index].name == s.tasks[index].name && r.tasks[index].totalSeconds == s.tasks[index].totalSeconds
    ensures forall j :: 0 <= j < |s.tasks| && j != index ==> r.tasks[j] == s.tasks[j]
  {
    Session(s.tasks[index := s.tasks[index].(status := Running)], Some(index), Some(now))
  }

  /** The state after `toggle_timer(index)` at `now`: a run of another task is
      stopped first; then the target is stopped if it is the active one and
      started otherwise. */
  function Toggled(s: Session, index: nat, now: int): (r: Session)
    requires Consistent(s) && index < |s.tasks|
    ensures Consistent(r) && |r.tasks| == |s.tasks|
    ensures r.activeTaskIdx.None? || r.activeTaskIdx == Some(index)
    ensures r.activeTaskIdx.None? <==> s.activeTaskIdx == Some(index)
    ensures StatusAgrees(s) ==> StatusAgrees(r)
  {
    var s1 := if s.activeTaskIdx.Some? && s.activeTaskIdx.value != index then StopActive(s, now) else s;
    if s1.activeTaskIdx == Some(index) then StopActive(s1, now) else StartTask(s1, index, now)
  }

  /** The duration expression of the row loop (app.py:124-126) for task `idx`:
      its total, plus the running interval when it is the active task. */
  function DisplayedSeconds(s: Session, idx: nat, now: int): (r: int)
    requires Consistent(s) && idx < |s.tasks|
    ensures s.activeTaskIdx != Some(idx) ==> r == s.tasks[idx].totalSeconds
    ensures s.activeTaskIdx == Some(idx) ==> r == Toggled(s, idx, now).tasks[idx].totalSeconds
  {
    var currentTotal := s.tasks[idx].totalSeconds;
    if s.activeTaskIdx == Some(idx) then currentTotal + Elapsed(s, now) else currentTotal
  }

  /** Toggling the active task stops it: it gains `now - start_time` and becomes
      `Paused`, no task is active, and the other tasks keep their records. */
  lemma ToggleActiveStops(s: Session, index: nat, now: int)
    requires Consistent(s) && index < |s.tasks| && s.activeTaskIdx == Some(index)
    ensures var r := Toggled(s, index, now);
      r.activeTaskIdx.None? && r.startTime.None? &&
      r.tasks[index] == s.tasks[index].(totalSeconds := s.tasks[index].totalSeconds + (now - s.startTime.value),
                                        status := Paused) &&
      forall j :: 0 <= j < |s.tasks| && j != index ==> r.tasks[j] == s.tasks[j]
  {
  }

  /** Toggling another task while one runs stops the running one (it gains
      `now - start_time` and becomes `Paused`) and starts the target at `now`,
      whose total is unchanged; every other task keeps its record. */
  lemma ToggleOtherSwitches(s: Session, index: nat, now: int)
    requires Consistent(s) && index < |s.tasks|
    requires s.activeTaskIdx.Some? && s.activeTaskIdx.value != index
    ensures var r := Toggled(s, index, now);
      var prev := s.activeTaskIdx.value;
      r.activeTaskIdx == Some(index) && r.startTime == Some(now) &&
      r.tasks[prev] == s.tasks[prev].(totalSeconds := s.tasks[prev].totalSeconds + (now - s.startTime.value),
                                      status := Paused) &&
      r.tasks[index] == s.tasks[index].(status := Running) &&
      forall j :: 0 <= j < |s.tasks| && j != index && j != prev ==> r.tasks[j] == s.tasks[j]
  {
  }

  /** Toggling with no timer running starts the target at `now`; no total changes
      and no other task changes. */
  lemma ToggleIdleStarts(s: Session, index: nat, now: int)
    requires Consistent(s) && index < |s.tasks| && s.activeTaskIdx.None?
    ensures var r := Toggled(s, index, now);
      r.activeTaskIdx == Some(index) && r.startTime == Some(now) &&
      r.tasks[index] == s.tasks[index].(status := Running) &&
      forall j :: 0 <= j < |s.tasks| && j != index ==> r.tasks[j] == s.tasks[j]
  {
  }

  /** Names never change under `toggle_timer`, and at most the target and the
      previously active task change at all. */
  lemma ToggleFrame(s: Session, index: nat, now: int, j: nat)
    requires Consistent(s) && index < |s.tasks| && j < |s.tasks|
    ensures Toggled(s, index, now).tasks[j].name == s.tasks[j].name
    ensures j != index && s.activeTaskIdx != Some(j) ==> Toggled(s, index, now).tasks[j] == s.tasks[j]
  {
  }

  /** Two start/stop cycles on the same task from an idle state add the sum of the
      two intervals to its total and leave the session idle again. */
  lemma TwoRunsAccumulate(s: Session, index: nat, t0: int, t1: int, t2: int, t3: int)
    requires Consistent(s) && index < |s.tasks| && s.activeTaskIdx.None?
    ensures var r := Toggled(Toggled(Toggled(Toggled(s, index, t0), index, t1), index, t2), index, t3);
      r.activeTaskIdx.None? && r.startTime.None? &&
      r.tasks[index].totalSeconds == s.tasks[index].totalSeconds + (t1 - t0) + (t3 - t2) &&
      r.tasks[index].status == Paused
  {
    ToggleIdleStarts(s, index, t0);
    var a := Toggled(s, index, t0);
    ToggleActiveStops(a, index, t1);
    var b := Toggled(a, index, t1);
    ToggleIdleStarts(b, index, t2);
    var c := Toggled(b, index, t2);
    ToggleActiveStops(c, index, t3);
  }

  /** The duration expression grows with the clock, second for second, for the
      active task; for any other task it does not depend on the clock. */
  lemma DisplayedSecondsOverTime(s: Session, idx: nat, now: int, later: int)
    requires Consistent(s) && idx < |s.tasks| && now <= later
    ensures s.activeTaskIdx == Some(idx) ==>
      DisplayedSeconds(s, idx, later) == DisplayedSeconds(s, idx, now) + (later - now)
    ensures s.activeTaskIdx != Some(idx) ==> DisplayedSeconds(s, idx, later) == DisplayedSeconds(s, idx, now)
  {
  }

  /** One button click: "Add Task" with the text of the input box, or the
      Start/Stop button of row `index` pressed at `now`. */
  datatype Click = AddClick(taskName: string) | ToggleClick(index: nat, now: int)

  /** The state after a run of clicks, or None when a click names a row the
      page does not show. */
  function Replay(s: Session, clicks: seq<Click>): (r: Option<Session>)
    requires Consistent(s)
    decreases |clicks|
  {
    if clicks == [] then Some(s)
    else match clicks[0]
      case AddClick(taskName) => Replay(WithTask(s, taskName), clicks[1..])
      case ToggleClick(index, now) =>
        if index < |s.tasks| then Replay(Toggled(s, index, now), clicks[1..]) else None
  }

  /** Every state the application reaches from its initial state by any run of
      clicks keeps the invariant: at most one task is running, and an active
      task and a start time are recorded together. */
  lemma {:induction false} ReplayKeepsInvariant(s: Session, clicks: seq<Click>)
    requires ValidSession(s)
    ensures Replay(s, clicks).Some? ==> ValidSession(Replay(s, clicks).value)
    decreases |clicks|
  {
    if clicks != [] {
      match clicks[0]
      case AddClick(taskName) =>
        ReplayKeepsInvariant(WithTask(s, taskName), clicks[1..]);
      case ToggleClick(index, now) =>
        if index < |s.tasks| {
          ReplayKeepsInvariant(Toggled(s, index, now), clicks[1..]);
        }
    }
  }

  /** In particular no reachable state has two running tasks. */
  lemma ReachableAtMostOneRunning(clicks: seq<Click>, i: nat, j: nat)
    requires Replay(Initial, clicks).Some?
    ensures var s := Replay(Initial, clicks).value;
      i < |s.tasks| && j < |s.tasks| && s.tasks[i].status == Running && s.tasks[j].status == Running ==> i == j
  {
    ReplayKeepsInvariant(Initial, clicks);
  }

  /** The application's session state: `st.session_state`'s three entries, updated
      in place by the button callbacks. */
  class Tracker {
    var tasks: seq<Task>
    var activeTaskIdx: Option<nat>
    var startTime: Option<int>

    function State(): Session
      reads this
    {
      Session(tasks, activeTaskIdx, startTime)
    }

    ghost predicate Valid()
      reads this
    {
      ValidSession(State())
    }

    /** The initialisation of the session state (app.py:26-33). */
    constructor ()
      ensures Valid() && State() == Initial
    {
      tasks := [];
      activeTaskIdx := None;
      startTime := None;
    }

    /** `add_task`: appends a pending task with no time when the name is not empty. */
    method AddTask(taskName: string)
      requires Valid()
      modifies this
      ensures Valid() && State() == WithTask(old(State()), taskName)
    {
      if taskName != [] {
        tasks := tasks + [Task(taskName, 0, Pending)];
      }
    }

    /** `toggle_timer(index)` at `now`. */
    method ToggleTimer(index: nat, now: int)
      requires Valid() && index < |tasks|
      modifies this
      ensures Valid() && State() == Toggled(old(State()), index, now)
      ensures activeTaskIdx.None? || activeTaskIdx == Some(index)
    {
      if activeTaskIdx.Some? && activeTaskIdx.value != index {
        var elapsed := now - startTime.value;
        var prev := activeTaskIdx.value;
        tasks := tasks[prev := tasks[prev].(totalSeconds := tasks[prev].totalSeconds + elapsed)];
        tasks := tasks[prev := tasks[prev].(status := Paused)];
        activeTaskIdx := None;
        startTime := None;
      }
      if activeTaskIdx == Some(index) {
        var elapsed := now - startTime.value;
        tasks := tasks[index := tasks[index].(totalSeconds := tasks[index].totalSeconds + elapsed)];
        tasks := tasks[index := tasks[index].(status := Paused)];
        activeTaskIdx := None;
        startTime := None;
      } else {
        activeTaskIdx := Some(index);
        startTime := Some(now);
        tasks := tasks[index := tasks[index].(status := Running)];
      }
    }
  }
}

# Time tracker core

A model of the task timer of a small single-user time-tracking application
(`app.py`). The application keeps a list of task records (name, accumulated
seconds, status), the index of the one task whose timer is running, and the
moment that timer started. Two button callbacks change this state:
`add_task` appends a task, and `toggle_timer(index)` starts or stops timers.
Starting one task while another runs stops the running one first
(app.py:48-55). `format_time` renders a number of seconds as `H:MM:SS`. The
duration expression of the row loop (app.py:124-126) adds the interval that is
still running to the active task's total.

When a timer runs, app.py:105-107 sleeps one second and calls `st.rerun()`
before the row loop at app.py:109 is reached. So while a task is active the
rows are not drawn, and the active branch of the duration expression
(app.py:125-126) is not reached during rendering. `DisplayedSeconds` models
the expression itself, not what the page shows.

The Dafny project has three modules:

- `Wrappers` (`wrappers.dfy`) holds the `Option` type.
- `TimeFormat` (`time_format.dfy`) models `format_time`. It has the base-60
  split, the `:02d` zero-padded decimal fields, and a reference reader
  `ParseTime`. The round trip between `FormatTime` and `ParseTime` shows that
  the rendering loses nothing.
- `TimeTracker` (`time_tracker.dfy`) models the session state in two forms:
  - `Session` is the state as a value. `WithTask`, `Toggled` and
    `DisplayedSeconds` say what the callbacks and the duration expression
    compute. The lemmas state the timer's rules in terms of these functions.
  - The class `Tracker` holds the same three fields. Its methods `AddTask` and
    `ToggleTimer` update the fields step by step, as the callbacks do. Each
    method's postcondition ties the new state to the pure function of the old
    state, and says the session invariant `ValidSession` still holds.
  - `Replay` applies a run of button clicks to a session. The buttons call the
    two callbacks (app.py:86, 133). It is a reference for the lemmas about
    reachable states and is not itself part of the source.

The session invariant has two parts. First, an active index is set exactly
when a start time is set, and it points into the task list. Second, a task's
status is `Running` exactly when it is the active task, so at most one task
runs.

Two facts about `toggle_timer` matter for the lemmas:

- Starting a task while another runs stops the running task
  (app.py:48-55). The target then starts.
- The elapsed interval `now - start_time` is not clamped at zero
  (app.py:51, 60), so a total can decrease.

The clock is a parameter. `time.time()` becomes the argument `now`, a whole
number of seconds.

## Model

| member | source | states |
|---|---|---|
| `TimeTracker.Tracker.constructor` | app.py:26-33 | the session starts with no tasks, no active task and no start time, and it satisfies the invariant |
| `TimeTracker.WithTask` | app.py:35-42 | a non-empty name appends exactly one task with that name, total 0 and status Pending, and keeps the existing tasks as a prefix; an empty name leaves the state unchanged; the timer fields never change, and the invariant is preserved |
| `TimeTracker.Tracker.AddTask` | app.py:35-42 | the in-place append leaves the state `WithTask` describes and keeps the invariant |
| `TimeTracker.StopActive` | app.py:51-55 | stopping the active run adds the elapsed interval to that task's total, keeps its name, marks it Paused, changes no other task, and leaves no active task, no start time and the same number of tasks |
| `TimeTracker.StartTask` | app.py:65-69 | starting a task makes it the active task from `now` with status Running and an unchanged name and total, changes no other task, and keeps the number of tasks |
| `TimeTracker.Toggled` | app.py:45-69 | after a toggle the active index is None or exactly `index`; it is None exactly when `index` was the active task; the active index and the start time are set or cleared together; the list length is unchanged; "Running exactly on the active task" (at most one running) is preserved |
| `TimeTracker.Tracker.ToggleTimer` | app.py:45-69 | the in-place update leaves the state `Toggled` describes, keeps the invariant, and leaves no active task or only `index` |
| `TimeTracker.ToggleActiveStops` | app.py:58-64 | toggling the active task adds `now - start_time` to its total and marks it Paused; no task is active and no start time is set; every other task keeps its record |
| `TimeTracker.ToggleOtherSwitches` | app.py:48-69 | toggling another task while one runs adds `now - start_time` to the previously active task and marks it Paused; the target becomes active from `now` with status Running and an unchanged total; all other tasks keep their records |
| `TimeTracker.ToggleIdleStarts` | app.py:65-69 | toggling with no timer running makes the target active from `now` with status Running; no task's total changes and no other task changes |
| `TimeTracker.ToggleFrame` | app.py:45-69 | a toggle never renames a task, and changes no task other than the target and the previously active one |
| `TimeTracker.TwoRunsAccumulate` | app.py:58-69 | two start/stop cycles on one task add the sum of the two intervals to its total, and leave it Paused and the session idle |
| `TimeTracker.ReplayKeepsInvariant` | app.py:35-69 | every run of Add Task and Start/Stop clicks (`Replay`) keeps the session invariant: active index and start time are set together, and exactly the active task is Running |
| `TimeTracker.ReachableAtMostOneRunning` | app.py:45-69 | no state reachable from the initial one by clicks has two running tasks |
| `TimeTracker.DisplayedSeconds` | app.py:124-126 | the expression gives an inactive task's total; for the active task it gives exactly the total that stopping it at the same moment would record |
| `TimeTracker.DisplayedSecondsOverTime` | app.py:124-126 | the expression's value for the active task grows second for second with the clock; for every other task it does not depend on the clock |
| `TimeFormat.Split` | app.py:72-73 | the two `divmod` steps give minutes and seconds below 60, unbounded hours, and `h*3600 + m*60 + s == seconds` |
| `TimeFormat.SplitUnique` | app.py:72-73 | any hours/minutes/seconds with minutes and seconds below 60 that add up to the total are the ones `Split` gives |
| `TimeFormat.Decimal` | app.py:74 | the decimal rendering is a non-empty digit string with no leading zero, one digit exactly below 10 |
| `TimeFormat.DecimalValue` | app.py:74 | reading back the decimal rendering gives the number |
| `TimeFormat.ZeroPad2` | app.py:74 | a `:02d` field has at least two digits, exactly two below 100, and denotes the number |
| `TimeFormat.FormatTime` | app.py:71-74 | the text ends in `:MM:SS` with two-digit fields after an hours field of at least two digits, and is exactly 8 characters below 100 hours |
| `TimeFormat.FormatParseRoundTrip` | app.py:71-74 | reading a rendered duration back gives the original number of seconds, so no two durations render the same |
| `TimeFormat.ParseFormatCanonical` | app.py:71-74 | every well-formed `H:MM:SS` text whose hours field has no superfluous leading zero is the rendering of the number it reads as |

## Left out

- Page rendering is not modelled: page config, CSS, columns, buttons, text inputs and markdown (app.py:7-23, 76-135). It is user interface.
- Clearing the input widget after a task is added (app.py:43) is not modelled. It is widget state, not task state.
- The one-second `time.sleep` / `st.rerun` redraw loop (app.py:104-107) is not modelled. It only refreshes the page.
- `time.time()` (app.py:46, 126) reads the clock. The model passes the time as the parameter `now`.
- Seconds are whole numbers. The source's floating-point seconds and its `int()` truncation in `format_time` are not modelled.
- TimeFormat.FormatTime: is defined for non-negative seconds only, so Python's floor `divmod` output for negative inputs is not modelled. A total can become negative if the clock goes back between a start and a stop.
- TimeTracker.Tracker.ToggleTimer: requires `index` to be a position in the task list. The buttons pass positions from `enumerate(tasks)`. Python's negative-index wrap-around and the error for an out-of-range index are not modelled.
- The `st.session_state` initialisation guards (app.py:26-33) are modelled only as the `Tracker` constructor, which sets all three fields.
- `debug_auth.py` and `debug_secrets_check.py` are not modelled. They only do credential lookup, spreadsheet I/O and diagnostics.

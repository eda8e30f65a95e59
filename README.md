# Trial lifecycle of the chart-reading experiment

The experiment page (`app.py`, a Streamlit script) times how fast a participant
finds an answer on a chart. Between reruns it keeps its state in `st.session_state`:

- `running`: whether a trial is in progress;
- `display_graph`: whether the chart is shown;
- `graph_type`: the chart variant, 0 or 1, drawn at random;
- `elapsed_time`: the time accumulated so far;
- `last_update`: the instant the clock was last read;
- `response_data`: the log of `(ID, Time)` rows.

Four blocks of the script change this state:

- the Go button starts a trial;
- the timer block adds the wall-clock delta on every rerun;
- the "Officer-involved shooting" answer button calls `end_trial`, which stops the trial and appends one row;
- the timer display splits the elapsed time into hours, minutes, seconds and milliseconds.

The log is then filtered and counted per chart variant.

The model has five modules:

- `Wrappers`: `Option`.
- `Timer`: the `divmod` chain of the timer display.
- `Responses`: the response log, its per-ID filter and the per-ID count.
- `Trial`: the session state as a value (`TrialState`). It has one function per event (`Go`, `Tick`, `EndTrial`, `Answer`), the invariant `Consistent`, runs over event sequences (`Run`, `TickAll`), and lemmas about whole trials.
- `Session`: the class `TrialSession`. Its fields are the session-state entries. Its methods change them in place. The postconditions of `Go`, `Tick` and `EndTrial` tie the new state to `Trial.Go`, `Trial.Tick` and `Trial.EndTrial`, and that of `PressAnswer` to `Trial.Answer`. `TimerReading` changes nothing; its postcondition restates the contract of `Timer.FormatParts` for the session's elapsed time.

Time is an `int` count of microseconds, the resolution of Python's `timedelta`, so no value is a float. `datetime.now()` becomes a parameter `now`. The draw `random.randint(0, 1)` becomes a parameter `draw` with `0 <= draw <= 1`, because `randint` includes both bounds. Each rerun of the script becomes one `Tick(now)`. That includes the reruns that `time.sleep(0.01)` / `st.rerun()` force while a trial runs, and the rerun in which Go was pressed, right after the Go branch.

Some of the code's behaviour differs from what a reader might expect of a trial timer. The model follows the code:

- Go does not reset `elapsed_time`. It relies on `end_trial` (and initialisation) having left it at 0. `Trial.Go` states that the elapsed time is unchanged, and `Consistent` shows that it is 0 whenever Go can act.
- `end_trial` has no guard on `running`. The answer button is always enabled. One would expect a press while idle to be a no-op. Instead it appends a row with no ID (the `graph_type` bound is `None`) and time 0 (`Trial.Answer`). Such a row is invisible to the per-variant filter and count (`Trial.EndTrialCounts`).
- The recorded time is the elapsed time as of the last rerun. The interval between that rerun and the click is not counted, because the callback runs before the next rerun and then `running` is already false (`Trial.TrialRecordsOneRow`).
- Go pressed while a trial runs cannot happen, because the button is rendered `disabled`. The model treats such a press as having no effect.

## Model

| member | source | states |
|---|---|---|
| Timer.FormatParts | app.py:82-86 | minutes and seconds are below 60 and milliseconds below 1000. `hours*3600 + minutes*60 + seconds` is the floor of the elapsed time in seconds. The reading is the elapsed time truncated to the millisecond. Negative times floor as Python's `divmod` does. |
| Timer.ReadingIsUnique | app.py:82-86 | two in-range readings that cover the same microsecond are equal, so the reading of a time is determined |
| Timer.FormatRoundTrip | app.py:82-86 | displaying any microsecond of an in-range reading gives that reading back |
| Timer.ZeroReading | app.py:82-86 | a reset timer reads 00:00:00.000 |
| Responses.TimesFor | app.py:218-219 | the filtered times are never more than the rows of the log |
| Responses.TimesForAppend | app.py:218-219 | filtering by ID distributes over concatenation of logs |
| Responses.TimesForAppendRow | app.py:218-219 | appending a row adds its time to the filter of its own ID only |
| Responses.TimesForMembers | app.py:218-219 | a time is in the filter for `id` exactly when the log holds a row `(id, time)` |
| Responses.CountPartition | app.py:244 | the counts of variants 0 and 1 together never exceed the log's length, and equal it when every row names a variant |
| Trial.Initial | app.py:23-39 | the first run is idle: timer 0, no variant, the stored log loaded; the invariant holds |
| Trial.Go | app.py:63-74 | Go during a trial changes nothing. Otherwise the trial runs, the chart is shown and the clock restarts at `now`. A variant is drawn only when none is set, and a set one is kept. Elapsed time and log are untouched. The invariant is preserved. |
| Trial.Tick | app.py:77-80 | while idle nothing changes. While running, `last_update` becomes `now` and `elapsed - last_update` is kept, so exactly `now - last_update` is added. Nothing else changes. The invariant is preserved. |
| Trial.EndTrial | app.py:159-176 | from any state, the result is idle with no variant and a zero timer. Exactly one row `(id, elapsed before the reset)` is appended, earlier rows stay unchanged, and the invariant holds. |
| Trial.Answer | app.py:190-200 | the three unwired buttons change nothing. The wired one ends the trial and appends exactly the row `(current variant, elapsed)` after the earlier rows. The ID is 0 or 1 during a trial. While idle the row is `(none, 0)`. The invariant is preserved. |
| Trial.Run | app.py:66-200 | along any sequence of Go presses, reruns and answer presses, the invariant is kept. The log only grows, by one row per press of the wired button. |
| Trial.TicksTelescope | app.py:77-80 | any number of ticks while running add exactly the span from `last_update` to the last tick, and leave everything else alone |
| Trial.IdleTicks | app.py:77-80 | ticks while idle change nothing |
| Trial.TicksCoalesce | app.py:77-80 | ticking at many instants gives the same state as one tick at the last of them, so the refresh rate does not change the total |
| Trial.GoThenTicks | app.py:66-80 | Go at `t0` from idle, then ticks up to `tn`, gives a running trial with the drawn variant and the log unchanged. Its elapsed time is `tn - t0` whatever the number of ticks. |
| Trial.MonotoneClockKeepsElapsedNonNegative | app.py:77-80 | with a clock that never goes backwards, a running trial's elapsed time stays non-negative |
| Trial.CompleteRunningTrial | app.py:159-194 | pressing the wired button during a trial records `(variant, elapsed)` and returns to the initial idle shape |
| Trial.TrialRecordsOneRow | app.py:66-194 | a whole trial (Go at `t0`, ticks up to `tn`, wired answer) appends exactly the row `(drawn variant, tn - t0)` and returns to idle |
| Trial.EndTrialCounts | app.py:159-176 | ending a trial adds one to the count of its own ID and leaves every other count unchanged; a row with no ID changes no count |
| Session.TrialSession.constructor | app.py:23-39 | the session starts idle with timer 0, no variant, `last_update = now` and the stored log |
| Session.TrialSession.Go | app.py:63-74 | the in-place Go branch: no change during a trial; otherwise the fields are set as `Trial.Go` says, and elapsed time and log are unchanged |
| Session.TrialSession.Tick | app.py:77-80 | the in-place timer update, as `Trial.Tick` says |
| Session.TrialSession.TimerReading | app.py:82-89 | the displayed reading is in range and is the elapsed time truncated to the millisecond; an idle session shows 00:00:00.000 |
| Session.TrialSession.EndTrial | app.py:159-176 | the in-place `end_trial`: idle, no variant, timer 0, and the log is the old log plus `(id, old elapsed)` |
| Session.TrialSession.PressAnswer | app.py:190-200 | the unwired buttons change nothing; the wired one appends `(graph_type, elapsed)` and ends the trial |

## Left out

- Google Sheets I/O: `conn.read` of "Data" and "Reactions" (lines 44, 47) and `conn.update` (line 180). These are network calls. The stored log is a constructor parameter, and only the local `response_data` is modelled.
- Streamlit rendering and widgets: titles, columns, markdown, the zero-padded `HH:MM:SS.mmm` string, `st.pyplot`, `st.dataframe`. These are UI. Button presses are method calls, and a disabled button is a press with no effect.
- The `time.sleep(0.01)` / `st.rerun()` polling loop (lines 203-205). This is framework-driven re-execution, so it is represented by repeated `Tick(now)` calls (`Trial.TickAll`).
- Chart construction with matplotlib/seaborn (lines 100-144, 214-235). This is plotting-library rendering. `graph_data` is read only by it and is not modelled.
- The mean, median, standard deviation, min and max columns and `.round(2)` (lines 244-257). These are float aggregation; only the count per ID is modelled.
- `random.randint` and `datetime.now()` themselves. They are parameters.
- Float seconds: `Time` rows hold `total_seconds()` as a float. The model keeps the exact microsecond count. Float rounding in `int((seconds % 1) * 1000)` is not modelled, so the model's milliseconds are the exact truncation.
- The debug fields `last_update_time`, `last_id_added` and `last_time_recorded` (lines 183-185), and the entries `app_initialized` and `start_time` (lines 20-24). Nothing reads them.
- Pandas same-key matching on loaded rows: a float ID such as `0.0` matches 0 in pandas. In the model a loaded row's ID is an `Option<int>`.

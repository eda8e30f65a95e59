/**
 The trial lifecycle of the experiment page, as values: the session-state entries
 that app.py keeps across reruns and one function per event that changes them.
 Each function mirrors one block of app.py; the class in module Session applies
 the same changes in place. The clock reading `now` and the random draw are
 parameters.
 */
module Trial {
  import opened Wrappers
  import opened Responses

  /** `st.session_state`: running, display_graph, graph_type, elapsed_time, last_update, response_data. */
  datatype TrialState = TrialState(
    running: bool,
    displayGraph: bool,
    graphType: Option<int>,
    elapsed: int,
    lastUpdate: int,
    responses: seq<Response>)

  /** The four answer buttons (lines 190-200); only `Shooting` is wired to `end_trial`. */
  datatype AnswerButton = Death | Shooting | NotRiotRelated | Homicide

  /**
   The invariant of the lifecycle: a trial is running exactly when the chart is
   displayed and a variant in {0, 1} is chosen, and an idle timer reads zero.
   */
  ghost predicate Consistent(s: TrialState) {
    && s.running == s.displayGraph
    && s.running == s.graphType.Some?
    && (s.graphType.Some? ==> 0 <= s.graphType.value <= 1)
    && (!s.running ==> s.elapsed == 0)
  }

  /** The first run of a session (lines 23-39, 46-47): idle, with the stored log loaded. */
  function Initial(now: int, stored: seq<Response>): (s: TrialState)
    ensures Consistent(s)
    ensures !s.running && s.elapsed == 0 && s.responses == stored
  {
    TrialState(false, false, None, 0, now, stored)
  }

  /**
   A press of Go (lines 63-74). The button is rendered disabled while a trial is
   running, so such a press has no effect. Otherwise the trial starts, a variant is
   drawn only if none is set, and the timer restarts from `now` without its
   accumulated time being reset.
   */
  function Go(s: TrialState, now: int, draw: int): (t: TrialState)
    requires 0 <= draw <= 1
    ensures Consistent(s) ==> Consistent(t)
    ensures s.running ==> t == s
    ensures !s.running ==> t.running && t.displayGraph && t.lastUpdate == now
    ensures s.graphType.Some? ==> t.graphType == s.graphType
    ensures !s.running && s.graphType == None ==> t.graphType == Some(draw)
    ensures t.elapsed == s.elapsed && t.responses == s.responses
  {
    if s.running then s
    else
      var variant := if s.graphType == None then Some(draw) else s.graphType;
      s.(running := true, displayGraph := true, graphType := variant, lastUpdate := now)
  }

  /**
   The timer update of every rerun (lines 77-80): while running, the time since
   the last update is added and the update instant moves to `now`. The difference
   `elapsed - lastUpdate` is what a tick keeps, so ticks only ever add up.
   */
  function Tick(s: TrialState, now: int): (t: TrialState)
    ensures Consistent(s) ==> Consistent(t)
    ensures !s.running ==> t == s
    ensures s.running ==> t.lastUpdate == now && t.elapsed - t.lastUpdate == s.elapsed - s.lastUpdate
    ensures t.running == s.running && t.displayGraph == s.displayGraph
    ensures t.graphType == s.graphType && t.responses == s.responses
  {
    if s.running then s.(elapsed := s.elapsed + (now - s.lastUpdate), lastUpdate := now) else s
  }

  /**
   `end_trial(id)` (lines 159-176): the trial stops, the variant is cleared, the
   timer is reset, and exactly one row `(id, elapsed before the reset)` is added
   after the existing rows. There is no guard on `running`.
   */
  function EndTrial(s: TrialState, id: Option<int>): (t: TrialState)
    ensures Consistent(t)
    ensures !t.running && t.graphType == None && t.elapsed == 0
    ensures t.lastUpdate == s.lastUpdate
    ensures |t.responses| == |s.responses| + 1 && t.responses[..|s.responses|] == s.responses
    ensures t.responses[|s.responses|] == Response(id, s.elapsed)
  {
    var recorded := s.elapsed;
    var t := s.(running := false, displayGraph := false, graphType := None, elapsed := 0,
                responses := s.responses + [Response(id, recorded)]);
    assert t.responses[..|s.responses|] == s.responses;
    t
  }

  /**
   A press of an answer button (lines 190-200). The `Shooting` button calls
   `end_trial` with the variant bound when the page was drawn, which is the current
   one since nothing changes state between drawing and clicking. The other three
   change nothing. A press while idle still records a row, with no ID and zero time.
   */
  function Answer(s: TrialState, button: AnswerButton): (t: TrialState)
    ensures Consistent(s) ==> Consistent(t)
    ensures button != Shooting ==> t == s
    ensures button == Shooting ==> !t.running && |t.responses| == |s.responses| + 1
    ensures button == Shooting ==> t.responses == s.responses + [Response(s.graphType, s.elapsed)]
    ensures button == Shooting && Consistent(s) && s.running ==>
              t.responses[|s.responses|].id in {Some(0), Some(1)}
    ensures button == Shooting && Consistent(s) && !s.running ==>
              t.responses == s.responses + [Response(None, 0)]
  {
    if button == Shooting then
      var t := EndTrial(s, s.graphType);
      assert t.responses == t.responses[..|s.responses|] + [t.responses[|s.responses|]];
      t
    else s
  }

  /** The user and driver events that reach the state. */
  datatype Event = GoPressed(now: int, draw: int) | Rerun(now: int) | AnswerPressed(button: AnswerButton)

  predicate WellFormed(e: Event) {
    e.GoPressed? ==> 0 <= e.draw <= 1
  }

  function Step(s: TrialState, e: Event): TrialState
    requires WellFormed(e)
  {
    match e
    case GoPressed(now, draw) => Go(s, now, draw)
    case Rerun(now) => Tick(s, now)
    case AnswerPressed(button) => Answer(s, button)
  }

  /** The number of presses of the button wired to `end_trial`. */
  function Completions(events: seq<Event>): nat {
    if events == [] then 0
    else (if events[0] == AnswerPressed(Shooting) then 1 else 0) + Completions(events[1..])
  }

  /**
   A session driven by a sequence of events. From any consistent state it stays
   consistent, and the log only grows, by one row per press of the answer button
   wired to `end_trial`.
   */
  function Run(s: TrialState, events: seq<Event>): (t: TrialState)
    requires forall i :: 0 <= i < |events| ==> WellFormed(events[i])
    ensures Consistent(s) ==> Consistent(t)
    ensures s.responses <= t.responses
    ensures |t.responses| == |s.responses| + Completions(events)
    decreases |events|
  {
    if events == [] then s
    else
      Run(Step(s, events[0]), events[1..])
  }

  /** The polling loop (lines 203-205): one tick per rerun instant, in order. */
  function TickAll(s: TrialState, instants: seq<int>): TrialState
    decreases |instants|
  {
    if instants == [] then s else TickAll(Tick(s, instants[0]), instants[1..])
  }

  /** Ticks telescope: the elapsed time grows by the span from the last update to the last tick. */
  lemma {:induction false} TicksTelescope(s: TrialState, instants: seq<int>)
    requires s.running
    requires |instants| > 0
    ensures TickAll(s, instants)
            == s.(elapsed := s.elapsed + (instants[|instants| - 1] - s.lastUpdate),
                  lastUpdate := instants[|instants| - 1])
    decreases |instants|
  {
    var next := Tick(s, instants[0]);
    if |instants| > 1 {
      TicksTelescope(next, instants[1..]);
    }
  }

  /** Ticks do nothing while idle. */
  lemma {:induction false} IdleTicks(s: TrialState, instants: seq<int>)
    requires !s.running
    ensures TickAll(s, instants) == s
    decreases |instants|
  {
    if instants != [] {
      IdleTicks(Tick(s, instants[0]), instants[1..]);
    }
  }

  /** How often the timer is refreshed does not change the total: only the last instant counts. */
  lemma {:induction false} TicksCoalesce(s: TrialState, instants: seq<int>)
    requires |instants| > 0
    ensures TickAll(s, instants) == Tick(s, instants[|instants| - 1])
  {
    if s.running {
      TicksTelescope(s, instants);
      TicksTelescope(s, [instants[|instants| - 1]]);
    } else {
      IdleTicks(s, instants);
    }
  }

  /** The clock readings never go backwards. */
  ghost predicate NonDecreasing(instants: seq<int>) {
    forall i, j :: 0 <= i < j < |instants| ==> instants[i] <= instants[j]
  }

  /** With a clock that never goes backwards, the elapsed time of a running trial stays non-negative. */
  lemma {:induction false} MonotoneClockKeepsElapsedNonNegative(s: TrialState, instants: seq<int>)
    requires s.running && s.elapsed >= 0
    requires NonDecreasing([s.lastUpdate] + instants)
    ensures TickAll(s, instants).elapsed >= 0
  {
    if instants != [] {
      TicksTelescope(s, instants);
      var clock := [s.lastUpdate] + instants;
      assert clock[0] <= clock[|clock| - 1];
    }
  }

  /**
   Go from an idle state followed by ticks: a running trial with the drawn variant
   whose elapsed time is the span from Go to the last tick, however many ticks.
   */
  lemma {:induction false} GoThenTicks(s: TrialState, start: int, draw: int, instants: seq<int>)
    requires Consistent(s) && !s.running
    requires 0 <= draw <= 1
    requires |instants| > 0
    ensures TickAll(Go(s, start, draw), instants)
            == TrialState(true, true, Some(draw), instants[|instants| - 1] - start,
                          instants[|instants| - 1], s.responses)
  {
    TicksTelescope(Go(s, start, draw), instants);
  }

  /** Pressing the wired answer button during a trial records its variant and time and returns to idle. */
  lemma CompleteRunningTrial(s: TrialState)
    requires Consistent(s) && s.running
    ensures Answer(s, Shooting)
            == Initial(s.lastUpdate, s.responses + [Response(s.graphType, s.elapsed)])
  {
  }

  /**
   A whole trial: Go at `start` from an idle state, ticks, then the wired answer
   button. The session is idle again and exactly one row is added: the drawn
   variant with the time from Go to the last tick.
   */
  lemma {:induction false} TrialRecordsOneRow(s: TrialState, start: int, draw: int, instants: seq<int>)
    requires Consistent(s) && !s.running
    requires 0 <= draw <= 1
    requires |instants| > 0
    ensures Answer(TickAll(Go(s, start, draw), instants), Shooting)
            == Initial(instants[|instants| - 1],
                       s.responses + [Response(Some(draw), instants[|instants| - 1] - start)])
  {
    GoThenTicks(s, start, draw, instants);
    CompleteRunningTrial(TickAll(Go(s, start, draw), instants));
  }

  /** A completed trial adds one to the count of its own variant and leaves the other counts alone. */
  lemma EndTrialCounts(s: TrialState, id: Option<int>, v: int)
    ensures CountFor(EndTrial(s, id).responses, v)
            == CountFor(s.responses, v) + (if id == Some(v) then 1 else 0)
  {
    var t := EndTrial(s, id);
    assert t.responses == s.responses + [Response(id, s.elapsed)] by {
      assert t.responses == t.responses[..|s.responses|] + [t.responses[|s.responses|]];
    }
    TimesForAppendRow(s.responses, Response(id, s.elapsed), v);
  }
}

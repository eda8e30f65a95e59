/**
 The session as the page keeps it: `st.session_state` is one mutable object that
 survives reruns, and each block of app.py assigns its entries in place. Every
 method here performs exactly the change that the function of the same name in
 module Trial describes, so the lemmas there apply to any run of the object.
 */
module Session {
  import opened Wrappers
  import opened Responses
  import Trial
  import opened Timer

  class TrialSession {
    var running: bool
    var displayGraph: bool
    var graphType: Option<int>
    var elapsed: int
    var lastUpdate: int
    var responses: seq<Response>

    /** The abstract value of the session. */
    function State(): Trial.TrialState
      reads this
    {
      Trial.TrialState(running, displayGraph, graphType, elapsed, lastUpdate, responses)
    }

    ghost predicate Valid()
      reads this
    {
      Trial.Consistent(State())
    }

    /** Session-state initialisation on the first run (lines 23-39); `stored` is the sheet read at line 47. */
    constructor (now: int, stored: seq<Response>)
      ensures Valid()
      ensures State() == Trial.Initial(now, stored)
      ensures !running && !displayGraph && graphType == None && elapsed == 0
      ensures lastUpdate == now && responses == stored
    {
      running := false;
      elapsed := 0;
      lastUpdate := now;
      displayGraph := false;
      graphType := None;
      responses := stored;
    }

    /** The Go branch (lines 63-74); `draw` is the value of `random.randint(0, 1)`. */
    method Go(now: int, draw: int)
      requires Valid()
      requires 0 <= draw <= 1
      modifies this
      ensures Valid()
      ensures State() == Trial.Go(old(State()), now, draw)
      ensures old(running) ==> unchanged(this)
      ensures !old(running) ==> running && displayGraph && lastUpdate == now
      ensures !old(running) ==> graphType == (if old(graphType) == None then Some(draw) else old(graphType))
      ensures elapsed == old(elapsed) && responses == old(responses)
    {
      // The button is disabled while a trial is running: no press reaches this branch then.
      if !running {
        running := true;
        displayGraph := true;
        if graphType == None {
          graphType := Some(draw);
        }
        lastUpdate := now;
      }
    }

    /** The timer update of each rerun (lines 77-80). */
    method Tick(now: int)
      requires Valid()
      modifies this
      ensures Valid()
      ensures State() == Trial.Tick(old(State()), now)
      ensures !old(running) ==> unchanged(this)
      ensures old(running) ==> elapsed == old(elapsed) + (now - old(lastUpdate)) && lastUpdate == now
      ensures running == old(running) && displayGraph == old(displayGraph)
      ensures graphType == old(graphType) && responses == old(responses)
    {
      if running {
        var current := now;
        elapsed := elapsed + (current - lastUpdate);
        lastUpdate := current;
      }
    }

    /**
     The timer shown on every run (lines 82-89): the elapsed time truncated to the
     millisecond. An idle session shows 00:00:00.000.
     */
    method TimerReading() returns (c: Clock)
      requires Valid()
      ensures InRange(c)
      ensures StartMicros(c) <= elapsed < StartMicros(c) + MicrosPerMilli
      ensures !running ==> c == Clock(0, 0, 0, 0)
    {
      var totalMicros := elapsed;
      c := FormatParts(totalMicros);
      if !running {
        ZeroReading();
      }
    }

    /** `end_trial(id)` (lines 159-176), without the spreadsheet write. */
    method EndTrial(id: Option<int>)
      requires Valid()
      modifies this
      ensures Valid()
      ensures State() == Trial.EndTrial(old(State()), id)
      ensures !running && !displayGraph && graphType == None && elapsed == 0
      ensures lastUpdate == old(lastUpdate)
      ensures responses == old(responses) + [Response(id, old(elapsed))]
    {
      running := false;
      displayGraph := false;
      graphType := None;
      var recorded := elapsed;
      elapsed := 0;
      responses := responses + [Response(id, recorded)];
    }

    /** A press of one of the four answer buttons (lines 190-200). */
    method PressAnswer(button: Trial.AnswerButton)
      requires Valid()
      modifies this
      ensures Valid()
      ensures State() == Trial.Answer(old(State()), button)
      ensures button != Trial.Shooting ==> unchanged(this)
      ensures button == Trial.Shooting ==> responses == old(responses) + [Response(old(graphType), old(elapsed))]
    {
      if button == Trial.Shooting {
        EndTrial(graphType);
      }
    }
  }
}

/**
  One pass of the main loop: add the elapsed time to the lag, apply the
  pending input events, run processInputs, take the end-of-frame snapshot
  of the inputs, and drain the lag.
*/
module MainLoop {
  import opened Board
  import opened Rules
  import opened Input
  import opened Controller
  import opened Clock

  /**
    An input event after the event-type dispatch of updateInputs: a press or
    release of one logical input, a pointer move to pixel (px, py), the quit
    request, or any event the program does not react to.
  */
  datatype Event =
    | Quit
    | Key(key: int, pressed: bool)
    | Motion(px: int, py: int)
    | Ignored

  /** Events as the windowing layer delivers them: known inputs, pointer inside the window. */
  predicate WellFormedEvent(e: Event) {
    && (e.Key? ==> KeyInRange(e.key))
    && (e.Motion? ==> 0 <= e.px < WINDOW_W && 0 <= e.py < WINDOW_H)
  }

  /** updateInputs for one event other than quit. */
  function UpdateInputs(s: Sim, e: Event): (r: Sim)
    requires Consistent(s) && WellFormedEvent(e)
    ensures Consistent(r)
    ensures r.game == s.game && r.temp == s.temp && r.speed == s.speed && r.paused == s.paused
    ensures r.inputs.prev == s.inputs.prev
    ensures e.Key? ==> r.inputs.curr == s.inputs.curr[e.key := e.pressed] && r.cursor == s.cursor
    ensures e.Motion? ==> r.cursor == UpdateMouseRect(s.cursor, e.px, e.py, CELL_W, CELL_H)
    ensures !e.Key? ==> r.inputs == s.inputs
    ensures !e.Motion? ==> r.cursor == s.cursor
  {
    match e
    case Key(key, pressed) => s.(inputs := SetInput(s.inputs, key, pressed))
    case Motion(px, py) =>
      CursorInBoard(s.cursor, px, py);
      s.(cursor := UpdateMouseRect(s.cursor, px, py, CELL_W, CELL_H))
    case _ => s
  }

  /** Whether a quit event occurs in the batch. */
  predicate HasQuit(events: seq<Event>) {
    exists i :: 0 <= i < |events| && events[i].Quit?
  }

  /** The events the poll applies: those before the first quit, or all of them when none quits. */
  function BeforeQuit(events: seq<Event>): (pre: seq<Event>)
    ensures |pre| <= |events| && pre == events[..|pre|]
    ensures forall i :: 0 <= i < |pre| ==> !pre[i].Quit?
    ensures |pre| < |events| ==> events[|pre|].Quit?
    decreases |events|
  {
    if events == [] || events[0].Quit? then []
    else [events[0]] + BeforeQuit(events[1..])
  }

  /** The held state of key after the events: set by the last Key event for it, else d. */
  function LastPress(events: seq<Event>, key: int, d: bool): bool
    decreases |events|
  {
    if events == [] then d
    else
      var e := events[|events| - 1];
      if e.Key? && e.key == key then e.pressed else LastPress(events[..|events| - 1], key, d)
  }

  /** The cursor after the events: the cell under the last pointer position, else c. */
  function LastCursor(events: seq<Event>, c: Cursor): Cursor
    decreases |events|
  {
    if events == [] then c
    else
      var e := events[|events| - 1];
      if e.Motion? then Cursor(e.px / CELL_W, e.py / CELL_H) else LastCursor(events[..|events| - 1], c)
  }

  /** Reading the events from the front: the first event only changes the starting state. */
  lemma {:induction false} LastPressCons(e: Event, rest: seq<Event>, key: int, d: bool)
    ensures LastPress([e] + rest, key, d) ==
      LastPress(rest, key, if e.Key? && e.key == key then e.pressed else d)
    decreases |rest|
  {
    if rest != [] {
      var init := rest[..|rest| - 1];
      assert ([e] + rest)[..|rest|] == [e] + init;
      LastPressCons(e, init, key, d);
    }
  }

  lemma {:induction false} LastCursorCons(e: Event, rest: seq<Event>, c: Cursor)
    ensures LastCursor([e] + rest, c) ==
      LastCursor(rest, if e.Motion? then Cursor(e.px / CELL_W, e.py / CELL_H) else c)
    decreases |rest|
  {
    if rest != [] {
      var init := rest[..|rest| - 1];
      assert ([e] + rest)[..|rest|] == [e] + init;
      LastCursorCons(e, init, c);
    }
  }

  /**
    The event poll: apply the events in order; a quit event ends the poll
    (the events after it are left for later) and ends the main loop after
    this frame. Each input ends held as the last key event before the quit
    left it (unchanged when there is none), the cursor ends on the cell of
    the last pointer position before the quit, and nothing else changes.
  */
  function PollEvents(s: Sim, events: seq<Event>): (r: (Sim, bool))
    requires Consistent(s) && forall i :: 0 <= i < |events| ==> WellFormedEvent(events[i])
    ensures Consistent(r.0)
    ensures r.1 <==> !HasQuit(events)
    ensures r.0.game == s.game && r.0.temp == s.temp && r.0.speed == s.speed && r.0.paused == s.paused
    ensures r.0.inputs.prev == s.inputs.prev
    ensures forall k :: 0 <= k < NUM_INPUTS ==>
      r.0.inputs.curr[k] == LastPress(BeforeQuit(events), k, s.inputs.curr[k])
    ensures r.0.cursor == LastCursor(BeforeQuit(events), s.cursor)
    decreases |events|
  {
    if events == [] then (s, true)
    else if events[0].Quit? then (s, false)
    else
      var e := events[0];
      var s' := UpdateInputs(s, e);
      var r := PollEvents(s', events[1..]);
      assert HasQuit(events[1..]) ==> HasQuit(events) by {
        if HasQuit(events[1..]) {
          var i :| 0 <= i < |events[1..]| && events[1..][i].Quit?;
          assert events[i + 1].Quit?;
        }
      }
      assert BeforeQuit(events) == [e] + BeforeQuit(events[1..]);
      LastCursorCons(e, BeforeQuit(events[1..]), s.cursor);
      assert forall k :: 0 <= k < NUM_INPUTS ==>
        r.0.inputs.curr[k] == LastPress(BeforeQuit(events), k, s.inputs.curr[k]) by {
        forall k | 0 <= k < NUM_INPUTS
          ensures r.0.inputs.curr[k] == LastPress(BeforeQuit(events), k, s.inputs.curr[k])
        {
          LastPressCons(e, BeforeQuit(events[1..]), k, s.inputs.curr[k]);
        }
      }
      r
  }

  /**
    One frame of the main loop. The lag grows by the elapsed time and is
    drained with the tick delay processInputs leaves, in
    floor((lag + elapsed) / speed) steps; the remainder, in [0, speed), is
    carried into the next frame. The ghost mid is
    the state processInputs leaves after the poll: the frame keeps its
    delay, pause flag and cursor, advances its board by the steps unless
    paused, and ends with the inputs' previous state equal to their current
    state, so the next frame's edges compare against this frame.
  */
  method Frame(s: Sim, lag: int, elapsed: int, events: seq<Event>)
    returns (r: Sim, lag': int, going: bool, steps: nat, ghost mid: Sim)
    requires Consistent(s) && 0 <= lag && 0 <= elapsed
    requires forall i :: 0 <= i < |events| ==> WellFormedEvent(events[i])
    ensures Consistent(mid) && Processed(PollEvents(s, events).0, mid)
    ensures Consistent(r)
    ensures r.inputs == EndFrame(mid.inputs) && r.cursor == mid.cursor
    ensures r.speed == mid.speed && r.paused == mid.paused
    ensures mid.paused ==> r.game == mid.game && r.temp == mid.temp
    ensures !mid.paused ==> r.game == Generations(mid.game, steps)
    ensures lag' == lag + elapsed - steps * r.speed && 0 <= lag' < r.speed
    ensures steps == (lag + elapsed) / r.speed
    ensures going <==> !HasQuit(events)
    ensures r.inputs.prev == r.inputs.curr
  {
    var total := lag + elapsed;
    var poll := PollEvents(s, events);
    var polled := poll.0;
    going := poll.1;
    var processed := ProcessInputs(polled);
    mid := processed;
    var snapshot := processed.(inputs := EndFrame(processed.inputs));
    var game, temp;
    game, temp, lag', steps := DrainLag(snapshot.game, snapshot.temp, total, snapshot.speed, snapshot.paused);
    r := snapshot.(game := game, temp := temp);
  }
}

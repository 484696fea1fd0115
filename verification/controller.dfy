/**
  The controller: the pointer-to-cell mapping and processInputs, which turns
  the tracker's level and edge queries into edits of the board, the pause
  flag and the tick interval.
*/
module Controller {
  import opened Board
  import opened Rules
  import opened Engine
  import opened Input

  /** Window size and the pixel size of one cell, fixed at start-up. */
  const WINDOW_W: int := 800
  const WINDOW_H: int := 800
  const CELL_W: int := WINDOW_W / COLS
  const CELL_H: int := WINDOW_H / ROWS

  /** Bounds of the delay between ticks, and the step the arrow keys change it by, in ms. */
  const MIN_SPEED: int := 10
  const MAX_SPEED: int := 1000
  const SPEED_STEP: int := 10

  /** The delay between ticks at start-up: half a second. */
  const INITIAL_SPEED: int := 500

  /** The board cell under the pointer (MouseRect). */
  datatype Cursor = Cursor(x: int, y: int)

  /**
    The state processInputs works on: the current and scratch boards, the
    input tracker, the cursor cell, the delay between ticks in ms (speed;
    lower is faster) and the pause flag.
  */
  datatype Sim = Sim(game: Cells, temp: Cells, inputs: Tracker, cursor: Cursor, speed: int, paused: bool)

  /** What holds of the state between frames. */
  predicate Consistent(s: Sim) {
    && WellFormed(s.game) && WellFormed(s.temp) && Binary(s.game)
    && Input.Valid(s.inputs)
    && InBoard(s.cursor.x, s.cursor.y)
    && MIN_SPEED <= s.speed <= MAX_SPEED
  }

  /** The state after start-up: empty boards, nothing held, cursor at (0, 0), paused. */
  function Init(): (s: Sim)
    ensures Consistent(s)
    ensures s.paused && s.game == Dead() && s.temp == Dead()
    ensures s.inputs == Initial() && s.speed == INITIAL_SPEED && s.cursor == Cursor(0, 0)
  {
    Sim(Dead(), Dead(), Initial(), Cursor(0, 0), INITIAL_SPEED, true)
  }

  // ---------------------------------------------------------------------------
  // Pointer.

  /** C's integer division by a positive divisor, which truncates toward zero. */
  function CDiv(a: int, d: int): (q: int)
    requires 0 < d
    ensures 0 <= a ==> q * d <= a < (q + 1) * d
    ensures a < 0 ==> (q - 1) * d < a <= q * d
    ensures -d < a < d ==> q == 0
  {
    if 0 <= a then
      assert a < d ==> a / d == 0 by {
        if a < d { DivModUnique(a, d, 0, a); }
      }
      a / d
    else
      assert -a < d ==> (-a) / d == 0 by {
        if -a < d { DivModUnique(-a, d, 0, -a); }
      }
      -((-a) / d)
  }

  /**
    updateMouseRect: the cell containing pixel (px, py). When a cell
    dimension is zero (a misconfiguration) the cursor is left unchanged.
  */
  function UpdateMouseRect(c: Cursor, px: int, py: int, cellW: int, cellH: int): (c': Cursor)
    requires 0 <= cellW && 0 <= cellH
    ensures cellW == 0 || cellH == 0 ==> c' == c
    ensures 0 < cellW && 0 < cellH && 0 <= px ==> c'.x * cellW <= px < (c'.x + 1) * cellW
    ensures 0 < cellW && 0 < cellH && 0 <= py ==> c'.y * cellH <= py < (c'.y + 1) * cellH
    ensures 0 < cellW && 0 < cellH && -cellW < px < 0 ==> c'.x == 0
    ensures 0 < cellW && 0 < cellH && -cellH < py < 0 ==> c'.y == 0
  {
    if cellW == 0 || cellH == 0 then c
    else Cursor(CDiv(px, cellW), CDiv(py, cellH))
  }

  /** Every pixel of the window maps to a cell of the board. */
  lemma CursorInBoard(c: Cursor, px: int, py: int)
    requires 0 <= px < WINDOW_W && 0 <= py < WINDOW_H
    ensures var c' := UpdateMouseRect(c, px, py, CELL_W, CELL_H); InBoard(c'.x, c'.y)
  {
    var c' := UpdateMouseRect(c, px, py, CELL_W, CELL_H);
    assert c'.x * 10 <= px && c'.y * 10 <= py;
  }

  // ---------------------------------------------------------------------------
  // The actions of processInputs.

  /** Whether a mouse button is held: painting happens while either is. */
  predicate Painting(t: Tracker)
    requires Input.Valid(t)
  {
    GetInput(t, L_CLICK) || GetInput(t, R_CLICK)
  }

  /**
    Painting, level-triggered: while either button is held the cursor cell
    becomes 1 if the left button is held and 0 otherwise, so the left button
    wins when both are held. Every other cell is untouched.
  */
  function Paint(game: Cells, c: Cursor, t: Tracker): (r: Cells)
    requires WellFormed(game) && Input.Valid(t)
    requires Painting(t) ==> InBoard(c.x, c.y)
    ensures WellFormed(r)
    ensures Painting(t) ==> r[Idx(c.x, c.y)] == (if GetInput(t, L_CLICK) then 1 else 0)
    ensures Painting(t) ==> forall k :: 0 <= k < SIZE && k != Idx(c.x, c.y) ==> r[k] == game[k]
    ensures !Painting(t) ==> r == game
    ensures Binary(game) ==> Binary(r)
  {
    if Painting(t) then game[c.x + c.y * ROWS := if GetInput(t, L_CLICK) then 1 else 0]
    else game
  }

  /**
    The arrow keys, level-triggered: UP shortens the delay by 10 ms down to
    10, DOWN lengthens it by 10 ms up to 1000, and both apply, UP first,
    when both are held.
  */
  function AdjustSpeed(speed: int, up: bool, down: bool): (r: int)
    ensures MIN_SPEED <= speed <= MAX_SPEED ==> MIN_SPEED <= r <= MAX_SPEED
    ensures !up && !down ==> r == speed
    ensures up && !down ==> r == if speed - SPEED_STEP < MIN_SPEED then MIN_SPEED else speed - SPEED_STEP
    ensures down && !up ==> r == if speed + SPEED_STEP > MAX_SPEED then MAX_SPEED else speed + SPEED_STEP
    ensures up && down && MIN_SPEED <= speed <= MAX_SPEED ==> r == if speed < 2 * SPEED_STEP then 2 * SPEED_STEP else speed
  {
    var faster := if up then (if speed - SPEED_STEP < MIN_SPEED then MIN_SPEED else speed - SPEED_STEP) else speed;
    if down then (if faster + SPEED_STEP > MAX_SPEED then MAX_SPEED else faster + SPEED_STEP) else faster
  }

  /** Holding UP long enough reaches the fastest setting and stays there. */
  lemma {:induction false} HoldUpReachesMin(speed: int, frames: nat)
    requires MIN_SPEED <= speed <= MAX_SPEED && (speed - MIN_SPEED) / SPEED_STEP <= frames
    requires speed % SPEED_STEP == 0
    ensures HeldSpeed(speed, true, false, frames) == MIN_SPEED
    decreases frames
  {
    if frames > 0 && speed > MIN_SPEED {
      HoldUpReachesMin(speed - SPEED_STEP, frames - 1);
    } else if frames > 0 {
      HoldUpReachesMin(speed, frames - 1);
    }
  }

  /** The delay after the arrow keys have been held the same way for a number of frames. */
  function HeldSpeed(speed: int, up: bool, down: bool, frames: nat): int
    decreases frames
  {
    if frames == 0 then speed else HeldSpeed(AdjustSpeed(speed, up, down), up, down, frames - 1)
  }

  /**
    The edge-triggered board actions at the end of processInputs: on a
    rising ENTER clear both boards and pause; then, on a rising S while
    paused, tick once.
  */
  method ClearThenStep(game: Cells, temp: Cells, paused: bool, enter: bool, step: bool)
    returns (game': Cells, temp': Cells, paused': bool)
    requires WellFormed(game) && WellFormed(temp)
    ensures WellFormed(game') && WellFormed(temp')
    ensures paused' == (paused || enter)
    ensures enter ==> game' == Dead() && temp' == Dead()
    ensures !enter && !(step && paused) ==> game' == game && temp' == temp
    ensures !enter && step && paused ==> temp' == game && (Binary(game) ==> game' == NextGen(game))
    ensures Binary(game) ==> Binary(game')
  {
    game', temp', paused' := game, temp, paused;
    if enter {
      game', temp' := Clear(game', temp');
      paused' := true;
    }
    if step && paused' {
      var before := game';
      game', temp' := Tick(game', temp');
      if Binary(before) {
        TickIsNextGen(before, game');
      }
      if enter {
        NextGenDead();
      }
    }
  }

  /**
    What processInputs makes of state s, in the program's fixed order: the
    cursor cell is painted, the delay is adjusted by the arrow keys, a rising
    ENTER clears both boards and pauses; otherwise the pause flips on a
    rising SPACE, and a rising S while paused ticks the painted board once.
  */
  predicate Processed(s: Sim, r: Sim)
    requires WellFormed(s.game) && Input.Valid(s.inputs)
    requires Painting(s.inputs) ==> InBoard(s.cursor.x, s.cursor.y)
  {
    var t := s.inputs;
    var painted := Paint(s.game, s.cursor, t);
    && r.inputs == t && r.cursor == s.cursor
    && r.speed == AdjustSpeed(s.speed, GetInput(t, UP_ARROW), GetInput(t, DOWN_ARROW))
    && (GetFirstInput(t, ENTER) ==> r.paused && r.game == Dead() && r.temp == Dead())
    && (!GetFirstInput(t, ENTER) ==> r.paused == (s.paused != GetFirstInput(t, SPACE)))
    && (!GetFirstInput(t, ENTER) && !(GetFirstInput(t, S) && r.paused) ==>
          r.game == painted && r.temp == s.temp)
    && (!GetFirstInput(t, ENTER) && GetFirstInput(t, S) && r.paused ==>
          r.temp == painted && (Binary(s.game) ==> r.game == NextGen(painted)))
  }

  /** processInputs: one pass of the actions above, keeping the state consistent. */
  method ProcessInputs(s: Sim) returns (r: Sim)
    requires WellFormed(s.game) && WellFormed(s.temp) && Input.Valid(s.inputs)
    requires Painting(s.inputs) ==> InBoard(s.cursor.x, s.cursor.y)
    ensures WellFormed(r.game) && WellFormed(r.temp)
    ensures Processed(s, r)
    ensures Consistent(s) ==> Consistent(r)
  {
    var t := s.inputs;
    var game := s.game;
    if GetInput(t, L_CLICK) || GetInput(t, R_CLICK) {
      game := game[s.cursor.x + s.cursor.y * ROWS := if GetInput(t, L_CLICK) then 1 else 0];
    }
    assert game == Paint(s.game, s.cursor, t);
    var paused := s.paused;
    if GetFirstInput(t, SPACE) {
      paused := !paused;
    }
    var speed := s.speed;
    if GetInput(t, UP_ARROW) {
      speed := speed - 10;
      if speed < 10 {
        speed := 10;
      }
    }
    if GetInput(t, DOWN_ARROW) {
      speed := speed + 10;
      if speed > 1000 {
        speed := 1000;
      }
    }
    var temp;
    game, temp, paused := ClearThenStep(game, s.temp, paused, GetFirstInput(t, ENTER), GetFirstInput(t, S));
    r := Sim(game, temp, t, s.cursor, speed, paused);
  }
}

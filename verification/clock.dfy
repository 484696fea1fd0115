/**
  The fixed-timestep simulation clock: elapsed time accumulates in a lag
  counter that is drained in steps of the tick delay, ticking once per step
  unless paused.
*/
module Clock {
  import opened Board
  import opened Rules
  import opened Engine

  /** One more tick after n ticks is NextGen of the board after n ticks. */
  lemma {:induction false} GenerationsStep(b: Cells, n: nat)
    requires WellFormed(b)
    ensures Generations(b, n + 1) == NextGen(Generations(b, n))
    decreases n
  {
    if n > 0 {
      GenerationsStep(NextGen(b), n - 1);
    }
  }

  /**
    The drain loop of the main loop: while lag >= speed, tick unless paused
    and take speed off the lag. It runs floor(lag / speed) times for a
    non-negative lag, leaving the remainder; paused, it leaves the boards
    alone, and unpaused, a 0/1 board advances by that many generations.
  */
  method DrainLag(game: Cells, temp: Cells, lag: int, speed: int, paused: bool)
    returns (game': Cells, temp': Cells, lag': int, steps: nat)
    requires WellFormed(game) && WellFormed(temp) && 0 < speed
    ensures WellFormed(game') && WellFormed(temp')
    ensures lag' == lag - steps * speed && lag' < speed
    ensures 0 <= lag ==> 0 <= lag' && steps == lag / speed
    ensures lag < 0 ==> steps == 0
    ensures paused ==> game' == game && temp' == temp
    ensures !paused && Binary(game) ==> game' == Generations(game, steps)
    ensures Binary(game) ==> Binary(game')
  {
    game', temp', lag', steps := game, temp, lag, 0;
    while lag' >= speed
      invariant WellFormed(game') && WellFormed(temp')
      invariant lag' == lag - steps * speed
      invariant 0 <= lag ==> 0 <= lag'
      invariant lag < 0 ==> steps == 0
      invariant paused ==> game' == game && temp' == temp
      invariant !paused && Binary(game) ==> game' == Generations(game, steps)
      invariant Binary(game) ==> Binary(game')
      decreases lag'
    {
      if !paused {
        var before := game';
        game', temp' := Tick(game', temp');
        if Binary(game) {
          TickIsNextGen(before, game');
          GenerationsStep(game, steps);
        }
      }
      lag' := lag' - speed;
      steps := steps + 1;
    }
    if 0 <= lag {
      DivModUnique(lag, speed, steps, lag');
    }
  }
}

/** The session loop: a cooperative loop that, on each pass, reads the
    millisecond clock, advances the obstacles when 2000 ms have passed since
    they last moved, applies the key pressed (if any), and redraws the
    display when 100 ms have passed since the last redraw. The loop ends
    when the frog has no lives left or stands in the goal lane.

    The clock, the keypad and the display are outside the model: each pass
    is given the clock reading and the key as an `Input`, and the redraw is
    reported as a flag rather than performed. */
module Session {

  import opened Wrappers
  import opened Board
  import opened GameState
  import opened Setup
  import opened Obstacles
  import opened Movement

  /** The clock and the time stamps are 32-bit unsigned millisecond counts. */
  const ClockModulus: nat := 0x1_0000_0000

  const ObstaclePeriod: nat := 2000
  const DisplayPeriod: nat := 100

  /** Milliseconds from `last` to `now`, as 32-bit unsigned subtraction. */
  function Elapsed(now: nat, last: nat): (d: nat)
    requires now < ClockModulus && last < ClockModulus
    ensures d < ClockModulus
  {
    (now - last) % ClockModulus
  }

  /** The wrapped difference is the plain difference when the clock has not
      wrapped since `last`, and the difference across the wrap otherwise. */
  lemma ElapsedCases(now: nat, last: nat)
    requires now < ClockModulus && last < ClockModulus
    ensures now >= last ==> Elapsed(now, last) == now - last
    ensures now < last ==> Elapsed(now, last) == now + ClockModulus - last
  {
  }

  /** Reading the clock through its 32-bit counter measures true elapsed
      time correctly, wrap or no wrap, as long as less than 2^32 ms pass. */
  lemma ElapsedAcrossWrap(t0: nat, t1: nat)
    requires t0 <= t1 < t0 + ClockModulus
    ensures Elapsed(t1 % ClockModulus, t0 % ClockModulus) == t1 - t0
  {
    var q0, q1 := t0 / ClockModulus, t1 / ClockModulus;
    assert t0 == q0 * ClockModulus + t0 % ClockModulus;
    assert t1 == q1 * ClockModulus + t1 % ClockModulus;
    if t1 % ClockModulus >= t0 % ClockModulus {
      assert q1 == q0;
    } else {
      assert q1 == q0 + 1;
    }
    ElapsedCases(t1 % ClockModulus, t0 % ClockModulus);
  }

  /** The keypad keys that move the frog: '8' up, '2' down, '4' left,
      '6' right. Every other key, and no key at all, moves nothing. */
  function KeyDirection(key: char): (d: Option<nat>)
    ensures d.Some? <==> key in {'8', '2', '4', '6'}
    ensures d.Some? ==> d.value <= DirRight
  {
    match key
    case '8' => Some(DirUp)
    case '2' => Some(DirDown)
    case '4' => Some(DirLeft)
    case '6' => Some(DirRight)
    case _ => None
  }

  /** The key for each direction. */
  function DirectionKey(dir: nat): char
    requires dir <= DirRight
  {
    ['8', '2', '4', '6'][dir]
  }

  /** The key map and its inverse undo each other. */
  lemma KeyDirectionRoundTrip(key: char, dir: nat)
    requires dir <= DirRight
    ensures KeyDirection(DirectionKey(dir)) == Some(dir)
    ensures KeyDirection(key).Some? ==> DirectionKey(KeyDirection(key).value) == key
  {
  }

  /** The loop's state: the game and the two cadence stamps. */
  datatype State = State(game: Game, lastUpdate: nat, lastObstacleUpdate: nat)

  predicate ValidState(s: State)
  {
    Valid(s.game) && s.lastUpdate < ClockModulus && s.lastObstacleUpdate < ClockModulus
  }

  /** What the loop is given on one pass: the raw clock reading and the key. */
  datatype Input = Input(clock: nat, key: char)

  /** The state after one pass, and whether that pass redrew the display. */
  datatype StepResult = StepResult(state: State, redrawn: bool)

  /** A fresh session: setup, then both stamps at zero. */
  function Start(rolls: seq<nat>): (s: State)
    requires |rolls| >= NumUp + NumDown
    ensures s.game == InitGame(rolls) && s.lastUpdate == 0 && s.lastObstacleUpdate == 0
    ensures ValidState(s) && Inv(s.game) && Running(s.game)
  {
    InitGameSatisfiesInv(rolls);
    State(InitGame(rolls), 0, 0)
  }

  /** One pass of the session loop. */
  function Step(s: State, input: Input): (res: StepResult)
    requires ValidState(s)
    ensures ValidState(res.state)
    ensures res.state.game == match KeyDirection(input.key)
      case Some(dir) => MoveFrog(AfterTick(s, input), dir)
      case None => AfterTick(s, input)
    ensures var now := input.clock % ClockModulus;
      && (Elapsed(now, s.lastObstacleUpdate) >= ObstaclePeriod ==> res.state.lastObstacleUpdate == now)
      && (Elapsed(now, s.lastObstacleUpdate) < ObstaclePeriod ==> res.state.lastObstacleUpdate == s.lastObstacleUpdate)
      && (res.redrawn <==> Elapsed(now, s.lastUpdate) >= DisplayPeriod)
      && res.state.lastUpdate == (if res.redrawn then now else s.lastUpdate)
  {
    var now := input.clock % ClockModulus;
    var tick := Elapsed(now, s.lastObstacleUpdate) >= ObstaclePeriod;
    var g1 := if tick then s.game.(board := Tick(s.game.board)) else s.game;
    var g2 := match KeyDirection(input.key)
      case Some(dir) => MoveFrog(g1, dir)
      case None => g1;
    var redraw := Elapsed(now, s.lastUpdate) >= DisplayPeriod;
    StepResult(
      State(g2, if redraw then now else s.lastUpdate, if tick then now else s.lastObstacleUpdate),
      redraw)
  }

  /** The game after the pass's obstacle tick, before its key is applied:
      the board is ticked exactly when 2000 ms have passed on the 32-bit
      clock since the obstacles last moved; position and lives are kept. */
  function AfterTick(s: State, input: Input): (g: Game)
    requires ValidState(s)
    ensures Valid(g) && g.x == s.game.x && g.y == s.game.y && g.lives == s.game.lives
    ensures g.board == if Elapsed(input.clock % ClockModulus, s.lastObstacleUpdate) >= ObstaclePeriod
      then Tick(s.game.board) else s.game.board
  {
    if Elapsed(input.clock % ClockModulus, s.lastObstacleUpdate) >= ObstaclePeriod
    then s.game.(board := Tick(s.game.board))
    else s.game
  }

  /** The pass's key moves the frog into an obstacle. */
  predicate StepCollides(s: State, input: Input)
    requires ValidState(s)
  {
    var d := KeyDirection(input.key);
    d.Some? && Collides(AfterTick(s, input), d.value)
  }

  /** A pass keeps the session invariant while the frog has lives; lives
      drop by one exactly on a colliding pass and are kept otherwise; an
      unmapped key leaves position and lives as they were. */
  lemma StepPreservesInv(s: State, input: Input)
    requires ValidState(s) && Inv(s.game) && s.game.lives > 0
    ensures Inv(Step(s, input).state.game)
    ensures Step(s, input).state.game.lives == if StepCollides(s, input) then s.game.lives - 1 else s.game.lives
    ensures KeyDirection(input.key).None? ==>
      Step(s, input).state.game.x == s.game.x && Step(s, input).state.game.y == s.game.y
  {
    var g1 := AfterTick(s, input);
    if Elapsed(input.clock % ClockModulus, s.lastObstacleUpdate) >= ObstaclePeriod {
      TickPreservesInv(s.game);
    }
    assert Inv(g1);
    match KeyDirection(input.key)
    case Some(dir) =>
      MovePreservesInv(g1, dir);
    case None =>
  }

  /** Runs the loop over the given passes until it stops or the passes run
      out. The loop only keeps going while the frog has lives and has not
      reached the goal lane. */
  function Run(s: State, inputs: seq<Input>): (f: State)
    requires ValidState(s)
    ensures ValidState(f)
    ensures !Running(s.game) ==> f == s
    decreases |inputs|
  {
    if !Running(s.game) || |inputs| == 0 then s
    else Run(Step(s, inputs[0]).state, inputs[1..])
  }

  /** The number of colliding passes the loop makes over `inputs`. */
  function Collisions(s: State, inputs: seq<Input>): nat
    requires ValidState(s)
    decreases |inputs|
  {
    if !Running(s.game) || |inputs| == 0 then 0
    else (if StepCollides(s, inputs[0]) then 1 else 0) + Collisions(Step(s, inputs[0]).state, inputs[1..])
  }

  /** Over a run, the invariant holds throughout and the lives lost are
      exactly the colliding passes: no life is ever lost any other way, in
      particular not when an obstacle moves onto the frog. */
  lemma {:induction false} RunLives(s: State, inputs: seq<Input>)
    requires ValidState(s) && Inv(s.game)
    ensures Inv(Run(s, inputs).game)
    ensures Run(s, inputs).game.lives + Collisions(s, inputs) == s.game.lives
    decreases |inputs|
  {
    if Running(s.game) && |inputs| > 0 {
      StepPreservesInv(s, inputs[0]);
      RunLives(Step(s, inputs[0]).state, inputs[1..]);
    }
  }

  /** When the loop has stopped, exactly one of its two exit conditions
      holds. A loss has the frog short of the goal lane; a win has it in the
      goal lane with lives left. So the outcome is a win exactly when lives
      remain. */
  lemma StoppedOutcome(g: Game)
    requires Inv(g) && !Running(g) && (g.lives == 0 ==> g.x < GoalColumn)
    ensures OutcomeOf(g) == Win <==> g.lives > 0
    ensures OutcomeOf(g) == Win <==> g.x == GoalColumn
  {
  }

  /** A pass that takes the last life leaves the frog short of the goal lane. */
  lemma StepLossShortOfGoal(s: State, input: Input)
    requires ValidState(s) && Inv(s.game) && s.game.lives > 0
    ensures Step(s, input).state.game.lives == 0 ==> Step(s, input).state.game.x < GoalColumn
  {
    StepPreservesInv(s, input);
    if StepCollides(s, input) {
      var dir := KeyDirection(input.key).value;
      var g1 := AfterTick(s, input);
      if Elapsed(input.clock % ClockModulus, s.lastObstacleUpdate) >= ObstaclePeriod {
        TickPreservesInv(s.game);
      }
      CollisionOnlyInInterior(g1, dir);
      assert Step(s, input).state.game == MoveFrog(g1, dir);
    }
  }

  /** A run that reaches zero lives stops short of the goal lane. */
  lemma {:induction false} RunLossShortOfGoal(s: State, inputs: seq<Input>)
    requires ValidState(s) && Inv(s.game) && (s.game.lives == 0 ==> s.game.x < GoalColumn)
    ensures Run(s, inputs).game.lives == 0 ==> Run(s, inputs).game.x < GoalColumn
    decreases |inputs|
  {
    if Running(s.game) && |inputs| > 0 {
      StepPreservesInv(s, inputs[0]);
      StepLossShortOfGoal(s, inputs[0]);
      RunLossShortOfGoal(Step(s, inputs[0]).state, inputs[1..]);
    }
  }

  /** A session starts with three lives, so it ends in a loss exactly when
      its third collision happens, and never has more than three. */
  lemma ThirdCollisionLoses(rolls: seq<nat>, inputs: seq<Input>)
    requires |rolls| >= NumUp + NumDown
    ensures Collisions(Start(rolls), inputs) <= StartLives
    ensures Collisions(Start(rolls), inputs) == StartLives <==> Run(Start(rolls), inputs).game.lives == 0
    ensures Collisions(Start(rolls), inputs) == StartLives ==>
      !Running(Run(Start(rolls), inputs).game) && OutcomeOf(Run(Start(rolls), inputs).game) == Lose
  {
    var s := Start(rolls);
    RunLives(s, inputs);
    RunLossShortOfGoal(s, inputs);
  }

  /** Plays one session from setup over the given passes. The outcome is
      `None` while the session is still running when the passes run out;
      otherwise it is the message the loop's exit shows. */
  method PlaySession(rolls: seq<nat>, inputs: seq<Input>) returns (g: Game, outcome: Option<Outcome>)
    requires |rolls| >= NumUp + NumDown
    ensures g == Run(Start(rolls), inputs).game
    ensures Inv(g)
    ensures outcome.Some? <==> !Running(g)
    ensures outcome == Some(Lose) <==> g.lives == 0
    ensures outcome == Some(Win) <==> g.x == GoalColumn && g.lives > 0
  {
    var s := Start(rolls);
    var i := 0;
    while i < |inputs| && Running(s.game)
      invariant 0 <= i <= |inputs|
      invariant ValidState(s) && Inv(s.game)
      invariant s.game.lives == 0 ==> s.game.x < GoalColumn
      invariant Run(s, inputs[i..]) == Run(Start(rolls), inputs)
      decreases |inputs| - i
    {
      var input := inputs[i];
      StepPreservesInv(s, input);
      StepLossShortOfGoal(s, input);
      assert inputs[i..][1..] == inputs[i + 1..];
      s := Step(s, input).state;
      i := i + 1;
    }
    g := s.game;
    if Running(g) {
      outcome := None;
    } else {
      StoppedOutcome(g);
      outcome := Some(OutcomeOf(g));
    }
  }
}

/**
 * The game as the source keeps it: three records updated in place through
 * pointers (the game state, the snake and the fruit), changed once per frame
 * by SnakeUpdate and then FruitUpdate, and reset by Restart. Each procedure
 * is proved to take the three objects to the state the matching function of
 * Rules gives.
 */
module SnakeGame {
  import opened Grid
  import opened Rules
  import opened Properties

  class GameState {
    var score: int
    var scoreToGive: int
    var scoreTick: nat
    var scoreColour: Colour
    var scoreColourTimer: nat
    var showScoreColour: bool
    var timer: nat
    var timerCount: int
    var isDead: bool

    constructor ()
      ensures score == 0 && scoreToGive == StartBonus && scoreTick == 0
      ensures scoreColour == White && scoreColourTimer == 0 && !showScoreColour
      ensures timer == 0 && timerCount == StartInterval && !isDead
    {
      score, scoreToGive, scoreTick := 0, StartBonus, 0;
      scoreColour, scoreColourTimer, showScoreColour := White, 0, false;
      timer, timerCount, isDead := 0, StartInterval, false;
    }
  }

  class Snake {
    /** Segment 0 is the head. */
    var body: seq<Pos>
    var dir: Dir
    var nextDir: Dir

    /** A body of one zero segment, heading up. */
    constructor ()
      ensures body == [Pos(0, 0)] && dir == Up && nextDir == Up
    {
      body := [Pos(0, 0)];
      dir, nextDir := Up, Up;
    }
  }

  class Fruit {
    var tick: nat
    var pos: Pos

    constructor (cell: Cell)
      ensures tick == 0 && pos == CellPos(cell)
    {
      tick, pos := 0, CellPos(cell);
    }
  }

  /** The three records, as one value. */
  function Snapshot(state: GameState, snake: Snake, fruit: Fruit): World
    reads state, snake, fruit
  {
    World(snake.body, snake.dir, snake.nextDir,
          state.score, state.scoreToGive, state.scoreTick,
          state.scoreColour, state.scoreColourTimer, state.showScoreColour,
          state.timer, state.timerCount, state.isDead,
          fruit.tick, fruit.pos)
  }

  ghost predicate Valid(state: GameState, snake: Snake, fruit: Fruit)
    reads state, snake, fruit
  {
    WellFormed(Snapshot(state, snake, fruit))
  }

  /**
   * The start of the game: the initial records, with a first fruit at
   * launchCell, followed at once by a restart that draws restartCell.
   */
  method NewGame(launchCell: Cell, restartCell: Cell) returns (state: GameState, snake: Snake, fruit: Fruit)
    requires SpawnCell(launchCell) && SpawnCell(restartCell)
    ensures fresh(state) && fresh(snake) && fresh(fruit)
    ensures Valid(state, snake, fruit)
    ensures Snapshot(state, snake, fruit) == Restarted(Launch(launchCell), restartCell)
  {
    state := new GameState();
    snake := new Snake();
    fruit := new Fruit(launchCell);
    Restart(snake, state, fruit, restartCell);
  }

  method Restart(snake: Snake, state: GameState, fruit: Fruit, cell: Cell)
    requires SpawnCell(cell)
    modifies snake, state, fruit
    ensures Valid(state, snake, fruit)
    ensures Snapshot(state, snake, fruit) == Restarted(old(Snapshot(state, snake, fruit)), cell)
  {
    snake.body := [Centre];
    snake.nextDir := Up;

    state.timer := 0;
    state.timerCount := StartInterval;
    state.score := 0;
    state.isDead := false;
    state.scoreToGive := StartBonus;
    state.scoreTick := 0;
    state.scoreColourTimer := 0;
    state.showScoreColour := false;

    fruit.pos := CellPos(cell);
    fruit.tick := 0;
    RestartedWellFormed(old(Snapshot(state, snake, fruit)), cell);
  }

  /**
   * One frame of snake update, given the frame time, the direction keys
   * held, whether the restart key was pressed, and the cell a restart draws.
   */
  method SnakeUpdate(state: GameState, snake: Snake, dt: nat, fruit: Fruit,
                     keys: Keys, restartPressed: bool, cell: Cell)
    requires Valid(state, snake, fruit) && SpawnCell(cell)
    modifies state, snake, fruit
    ensures Valid(state, snake, fruit)
    ensures Snapshot(state, snake, fruit)
            == SnakeStep(old(Snapshot(state, snake, fruit)), dt, keys, restartPressed, cell)
  {
    if restartPressed {
      Restart(snake, state, fruit, cell);
    }
    if state.isDead {
      return;
    }
    ghost var live := Snapshot(state, snake, fruit);

    Steer(state, snake, fruit, dt, keys);
    WrapAround(state, snake, fruit);

    var prev := snake.body[0];

    if state.timerCount <= MinInterval {
      state.timerCount := MinInterval;
    }

    if state.timer >= state.timerCount {
      Advance(state, snake, fruit, prev);
    }
    LiveStepWellFormed(live, dt, keys);
  }

  /** The timer runs, and the first held key that does not reverse the snake is buffered. */
  method Steer(state: GameState, snake: Snake, fruit: Fruit, dt: nat, keys: Keys)
    modifies state, snake
    ensures Snapshot(state, snake, fruit) == Steered(old(Snapshot(state, snake, fruit)), dt, keys)
  {
    state.timer := state.timer + dt;

    if keys.up && snake.dir != Down {
      snake.nextDir := Up;
    } else if keys.down && snake.dir != Up {
      snake.nextDir := Down;
    } else if keys.right && snake.dir != Left {
      snake.nextDir := Right;
    } else if keys.left && snake.dir != Right {
      snake.nextDir := Left;
    }
  }

  /** The head comes back in on the far side of whichever edge it went past. */
  method WrapAround(state: GameState, snake: Snake, fruit: Fruit)
    requires |snake.body| > 0
    modifies snake
    ensures Snapshot(state, snake, fruit) == HeadWrapped(old(Snapshot(state, snake, fruit)))
  {
    if snake.body[0].x > MaxX {
      snake.body := snake.body[0 := snake.body[0].(x := 0)];
    } else if snake.body[0].x < 0 {
      snake.body := snake.body[0 := snake.body[0].(x := MaxX)];
    }
    if snake.body[0].y > MaxY {
      snake.body := snake.body[0 := snake.body[0].(y := HudHeight)];
    } else if snake.body[0].y < HudHeight {
      snake.body := snake.body[0 := snake.body[0].(y := MaxY)];
    }
  }

  /**
   * The move: commit the buffered direction, move the head one cell, then
   * let the body follow. prev is the head's position before the move.
   */
  method Advance(state: GameState, snake: Snake, fruit: Fruit, prev: Pos)
    requires |snake.body| > 0 && prev == snake.body[0]
    modifies state, snake
    ensures Snapshot(state, snake, fruit) == Advanced(old(Snapshot(state, snake, fruit)))
  {
    state.timer := 0;
    snake.dir := snake.nextDir;

    match snake.dir {
      case Up => snake.body := snake.body[0 := snake.body[0].(y := snake.body[0].y - Scl)];
      case Down => snake.body := snake.body[0 := snake.body[0].(y := snake.body[0].y + Scl)];
      case Right => snake.body := snake.body[0 := snake.body[0].(x := snake.body[0].x + Scl)];
      case Left => snake.body := snake.body[0 := snake.body[0].(x := snake.body[0].x - Scl)];
    }
    assert snake.body == old(snake.body)[0 := Moved(prev, snake.dir)];

    Follow(state, snake, fruit, prev);
  }

  /**
   * Follow-the-leader, with the new head already in place: each segment
   * after the head takes the position held by the one before it, passed
   * back through prev, and is compared with the new head before it is
   * overwritten.
   */
  method Follow(state: GameState, snake: Snake, fruit: Fruit, prev: Pos)
    requires |snake.body| > 0
    modifies state, snake
    ensures Snapshot(state, snake, fruit)
            == old(Snapshot(state, snake, fruit)).(
                 body := Shifted([prev] + old(snake.body)[1..], old(snake.body)[0]),
                 isDead := old(state.isDead) || HitsBody(old(snake.body)[0], old(snake.body)))
  {
    ghost var before := [prev] + snake.body[1..];
    ghost var head := snake.body[0];

    var prev := prev;
    for i := 0 to |snake.body|
      invariant Snapshot(state, snake, fruit)
                == old(Snapshot(state, snake, fruit)).(
                     body := FollowedUpTo(before, head, i),
                     isDead := old(state.isDead) || HitsBefore(head, before, i))
      invariant prev == before[if i == 0 then 0 else i - 1]
    {
      if i == 0 {
        continue;
      }
      FollowedStep(before, head, i);
      prev := FollowOne(state, snake, fruit, i, prev);
    }
    assert HitsBefore(head, before, |before|) == HitsBody(head, old(snake.body));
  }

  /** The body part-way through the follow loop: segments before i have moved up, the rest have not. */
  ghost function FollowedUpTo(before: seq<Pos>, head: Pos, i: nat): (r: seq<Pos>)
    requires 0 < |before| && i <= |before|
    ensures |r| == |before|
    ensures i == |before| ==> r == Shifted(before, head)
  {
    var j := if i == 0 then 1 else i;
    [head] + before[..j - 1] + before[j..]
  }

  /** The new head overlaps one of the segments 1 .. i-1. */
  ghost predicate HitsBefore(head: Pos, body: seq<Pos>, i: nat)
    requires i <= |body|
  {
    exists k :: 1 <= k < i && Overlap(head, body[k])
  }

  lemma FollowedStep(before: seq<Pos>, head: Pos, i: nat)
    requires 1 <= i < |before|
    ensures FollowedUpTo(before, head, i)[i] == before[i]
    ensures FollowedUpTo(before, head, i)[i := before[i - 1]] == FollowedUpTo(before, head, i + 1)
    ensures HitsBefore(head, before, i + 1) <==> HitsBefore(head, before, i) || Overlap(head, before[i])
  {
    var r := FollowedUpTo(before, head, i);
    var r' := FollowedUpTo(before, head, i + 1);
    assert r == [head] + before[..i - 1] + before[i..];
    assert r' == [head] + before[..i] + before[i + 1..];
    assert before[..i] == before[..i - 1] + [before[i - 1]];
    assert before[i..] == [before[i]] + before[i + 1..];
  }

  /** One pass of the follow loop: collision test against segment i, then the hand-over. */
  method FollowOne(state: GameState, snake: Snake, fruit: Fruit, i: nat, prev: Pos) returns (cur: Pos)
    requires 1 <= i < |snake.body|
    modifies state, snake
    ensures cur == old(snake.body[i])
    ensures Snapshot(state, snake, fruit)
            == old(Snapshot(state, snake, fruit)).(
                 body := old(snake.body)[i := prev],
                 isDead := old(state.isDead) || Overlap(old(snake.body[0]), cur))
  {
    if Overlap(snake.body[0], snake.body[i]) {
      state.isDead := true;
    }
    cur := snake.body[i];
    snake.body := snake.body[i := prev];
  }

  /**
   * One frame of fruit update, given the frame time and the cells drawn
   * if the fruit is eaten or times out.
   */
  method FruitUpdate(fruit: Fruit, snake: Snake, state: GameState, dt: nat,
                     eatCell: Cell, timeoutCell: Cell)
    requires Valid(state, snake, fruit) && SpawnCell(eatCell) && TimeoutCell(timeoutCell)
    modifies fruit, snake, state
    ensures Valid(state, snake, fruit)
    ensures Snapshot(state, snake, fruit)
            == FruitStep(old(Snapshot(state, snake, fruit)), dt, eatCell, timeoutCell)
  {
    if state.isDead {
      return;
    }
    ghost var start := Snapshot(state, snake, fruit);
    Feed(fruit, snake, state, dt, eatCell);
    EndFlash(state, snake, fruit);
    TimeOut(fruit, snake, state, timeoutCell);
    Decay(state, snake, fruit);
    FruitStepWellFormed(start, dt, eatCell, timeoutCell);
  }

  /** Both timers run; the fruit is eaten if the head overlaps it, otherwise a running highlight ages. */
  method Feed(fruit: Fruit, snake: Snake, state: GameState, dt: nat, eatCell: Cell)
    requires |snake.body| > 0
    modifies fruit, snake, state
    ensures Snapshot(state, snake, fruit) == Fed(old(Snapshot(state, snake, fruit)), dt, eatCell)
  {
    fruit.tick := fruit.tick + dt;
    state.scoreTick := state.scoreTick + dt;
    if Overlap(snake.body[0], fruit.pos) {
      EatFruit(fruit, snake, state, eatCell);
    } else if state.showScoreColour {
      state.scoreColourTimer := state.scoreColourTimer + dt;
    }
  }

  /** Eating: highlight the score, grow by a copy of the tail, move the fruit, speed up, score the bonus. */
  method EatFruit(fruit: Fruit, snake: Snake, state: GameState, eatCell: Cell)
    requires |snake.body| > 0
    modifies fruit, snake, state
    ensures Snapshot(state, snake, fruit) == Eat(old(Snapshot(state, snake, fruit)), eatCell)
  {
    state.scoreColour := Lime;
    state.showScoreColour := true;
    snake.body := snake.body + [snake.body[|snake.body| - 1]];
    fruit.pos := CellPos(eatCell);
    state.timerCount := state.timerCount - SpeedUp;
    fruit.tick := 0;
    state.score := state.score + state.scoreToGive;
    state.scoreToGive := StartBonus;
  }

  /** The highlight ends once it has shown for FlashTime. */
  method EndFlash(state: GameState, snake: Snake, fruit: Fruit)
    modifies state
    ensures Snapshot(state, snake, fruit) == FlashChecked(old(Snapshot(state, snake, fruit)))
  {
    if state.scoreColourTimer >= FlashTime {
      state.showScoreColour := false;
      state.scoreColourTimer := 0;
      state.scoreColour := White;
    }
  }

  /** A fruit left uneaten for FruitTimeout moves to timeoutCell, and the bonus starts again. */
  method TimeOut(fruit: Fruit, snake: Snake, state: GameState, timeoutCell: Cell)
    modifies fruit, state
    ensures Snapshot(state, snake, fruit) == TimeoutChecked(old(Snapshot(state, snake, fruit)), timeoutCell)
  {
    if fruit.tick >= FruitTimeout {
      fruit.tick := 0;
      fruit.pos := CellPos(timeoutCell);
      state.scoreToGive := StartBonus;
    }
  }

  /** Each full BonusPeriod takes one off the bonus. */
  method Decay(state: GameState, snake: Snake, fruit: Fruit)
    modifies state
    ensures Snapshot(state, snake, fruit) == BonusChecked(old(Snapshot(state, snake, fruit)))
  {
    if state.scoreTick >= BonusPeriod {
      state.scoreTick := 0;
      state.scoreToGive := state.scoreToGive - 1;
    }
  }
}

/**
 * The per-frame rules of the game, as functions on one record (World) that
 * gathers the fields of the game state, the snake and the fruit. These are the
 * reference definitions that the methods of SnakeGame, acting on GameState,
 * Snake and Fruit, are proved to implement, and that the lemmas in Properties are about.
 *
 * Time is counted in whole milliseconds: the frame time dt and every timer and
 * threshold of the source (0.3 s, 0.05 s, 0.35 s, 1 s, 15 s).
 */
module Rules {
  import opened Grid

  /** Move interval after a (re)start. */
  const StartInterval: int := 300
  /** Floor of the move interval, and the amount one fruit takes off it. */
  const MinInterval: int := 50
  const SpeedUp: int := 50
  /** How long the score stays highlighted after a fruit is eaten. */
  const FlashTime: int := 350
  /** An uneaten fruit is moved after this long. */
  const FruitTimeout: int := 15000
  /** The bonus for the next fruit drops by one each period. */
  const BonusPeriod: int := 1000
  const StartBonus: int := 15

  /** Which direction keys are down this frame (W or the up arrow for up, and so on). */
  datatype Keys = Keys(up: bool, down: bool, right: bool, left: bool)

  /** The two colours the score is drawn in: normal, and highlighted after eating. */
  datatype Colour = White | Lime

  datatype World = World(
    // the snake: segment 0 is the head
    body: seq<Pos>,
    dir: Dir,
    nextDir: Dir,
    // the game state
    score: int,
    scoreToGive: int,
    scoreTick: nat,
    scoreColour: Colour,
    scoreColourTimer: nat,
    showScoreColour: bool,
    timer: nat,
    timerCount: int,
    isDead: bool,
    // the fruit
    fruitTick: nat,
    fruitPos: Pos)

  /** Where the head is put on a restart: a cell left of and above the window centre. */
  const Centre: Pos := Pos(WinWidth / 2 - Scl, WinHeight / 2 - Scl)

  /**
   * The invariant every reachable state keeps: a non-empty body, and every
   * segment and the fruit on the grid and at most one cell outside the playfield.
   */
  predicate WellFormed(w: World) {
    && |w.body| > 0
    && (forall i :: 0 <= i < |w.body| ==> OnGrid(w.body[i]) && NearPlayfield(w.body[i]))
    && OnGrid(w.fruitPos)
    && NearPlayfield(w.fruitPos)
  }

  /**
   * Direction buffering: the first held key, in the order up, down, right,
   * left, that does not point back along the current direction.
   */
  function Buffered(dir: Dir, nextDir: Dir, keys: Keys): (r: Dir)
    ensures r == nextDir || r != Opposite(dir)
    ensures !keys.up && !keys.down && !keys.right && !keys.left ==> r == nextDir
  {
    if keys.up && dir != Down then Up
    else if keys.down && dir != Up then Down
    else if keys.right && dir != Left then Right
    else if keys.left && dir != Right then Left
    else nextDir
  }

  /** The move interval after the clamp at the start of a live frame. */
  function Interval(timerCount: int): (r: int)
    ensures r >= MinInterval
    ensures timerCount >= MinInterval ==> r == timerCount
  {
    if timerCount <= MinInterval then MinInterval else timerCount
  }

  /** Follow-the-leader: the new head in front, every other segment on the cell of the one before it. */
  function Shifted(body: seq<Pos>, head: Pos): (r: seq<Pos>)
    requires |body| > 0
    ensures |r| == |body| && r[0] == head
    ensures forall i :: 1 <= i < |r| ==> r[i] == body[i - 1]
  {
    [head] + body[..|body| - 1]
  }

  /** The head overlaps some segment other than the head itself. */
  predicate HitsBody(head: Pos, body: seq<Pos>): (r: bool)
    ensures r ==> |body| >= 2
  {
    exists i :: 1 <= i < |body| && Overlap(head, body[i])
  }

  /** The body with only its head wrapped around the edges. */
  function WrapHead(body: seq<Pos>): (r: seq<Pos>)
    requires |body| > 0
    ensures |r| == |body| && r[0] == Wrap(body[0]) && r[1..] == body[1..]
  {
    body[0 := Wrap(body[0])]
  }

  /** The timer runs by the frame time and a held key is buffered. */
  function Steered(w: World, dt: nat, keys: Keys): (r: World)
    ensures r.timer >= w.timer && r.body == w.body && r.dir == w.dir
    ensures r.nextDir == w.nextDir || r.nextDir != Opposite(w.dir)
  {
    w.(timer := w.timer + dt, nextDir := Buffered(w.dir, w.nextDir, keys))
  }

  /** The head is wrapped around the edges; the rest of the body is untouched. */
  function HeadWrapped(w: World): (r: World)
    requires |w.body| > 0
    ensures |r.body| == |w.body| && InPlayfield(r.body[0])
    ensures forall i :: 1 <= i < |r.body| ==> r.body[i] == w.body[i]
  {
    w.(body := WrapHead(w.body))
  }

  /** The move interval is raised to its floor. */
  function Clamped(w: World): (r: World)
    ensures r.timerCount >= MinInterval && r.body == w.body
  {
    w.(timerCount := Interval(w.timerCount))
  }

  /**
   * The move itself: the buffered direction is committed, the head goes one
   * cell that way, the body follows, and the snake dies if the new head
   * overlaps the old position of any segment but the head.
   */
  function Advanced(w: World): (r: World)
    requires |w.body| > 0
    ensures |r.body| == |w.body| && r.dir == r.nextDir == w.nextDir && r.timer == 0
    ensures w.isDead ==> r.isDead
  {
    var head := Moved(w.body[0], w.nextDir);
    w.(body := Shifted(w.body, head), dir := w.nextDir, timer := 0,
       isDead := w.isDead || HitsBody(head, w.body))
  }

  /**
   * One frame of snake update for a live snake: the timer runs, a key is
   * buffered, the head is wrapped, the interval is clamped, and once the
   * timer has reached the interval the snake moves.
   */
  function LiveStep(w: World, dt: nat, keys: Keys): (r: World)
    requires |w.body| > 0
    ensures |r.body| == |w.body| && r.timerCount >= MinInterval
    ensures w.isDead ==> r.isDead
  {
    var ready := Clamped(HeadWrapped(Steered(w, dt, keys)));
    if ready.timer >= ready.timerCount then Advanced(ready) else ready
  }

  /** Restart: everything but the direction and the score colour goes back to its start value. */
  function Restarted(w: World, cell: Cell): World {
    World([Centre], w.dir, Up, 0, StartBonus, 0, w.scoreColour, 0, false, 0, StartInterval, false, 0, CellPos(cell))
  }

  /** The whole snake update of one frame: restart first, then nothing if dead. */
  function SnakeStep(w: World, dt: nat, keys: Keys, restartPressed: bool, cell: Cell): (r: World)
    requires |w.body| > 0
    ensures |r.body| > 0
    ensures restartPressed ==> |r.body| == 1 && !r.isDead
    ensures !restartPressed && w.isDead ==> r == w
  {
    var started := if restartPressed then Restarted(w, cell) else w;
    if started.isDead then started else LiveStep(started, dt, keys)
  }

  /** Eating the fruit: grow by a copy of the tail, score the bonus, speed up, new fruit. */
  function Eat(w: World, cell: Cell): (r: World)
    requires |w.body| > 0
    ensures |r.body| == |w.body| + 1 && r.body[..|w.body|] == w.body
    ensures r.body[|w.body|] == w.body[|w.body| - 1]
  {
    w.(scoreColour := Lime, showScoreColour := true,
       body := w.body + [w.body[|w.body| - 1]],
       fruitPos := CellPos(cell), timerCount := w.timerCount - SpeedUp, fruitTick := 0,
       score := w.score + w.scoreToGive, scoreToGive := StartBonus)
  }

  /**
   * The first part of a fruit update: both timers run, then the fruit is
   * eaten if the head overlaps it; otherwise a running highlight ages.
   */
  function Fed(w: World, dt: nat, eatCell: Cell): (r: World)
    requires |w.body| > 0
    ensures |w.body| <= |r.body| <= |w.body| + 1 && r.body[..|w.body|] == w.body
    ensures r.isDead == w.isDead
  {
    var ticked := w.(fruitTick := w.fruitTick + dt, scoreTick := w.scoreTick + dt);
    if Overlap(w.body[0], w.fruitPos) then Eat(ticked, eatCell)
    else if w.showScoreColour then ticked.(scoreColourTimer := w.scoreColourTimer + dt)
    else ticked
  }

  /** The highlight ends once it has shown for FlashTime. */
  function FlashChecked(w: World): (r: World)
    ensures r.scoreColourTimer < FlashTime && r.body == w.body
  {
    if w.scoreColourTimer >= FlashTime
    then w.(showScoreColour := false, scoreColourTimer := 0, scoreColour := White)
    else w
  }

  /** A fruit left for FruitTimeout moves, and the bonus starts again. */
  function TimeoutChecked(w: World, timeoutCell: Cell): (r: World)
    ensures r.fruitTick < FruitTimeout && r.body == w.body
  {
    if w.fruitTick >= FruitTimeout
    then w.(fruitTick := 0, fruitPos := CellPos(timeoutCell), scoreToGive := StartBonus)
    else w
  }

  /** Each full BonusPeriod takes one off the bonus, with no lower bound. */
  function BonusChecked(w: World): (r: World)
    ensures r.scoreTick < BonusPeriod && r.body == w.body
  {
    if w.scoreTick >= BonusPeriod
    then w.(scoreTick := 0, scoreToGive := w.scoreToGive - 1)
    else w
  }

  /**
   * One frame of fruit update; nothing changes once the snake is dead.
   * eatCell and timeoutCell are the random cells used when the fruit is
   * eaten or times out (at most one of them is used in a frame).
   */
  function FruitStep(w: World, dt: nat, eatCell: Cell, timeoutCell: Cell): (r: World)
    requires |w.body| > 0
    ensures w.isDead ==> r == w
    ensures !w.isDead ==> r.fruitTick < FruitTimeout && r.scoreTick < BonusPeriod && r.scoreColourTimer < FlashTime
  {
    if w.isDead then w
    else BonusChecked(TimeoutChecked(FlashChecked(Fed(w, dt, eatCell)), timeoutCell))
  }

  /** The state main sets up before its first restart. */
  function Launch(cell: Cell): World {
    World([Pos(0, 0)], Up, Up, 0, StartBonus, 0, White, 0, false, 0, StartInterval, false, 0, CellPos(cell))
  }
}

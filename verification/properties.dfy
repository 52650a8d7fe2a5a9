/**
 * What the rules of the game guarantee: the invariant every step keeps, the
 * ban on reversing, movement gating, the follow-the-leader shift, collision,
 * eating, the fruit timeout, the bonus decay, death and restart.
 */
module Properties {
  import opened Grid
  import opened Rules

  // ---------------------------------------------------------------------
  // The invariant

  lemma RestartedWellFormed(w: World, cell: Cell)
    requires SpawnCell(cell)
    ensures WellFormed(Restarted(w, cell))
  {
  }

  /** A move from a wrapped head keeps the invariant. */
  lemma AdvancedWellFormed(w: World)
    requires WellFormed(w) && InPlayfield(w.body[0])
    ensures WellFormed(Advanced(w))
  {
  }

  /** The head is wrapped before it moves, so it never gets more than one cell out. */
  lemma LiveStepWellFormed(w: World, dt: nat, keys: Keys)
    requires WellFormed(w)
    ensures WellFormed(LiveStep(w, dt, keys))
  {
    var ready := Clamped(HeadWrapped(Steered(w, dt, keys)));
    if ready.timer >= ready.timerCount {
      AdvancedWellFormed(ready);
    }
  }

  lemma SnakeStepWellFormed(w: World, dt: nat, keys: Keys, restartPressed: bool, cell: Cell)
    requires WellFormed(w) && SpawnCell(cell)
    ensures WellFormed(SnakeStep(w, dt, keys, restartPressed, cell))
  {
    var started := if restartPressed then Restarted(w, cell) else w;
    if restartPressed {
      RestartedWellFormed(w, cell);
    }
    if !started.isDead {
      LiveStepWellFormed(started, dt, keys);
    }
  }

  lemma FruitStepWellFormed(w: World, dt: nat, eatCell: Cell, timeoutCell: Cell)
    requires WellFormed(w) && SpawnCell(eatCell) && TimeoutCell(timeoutCell)
    ensures WellFormed(FruitStep(w, dt, eatCell, timeoutCell))
  {
  }

  // ---------------------------------------------------------------------
  // Direction buffering

  /** Held keys in the order the source tries them. */
  function KeyOrder(keys: Keys): seq<(bool, Dir)> {
    [(keys.up, Up), (keys.down, Down), (keys.right, Right), (keys.left, Left)]
  }

  /** The candidate is held and does not point back along dir. */
  predicate Eligible(dir: Dir, cand: (bool, Dir)) {
    cand.0 && cand.1 != Opposite(dir)
  }

  /**
   * Reference definition of buffering: the direction of the first eligible
   * candidate, or nextDir when there is none.
   */
  function FirstEligible(dir: Dir, nextDir: Dir, cands: seq<(bool, Dir)>): (r: Dir)
    ensures (exists i :: 0 <= i < |cands| && Eligible(dir, cands[i]))
            ==> exists i :: 0 <= i < |cands| && Eligible(dir, cands[i]) && cands[i].1 == r
    ensures r == nextDir || exists i :: 0 <= i < |cands| && Eligible(dir, cands[i]) && cands[i].1 == r
  {
    if |cands| == 0 then nextDir
    else if Eligible(dir, cands[0]) then cands[0].1
    else
      var r := FirstEligible(dir, nextDir, cands[1..]);
      assert forall i :: 1 <= i < |cands| ==> cands[i] == cands[1..][i - 1];
      r
  }

  lemma FirstEligibleCons(dir: Dir, nextDir: Dir, cand: (bool, Dir), rest: seq<(bool, Dir)>)
    ensures FirstEligible(dir, nextDir, [cand] + rest)
            == if Eligible(dir, cand) then cand.1 else FirstEligible(dir, nextDir, rest)
  {
    assert ([cand] + rest)[1..] == rest;
  }

  /** Buffering picks the first eligible key in the order up, down, right, left. */
  lemma BufferedIsFirstEligible(dir: Dir, nextDir: Dir, keys: Keys)
    ensures Buffered(dir, nextDir, keys) == FirstEligible(dir, nextDir, KeyOrder(keys))
  {
    var left := [(keys.left, Left)];
    var right := [(keys.right, Right)] + left;
    var down := [(keys.down, Down)] + right;
    assert KeyOrder(keys) == [(keys.up, Up)] + down;
    FirstEligibleCons(dir, nextDir, (keys.left, Left), []);
    assert left == [(keys.left, Left)] + [];
    FirstEligibleCons(dir, nextDir, (keys.right, Right), left);
    FirstEligibleCons(dir, nextDir, (keys.down, Down), right);
    FirstEligibleCons(dir, nextDir, (keys.up, Up), down);
    match dir {
      case Up =>
      case Down =>
      case Right =>
      case Left =>
    }
  }

  // ---------------------------------------------------------------------
  // Snake update

  /** A snake that has not queued a reversal never queues or commits one. */
  lemma LiveStepNeverReverses(w: World, dt: nat, keys: Keys)
    requires |w.body| > 0 && w.nextDir != Opposite(w.dir)
    ensures LiveStep(w, dt, keys).nextDir != Opposite(LiveStep(w, dt, keys).dir)
    ensures LiveStep(w, dt, keys).dir != Opposite(w.dir)
  {
  }

  /**
   * Restart queues Up but keeps dir, so a snake that was heading down when
   * restarted turns straight round on its first move, unless a down, right
   * or left key is held (the up key is refused while the direction is down).
   */
  lemma RestartMayReverse(w: World, cell: Cell, keys: Keys)
    requires w.dir == Down && !keys.down && !keys.right && !keys.left
    ensures Restarted(w, cell).nextDir == Opposite(Restarted(w, cell).dir)
    ensures LiveStep(Restarted(w, cell), StartInterval, keys).dir == Opposite(w.dir)
  {
  }

  /**
   * Movement gating: the interval is first raised to its floor, and the head
   * leaves its (wrapped) cell exactly when the timer has reached the interval.
   */
  lemma MovesIffDue(w: World, dt: nat, keys: Keys)
    requires |w.body| > 0
    ensures |LiveStep(w, dt, keys).body| == |w.body|
    ensures LiveStep(w, dt, keys).timerCount == Interval(w.timerCount)
    ensures LiveStep(w, dt, keys).body[0] != Wrap(w.body[0]) <==> w.timer + dt >= Interval(w.timerCount)
  {
  }

  /** Before the timer is due the body is unchanged apart from the head wrap, and nothing dies. */
  lemma WaitingKeepsBody(w: World, dt: nat, keys: Keys)
    requires |w.body| > 0 && w.timer + dt < Interval(w.timerCount)
    ensures LiveStep(w, dt, keys).body == w.body[0 := Wrap(w.body[0])]
    ensures LiveStep(w, dt, keys).dir == w.dir
    ensures LiveStep(w, dt, keys).timer == w.timer + dt
    ensures LiveStep(w, dt, keys).isDead == w.isDead
  {
  }

  /**
   * A move commits the buffered direction and resets the timer; the head
   * goes one cell from its wrapped position, segment 1 takes that wrapped
   * position, and every later segment the old position of the one before it.
   */
  lemma MoveShiftsBody(w: World, dt: nat, keys: Keys)
    requires |w.body| > 0 && w.timer + dt >= Interval(w.timerCount)
    ensures |LiveStep(w, dt, keys).body| == |w.body|
    ensures LiveStep(w, dt, keys).dir == LiveStep(w, dt, keys).nextDir == Buffered(w.dir, w.nextDir, keys)
    ensures LiveStep(w, dt, keys).timer == 0
    ensures LiveStep(w, dt, keys).body[0] == Moved(Wrap(w.body[0]), LiveStep(w, dt, keys).dir)
    ensures |w.body| > 1 ==> LiveStep(w, dt, keys).body[1] == Wrap(w.body[0])
    ensures forall i :: 2 <= i < |w.body| ==> LiveStep(w, dt, keys).body[i] == w.body[i - 1]
  {
  }

  /**
   * On a move the snake dies exactly when the new head lands on the position
   * some other segment held before the shift (the tail's old cell included).
   */
  lemma MoveCollision(w: World, dt: nat, keys: Keys)
    requires WellFormed(w) && !w.isDead && w.timer + dt >= Interval(w.timerCount)
    ensures LiveStep(w, dt, keys).isDead
            <==> exists i :: 1 <= i < |w.body| && LiveStep(w, dt, keys).body[0] == w.body[i]
  {
    var ready := Clamped(HeadWrapped(Steered(w, dt, keys)));
    var head := Moved(ready.body[0], ready.nextDir);
    forall i | 1 <= i < |w.body|
      ensures Overlap(head, w.body[i]) <==> head == w.body[i]
    {
      OverlapIsSameCell(head, w.body[i]);
    }
  }

  // ---------------------------------------------------------------------
  // Death and restart

  /** While the snake is dead the snake update changes nothing unless the restart key is pressed. */
  lemma DeadSnakeFrozen(w: World, dt: nat, keys: Keys, cell: Cell)
    requires |w.body| > 0 && w.isDead
    ensures SnakeStep(w, dt, keys, false, cell) == w
  {
  }

  /** While the snake is dead the fruit update changes nothing. */
  lemma DeadFruitFrozen(w: World, dt: nat, eatCell: Cell, timeoutCell: Cell)
    requires |w.body| > 0 && w.isDead
    ensures FruitStep(w, dt, eatCell, timeoutCell) == w
  {
  }

  /** The restart key is handled first: a restarted snake, dead or not, then has a live frame. */
  lemma RestartComesFirst(w: World, dt: nat, keys: Keys, cell: Cell)
    requires |w.body| > 0
    ensures SnakeStep(w, dt, keys, true, cell) == LiveStep(Restarted(w, cell), dt, keys)
    ensures !SnakeStep(w, dt, keys, true, cell).isDead
  {
  }

  /** The values restart sets. */
  lemma RestartValues(w: World, cell: Cell)
    ensures Restarted(w, cell).body == [Pos(195, 315)]
    ensures Restarted(w, cell).nextDir == Up && Restarted(w, cell).timer == 0
    ensures Restarted(w, cell).timerCount == StartInterval && Restarted(w, cell).score == 0
    ensures !Restarted(w, cell).isDead && Restarted(w, cell).scoreToGive == StartBonus
    ensures Restarted(w, cell).scoreTick == 0 && Restarted(w, cell).fruitTick == 0
    ensures Restarted(w, cell).fruitPos == CellPos(cell)
    ensures Restarted(w, cell).scoreColourTimer == 0 && !Restarted(w, cell).showScoreColour
  {
  }

  /** Restart forgets everything about the old game but its direction and score colour. */
  lemma RestartForgets(w: World, v: World, cell: Cell)
    ensures Restarted(w, cell).dir == w.dir && Restarted(w, cell).scoreColour == w.scoreColour
    ensures w.dir == v.dir && w.scoreColour == v.scoreColour ==> Restarted(w, cell) == Restarted(v, cell)
    ensures Restarted(Restarted(w, cell), cell) == Restarted(w, cell)
  {
  }

  // ---------------------------------------------------------------------
  // Fruit update

  /**
   * Eating: the snake grows by a copy of its old tail, the old bonus is
   * scored, the interval drops by SpeedUp, the fruit moves to eatCell with a
   * fresh tick, the bonus starts again (less one if a second also ran out
   * this frame) and the score is highlighted.
   */
  lemma EatGrows(w: World, dt: nat, eatCell: Cell, timeoutCell: Cell)
    requires |w.body| > 0 && !w.isDead && Overlap(w.body[0], w.fruitPos)
    requires w.scoreColourTimer < FlashTime
    ensures var r := FruitStep(w, dt, eatCell, timeoutCell);
            && |r.body| == |w.body| + 1
            && r.body[..|w.body|] == w.body
            && r.body[|w.body|] == w.body[|w.body| - 1]
            && r.score == w.score + w.scoreToGive
            && r.timerCount == w.timerCount - SpeedUp
            && r.fruitTick == 0
            && r.fruitPos == CellPos(eatCell)
            && r.scoreToGive == (if w.scoreTick + dt >= BonusPeriod then StartBonus - 1 else StartBonus)
            && r.showScoreColour && r.scoreColour == Lime
  {
  }

  /**
   * Without eating, the body, score and interval stay; the fruit moves to
   * timeoutCell, with a fresh tick, exactly when it has waited FruitTimeout.
   */
  lemma NoEatKeepsBody(w: World, dt: nat, eatCell: Cell, timeoutCell: Cell)
    requires |w.body| > 0 && !w.isDead && !Overlap(w.body[0], w.fruitPos)
    ensures var r := FruitStep(w, dt, eatCell, timeoutCell);
            && r.body == w.body && r.score == w.score && r.timerCount == w.timerCount
            && r.fruitPos == (if w.fruitTick + dt >= FruitTimeout then CellPos(timeoutCell) else w.fruitPos)
            && r.fruitTick == (if w.fruitTick + dt >= FruitTimeout then 0 else w.fruitTick + dt)
  {
  }

  /**
   * The bonus: reset to StartBonus by eating or by a timeout, then one less
   * for each full BonusPeriod, with no lower bound.
   */
  lemma BonusDecay(w: World, dt: nat, eatCell: Cell, timeoutCell: Cell)
    requires |w.body| > 0 && !w.isDead
    ensures var r := FruitStep(w, dt, eatCell, timeoutCell);
            var reset := Overlap(w.body[0], w.fruitPos) || w.fruitTick + dt >= FruitTimeout;
            var due := w.scoreTick + dt >= BonusPeriod;
            && r.scoreToGive == (if reset then StartBonus else w.scoreToGive) - (if due then 1 else 0)
            && r.scoreTick == (if due then 0 else w.scoreTick + dt)
  {
  }

  /** The bonus has no floor: it goes below zero if nothing resets it. */
  lemma BonusGoesNegative(w: World, eatCell: Cell, timeoutCell: Cell)
    requires |w.body| > 0 && !w.isDead && !Overlap(w.body[0], w.fruitPos)
    requires w.scoreToGive == 0 && w.fruitTick + BonusPeriod < FruitTimeout
    ensures FruitStep(w, BonusPeriod, eatCell, timeoutCell).scoreToGive < 0
  {
    BonusDecay(w, BonusPeriod, eatCell, timeoutCell);
  }

  // ---------------------------------------------------------------------
  // The score highlight

  /**
   * The highlight's bookkeeping: its timer stays below FlashTime and runs
   * only while it is shown, and while shown the score is Lime.
   */
  predicate FlashSane(w: World) {
    && w.scoreColourTimer < FlashTime
    && (!w.showScoreColour ==> w.scoreColourTimer == 0)
    && (w.showScoreColour ==> w.scoreColour == Lime)
  }

  lemma SnakeStepKeepsFlash(w: World, dt: nat, keys: Keys, restartPressed: bool, cell: Cell)
    requires |w.body| > 0 && FlashSane(w)
    ensures FlashSane(SnakeStep(w, dt, keys, restartPressed, cell))
  {
  }

  lemma FruitStepKeepsFlash(w: World, dt: nat, eatCell: Cell, timeoutCell: Cell)
    requires |w.body| > 0 && FlashSane(w)
    ensures FlashSane(FruitStep(w, dt, eatCell, timeoutCell))
  {
  }

  /** A highlight that has shown for FlashTime ends, and the score goes back to White. */
  lemma FlashEnds(w: World, dt: nat, eatCell: Cell, timeoutCell: Cell)
    requires |w.body| > 0 && !w.isDead && !Overlap(w.body[0], w.fruitPos)
    requires w.showScoreColour && w.scoreColourTimer + dt >= FlashTime
    ensures !FruitStep(w, dt, eatCell, timeoutCell).showScoreColour
    ensures FruitStep(w, dt, eatCell, timeoutCell).scoreColour == White
  {
  }

  /**
   * Eating does not restart a running highlight: its timer keeps the time
   * already shown, and does not run in the frame of the eating.
   */
  lemma EatKeepsFlashTimer(w: World, dt: nat, eatCell: Cell, timeoutCell: Cell)
    requires |w.body| > 0 && !w.isDead && Overlap(w.body[0], w.fruitPos)
    requires w.scoreColourTimer < FlashTime
    ensures FruitStep(w, dt, eatCell, timeoutCell).scoreColourTimer == w.scoreColourTimer
    ensures FruitStep(w, dt, eatCell, timeoutCell).showScoreColour
  {
  }

  /**
   * So a fruit eaten 300 ms into a highlight is highlighted for only 50 ms
   * more. Each frame is the snake update followed by the fruit update: the
   * first frame eats, and the next 50 ms frame, which neither dies nor eats,
   * ends the highlight.
   */
  lemma HighlightCutShort(w: World, dt: nat, keys: Keys, keys2: Keys, cell: Cell, eatCell: Cell, timeoutCell: Cell)
    requires |w.body| > 0 && w.showScoreColour && w.scoreColourTimer == 300
    requires var s1 := SnakeStep(w, dt, keys, false, cell);
             !s1.isDead && Overlap(s1.body[0], s1.fruitPos)
    requires var s2 := SnakeStep(FruitStep(SnakeStep(w, dt, keys, false, cell), dt, eatCell, timeoutCell), 50, keys2, false, cell);
             !s2.isDead && !Overlap(s2.body[0], s2.fruitPos)
    ensures FruitStep(SnakeStep(w, dt, keys, false, cell), dt, eatCell, timeoutCell).showScoreColour
    ensures var f1 := FruitStep(SnakeStep(w, dt, keys, false, cell), dt, eatCell, timeoutCell);
            !FruitStep(SnakeStep(f1, 50, keys2, false, cell), 50, eatCell, timeoutCell).showScoreColour
  {
    var s1 := SnakeStep(w, dt, keys, false, cell);
    EatKeepsFlashTimer(s1, dt, eatCell, timeoutCell);
    var f1 := FruitStep(s1, dt, eatCell, timeoutCell);
    FlashEnds(SnakeStep(f1, 50, keys2, false, cell), 50, eatCell, timeoutCell);
  }

  /**
   * Restart clears the highlight flag and timer but not the colour, so after
   * a restart during a highlight the frame's fruit update leaves the score
   * Lime, with the highlight flag off unless that update eats.
   */
  lemma RestartKeepsLime(w: World, dt: nat, keys: Keys, cell: Cell, eatCell: Cell, timeoutCell: Cell)
    requires |w.body| > 0 && w.scoreColour == Lime
    ensures !SnakeStep(w, dt, keys, true, cell).showScoreColour
    ensures FruitStep(SnakeStep(w, dt, keys, true, cell), dt, eatCell, timeoutCell).scoreColour == Lime
    ensures var s := SnakeStep(w, dt, keys, true, cell);
            !Overlap(s.body[0], s.fruitPos) ==> !FruitStep(s, dt, eatCell, timeoutCell).showScoreColour
  {
  }

  /** The highlight bookkeeping holds at launch and after every restart. */
  lemma FlashSaneAtStart(launchCell: Cell, w: World, cell: Cell)
    ensures FlashSane(Launch(launchCell))
    ensures FlashSane(Restarted(w, cell))
  {
  }

  // ---------------------------------------------------------------------
  // Speed-up

  /**
   * The stored interval after n fruits, each eaten in a frame of its own
   * after the snake update has clamped the interval.
   */
  function AfterEats(n: nat): int {
    if n == 0 then StartInterval else Interval(AfterEats(n - 1)) - SpeedUp
  }

  /**
   * Eating in a live frame lowers the stored interval from its clamped
   * value (a snake that dies in the move does not eat that frame).
   */
  lemma FrameEatSpeedsUp(w: World, dt: nat, keys: Keys, eatCell: Cell, timeoutCell: Cell)
    requires |w.body| > 0 && !w.isDead && !LiveStep(w, dt, keys).isDead
    requires Overlap(LiveStep(w, dt, keys).body[0], LiveStep(w, dt, keys).fruitPos)
    ensures FruitStep(LiveStep(w, dt, keys), dt, eatCell, timeoutCell).timerCount == Interval(w.timerCount) - SpeedUp
  {
  }

  /** Each fruit takes SpeedUp off the interval until it reaches MinInterval, where it stays. */
  lemma {:induction false} IntervalAfterEats(n: nat)
    ensures AfterEats(n) == if StartInterval - SpeedUp * n >= 0 then StartInterval - SpeedUp * n else 0
    ensures Interval(AfterEats(n)) == if StartInterval - SpeedUp * n >= MinInterval then StartInterval - SpeedUp * n else MinInterval
  {
    if n > 0 {
      IntervalAfterEats(n - 1);
    }
  }
}

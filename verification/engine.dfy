/** The game engine: the global game state and the pending turn, and the
    operations that create, step and reset it. */
module Engine {
  import opened Grid
  import opened Steering
  import opened Segments
  import opened Pacing

  datatype GameStatus = Ongoing | Won | Lost

  datatype StepOutcome = Move | Eat | Collision | Full

  /** The decision of getStepOutcome for the cell `next` the head is about to
      enter: a cell of the body other than the one in tail slot 0 is a
      collision; the food cell is a win once the tail cannot take another
      segment after this one, a meal otherwise; anything else is a plain move. */
  function Classify(next: Coords, body: seq<Coords>, slotZero: Coords, food: Coords, tailLength: int): StepOutcome
  {
    if next in body && next != slotZero then Collision
    else if next == food then (if tailLength >= MaxSnakeLength - 1 then Full else Eat)
    else Move
  }

  /** The invariant of the game state, on its values. Besides the bounds, it
      ties score and speed to the length of the snake, so that the uint8_t
      counters never wrap, and it keeps the body free of repeated cells and the
      food off the body while the game runs. */
  ghost predicate Consistent(head: Coords, t: seq<Coords>, n: int, status: GameStatus,
                             score: int, speed: int, food: Coords)
  {
    && |t| == MaxSnakeLength
    && 1 <= n <= MaxSnakeLength
    && (status == Won <==> n == MaxSnakeLength)
    && score == n - (if status == Won then 2 else 1)
    && speed == 1 + score / 5
    && AllInGrid(BodyOf(head, t, n))
    && InGrid(food)
    && Distinct(BodyOf(head, t, n))
    && (status == Ongoing ==> food !in BodyOf(head, t, n))
  }

  /** A plain move of a running game, onto a neighbouring cell that is free or
      is the one in tail slot 0, keeps the invariant. */
  lemma PlainMoveKeepsConsistent(head: Coords, t: seq<Coords>, n: int, score: int, speed: int,
                                 food: Coords, c: Coords)
    requires Consistent(head, t, n, Ongoing, score, speed, food)
    requires InGrid(c) && c != head
    requires Classify(c, BodyOf(head, t, n), t[0], food, n) == Move
    ensures Consistent(c, Dropped(t, n, head), n, Ongoing, score, speed, food)
  {
    var before := BodyOf(head, t, n);
    PlainMoveKeepsDistinct(t, n, head, c);
    var after := BodyOf(c, Dropped(t, n, head), n);
    PlainMoveVacatesSlotZero(t, n, head, c);
    assert forall k :: 1 <= k < n ==> after[k] == before[k + 1];
    assert after[n] == before[0];
  }

  /** Reaching the food with room to spare keeps the invariant, with one more
      point and new food on a free cell. */
  lemma EatKeepsConsistent(head: Coords, t: seq<Coords>, n: int, score: int, speed: int,
                           food: Coords, newFood: Coords)
    requires Consistent(head, t, n, Ongoing, score, speed, food)
    requires InGrid(food) && food != head && n < MaxSnakeLength - 1
    requires InGrid(newFood) && newFood !in BodyOf(food, Grown(t, n, head), n + 1)
    ensures Consistent(food, Grown(t, n, head), n + 1, Ongoing, score + 1,
                       speed + (if (score + 1) % 5 == 0 then 1 else 0), newFood)
  {
    ExtendingMoveKeepsDistinct(t, n, head, food);
    ExtendingMoveKeepsBody(t, n, head, food);
    SpeedLevelStep(score);
  }

  /** Reaching the food with the tail one short of full keeps the invariant
      and wins. */
  lemma FullKeepsConsistent(head: Coords, t: seq<Coords>, n: int, score: int, speed: int, food: Coords)
    requires Consistent(head, t, n, Ongoing, score, speed, food)
    requires food != head && n >= MaxSnakeLength - 1
    ensures Consistent(food, Grown(t, n, head), n + 1, Won, score, speed, food)
  {
    ExtendingMoveKeepsDistinct(t, n, head, food);
    ExtendingMoveKeepsBody(t, n, head, food);
  }

  /** A uint8_t below 255 does not wrap when incremented. */
  lemma ByteIncrementFits(x: int)
    requires 0 <= x < 255
    ensures (x + 1) % 256 == x + 1
  {
  }

  /** One more point raises the speed level 1 + score / 5 exactly when the new
      score is a multiple of 5. */
  lemma SpeedLevelStep(score: int)
    requires 0 <= score
    ensures 1 + (score + 1) / 5 == 1 + score / 5 + (if (score + 1) % 5 == 0 then 1 else 0)
  {
  }

  /** The whole engine state as a value: the fields of Game, with the tail
      array's contents. */
  datatype Snapshot = Snapshot(head: Coords, tail: seq<Coords>, tailLength: int,
                               direction: Direction, food: Coords, speed: int,
                               status: GameStatus, score: int, currentTurn: Turn)

  /** The state a button press leaves: the pressed turn replaces the pending
      one; no press leaves the state as it is. */
  function Pressed(s: Snapshot, press: Turn): (r: Snapshot)
    ensures r.currentTurn == (if press == TurnNone then s.currentTurn else press)
    ensures r.(currentTurn := s.currentTurn) == s
  {
    if press == TurnNone then s else s.(currentTurn := press)
  }

  /** One tick of stepGame from s to s', on values: the pending turn is
      applied and cleared, the entered cell is classified, and each outcome
      changes the state as handleStepOutcome does. After a meal the new food
      is any free cell. */
  ghost predicate StepsTo(s: Snapshot, s': Snapshot)
  {
    && 1 <= s.tailLength < |s.tail|
    && var d := Turned(s.direction, s.currentTurn);
       var next := NextMove(s.head, d);
       var turned := s.(direction := d, currentTurn := TurnNone);
       match Classify(next, BodyOf(s.head, s.tail, s.tailLength), s.tail[0], s.food, s.tailLength)
       case Collision => s' == turned.(status := Lost)
       case Full =>
         s' == turned.(head := next, tail := Grown(s.tail, s.tailLength, s.head),
                       tailLength := s.tailLength + 1, status := Won)
       case Eat =>
         && s' == turned.(head := next, tail := Grown(s.tail, s.tailLength, s.head),
                          tailLength := s.tailLength + 1, food := s'.food, score := s.score + 1,
                          speed := s.speed + (if (s.score + 1) % 5 == 0 then 1 else 0))
         && InGrid(s'.food) && s'.food !in BodyOf(s'.head, s'.tail, s'.tailLength)
       case Move =>
         s' == turned.(head := next, tail := Dropped(s.tail, s.tailLength, s.head))
  }

  /** Every step of a running game, whatever free cell a meal puts the new
      food on, keeps the invariant. */
  lemma StepKeepsConsistent(s: Snapshot, s': Snapshot)
    requires Consistent(s.head, s.tail, s.tailLength, s.status, s.score, s.speed, s.food)
    requires s.status == Ongoing && StepsTo(s, s')
    ensures Consistent(s'.head, s'.tail, s'.tailLength, s'.status, s'.score, s'.speed, s'.food)
  {
    var next := NextMove(s.head, Turned(s.direction, s.currentTurn));
    assert InGrid(BodyOf(s.head, s.tail, s.tailLength)[0]);
    match Classify(next, BodyOf(s.head, s.tail, s.tailLength), s.tail[0], s.food, s.tailLength)
    case Collision =>
    case Full =>
      FullKeepsConsistent(s.head, s.tail, s.tailLength, s.score, s.speed, s.food);
    case Eat =>
      EatKeepsConsistent(s.head, s.tail, s.tailLength, s.score, s.speed, s.food, s'.food);
    case Move =>
      PlainMoveKeepsConsistent(s.head, s.tail, s.tailLength, s.score, s.speed, s.food, next);
  }

  class Game {
    var head: Coords
    var tail: array<Coords>
    var tailLength: int
    var direction: Direction
    var food: Coords
    /** uint8_t in the source. */
    var speed: int
    var status: GameStatus
    /** uint8_t in the source. */
    var score: int
    /** The single pending-turn slot written by the button handlers. */
    var currentTurn: Turn

    /** The cells the snake occupies, head first. */
    function Body(): seq<Coords>
      reads this, tail
      requires 0 <= tailLength <= tail.Length
    {
      BodyOf(head, tail[..], tailLength)
    }

    /** The current state as a value. */
    function Snap(): Snapshot
      reads this, tail
    {
      Snapshot(head, tail[..], tailLength, direction, food, speed, status, score, currentTurn)
    }

    /** The state invariant of every game the engine produces. */
    ghost predicate Valid()
      reads this, tail
    {
      Consistent(head, tail[..], tailLength, status, score, speed, food)
    }

    /** The cell the next step enters: the pending turn applied, then one step. */
    ghost function PendingCell(): Coords
      reads this
    {
      NextMove(head, Turned(direction, currentTurn))
    }

    /** What the next step will do. */
    ghost function PendingOutcome(): StepOutcome
      reads this, tail
      requires 0 <= tailLength <= tail.Length && tail.Length > 0
    {
      Classify(PendingCell(), Body(), tail[0], food, tailLength)
    }

    /** Program start: the zero-initialised global state, then initGame. */
    constructor ()
      ensures Valid() && fresh(tail)
      ensures head == Coords(2, 2) && tailLength == 1 && tail[0] == Coords(2, 1) && direction == Right
      ensures speed == 1 && score == 0 && status == Ongoing && currentTurn == TurnNone
    {
      tail := new Coords[MaxSnakeLength](_ => Coords(0, 0));
      currentTurn := TurnNone;
      new;
      InitGame();
    }

    /** The fixed start position, with food on a free cell. Tail slots from 1
        on keep whatever the previous round left in them. */
    method InitGame()
      requires tail.Length == MaxSnakeLength
      modifies this, tail
      ensures Valid() && tail == old(tail)
      ensures head == Coords(2, 2) && tailLength == 1 && tail[0] == Coords(2, 1) && direction == Right
      ensures speed == 1 && score == 0 && status == Ongoing
      ensures tail[1..] == old(tail[1..]) && currentTurn == old(currentTurn)
    {
      head := Coords(2, 2);
      tail[0] := Coords(2, 1);
      tailLength := 1;
      direction := Right;
      speed := 1;
      status := Ongoing;
      score := 0;
      PlaceFood();
    }

    /** initGame, and the pending turn is cleared. */
    method ResetGame()
      requires tail.Length == MaxSnakeLength
      modifies this, tail
      ensures Valid() && tail == old(tail)
      ensures head == Coords(2, 2) && tailLength == 1 && tail[0] == Coords(2, 1) && direction == Right
      ensures speed == 1 && score == 0 && status == Ongoing && currentTurn == TurnNone
    {
      InitGame();
      currentTurn := TurnNone;
    }

    /** placeFood: some free cell of the board. The random sampling of
        getRandomCoords is replaced by an arbitrary choice among the cells it
        can return; one exists because the body has fewer cells than the board. */
    method PlaceFood()
      requires 0 <= tailLength < MaxSnakeLength <= tail.Length
      modifies this`food
      ensures InGrid(food) && food !in Body()
    {
      FreeCellExists(Body());
      var row: int, col: int :| 0 <= row < GridSize && 0 <= col < GridSize && Coords(row, col) !in Body();
      food := Coords(row, col);
    }

    /** coordsInSnake: the head, then tail slots 0 .. tailLength-1. */
    method CoordsInSnake(c: Coords) returns (found: bool)
      requires 0 <= tailLength <= tail.Length
      ensures found <==> c in Body()
    {
      if CoordsEqual(c, head) {
        return true;
      }
      for i := 0 to tailLength
        invariant c !in tail[..i]
      {
        if CoordsEqual(c, tail[i]) {
          return true;
        }
      }
      return false;
    }

    /** getStepOutcome. The collision exemption looks at tail slot 0 whatever
        segment it currently holds. */
    method GetStepOutcome() returns (outcome: StepOutcome)
      requires 0 <= tailLength <= tail.Length && tail.Length > 0
      ensures outcome == Classify(NextMove(head, direction), Body(), tail[0], food, tailLength)
      ensures outcome == Collision <==>
                NextMove(head, direction) in Body() && NextMove(head, direction) != tail[0]
      ensures outcome == Full <==>
                outcome != Collision && NextMove(head, direction) == food && tailLength >= MaxSnakeLength - 1
      ensures outcome == Eat <==>
                outcome != Collision && NextMove(head, direction) == food && tailLength < MaxSnakeLength - 1
      ensures outcome == Move <==> outcome != Collision && NextMove(head, direction) != food
    {
      var nextMove := NextMove(head, direction);
      var inSnake := CoordsInSnake(nextMove);
      if inSnake && !CoordsEqual(nextMove, tail[0]) {
        return Collision;
      }
      if CoordsEqual(nextMove, food) {
        if tailLength >= MaxSnakeLength - 1 {
          return Full;
        }
        return Eat;
      }
      return Move;
    }

    /** moveSnake. Every write lands below MAX_SNAKE_LENGTH: a plain move
        needs a segment to drop, an extension needs a free slot at tailLength. */
    method MoveSnake(c: Coords, extend: bool)
      requires if extend then 0 <= tailLength < tail.Length else 1 <= tailLength <= tail.Length
      modifies this`head, this`tailLength, tail
      ensures head == c
      ensures tailLength == old(tailLength) + (if extend then 1 else 0)
      ensures extend ==> tail[..] == Grown(old(tail[..]), old(tailLength), old(head))
      ensures !extend ==> tail[..] == Dropped(old(tail[..]), old(tailLength), old(head))
    {
      ghost var before := tail[..];
      var n := tailLength;
      if !extend {
        for i := 0 to n - 1
          invariant forall k :: 0 <= k < i ==> tail[k] == before[k + 1]
          invariant forall k :: i <= k < tail.Length ==> tail[k] == before[k]
          modifies tail
        {
          tail[i] := tail[i + 1];
        }
        tail[n - 1] := head;
        assert tail[..] == Dropped(before, n, head) by {
          DroppedAt(before, n, head);
          assert forall k :: 0 <= k < tail.Length ==> tail[..][k] == Dropped(before, n, head)[k];
        }
      } else {
        for i := n downto 0
          invariant forall k :: i < k <= n ==> tail[k] == before[k - 1]
          invariant forall k :: 0 <= k <= i ==> tail[k] == before[k]
          invariant forall k :: n < k < tail.Length ==> tail[k] == before[k]
          modifies tail
        {
          tail[i + 1] := tail[i];
        }
        tail[0] := head;
        assert tail[..] == Grown(before, n, head) by {
          GrownAt(before, n, head);
          assert forall k :: 0 <= k < tail.Length ==> tail[..][k] == Grown(before, n, head)[k];
        }
        tailLength := n + 1;
      }
      head := c;
    }

    /** handleStepOutcome, given the outcome getStepOutcome computed for the
        current state. It computes the next cell again; nothing has changed in
        between, so it is the cell that was classified. */
    method HandleStepOutcome(outcome: StepOutcome)
      requires Valid() && status == Ongoing
      requires outcome == Classify(NextMove(head, direction), Body(), tail[0], food, tailLength)
      modifies this, tail
      ensures Valid() && tail == old(tail)
      ensures direction == old(direction) && currentTurn == old(currentTurn)
      ensures outcome == Collision ==>
                && status == Lost && head == old(head) && tailLength == old(tailLength)
                && tail[..] == old(tail[..]) && food == old(food)
                && score == old(score) && speed == old(speed)
      ensures outcome == Full ==>
                && status == Won && head == old(NextMove(head, direction))
                && tailLength == old(tailLength) + 1
                && tail[..] == Grown(old(tail[..]), old(tailLength), old(head))
                && food == old(food) && score == old(score) && speed == old(speed)
      ensures outcome == Eat ==>
                && status == Ongoing && head == old(NextMove(head, direction))
                && tailLength == old(tailLength) + 1
                && tail[..] == Grown(old(tail[..]), old(tailLength), old(head))
                && score == old(score) + 1
                && speed == old(speed) + (if score % 5 == 0 then 1 else 0)
      ensures outcome == Move ==>
                && status == Ongoing && head == old(NextMove(head, direction))
                && tailLength == old(tailLength)
                && tail[..] == Dropped(old(tail[..]), old(tailLength), old(head))
                && food == old(food) && score == old(score) && speed == old(speed)
    {
      var nextMove := NextMove(head, direction);
      assert InGrid(Body()[0]);
      match outcome
      case Collision =>
        status := Lost;
      case Full =>
        GrowAndWin(nextMove);
      case Eat =>
        GrowAndScore(nextMove);
      case Move =>
        Advance(nextMove);
    }

    /** The FULL branch of handleStepOutcome: grow onto the food and win. */
    method GrowAndWin(next: Coords)
      requires Valid() && status == Ongoing
      requires next == food && tailLength >= MaxSnakeLength - 1
      modifies this, tail
      ensures Valid() && tail == old(tail)
      ensures status == Won && head == next && tailLength == old(tailLength) + 1
      ensures tail[..] == Grown(old(tail[..]), old(tailLength), old(head))
      ensures direction == old(direction) && currentTurn == old(currentTurn)
      ensures food == old(food) && score == old(score) && speed == old(speed)
    {
      assert head == Body()[0];
      FullKeepsConsistent(head, tail[..], tailLength, score, speed, food);
      MoveSnake(next, true);
      status := Won;
    }

    /** The EAT branch of handleStepOutcome: grow onto the food, place new
        food, score a point, and speed up on every fifth point. */
    method GrowAndScore(next: Coords)
      requires Valid() && status == Ongoing
      requires next == food && tailLength < MaxSnakeLength - 1
      modifies this, tail
      ensures Valid() && tail == old(tail)
      ensures status == Ongoing && head == next && tailLength == old(tailLength) + 1
      ensures tail[..] == Grown(old(tail[..]), old(tailLength), old(head))
      ensures direction == old(direction) && currentTurn == old(currentTurn)
      ensures score == old(score) + 1
      ensures speed == old(speed) + (if score % 5 == 0 then 1 else 0)
    {
      ghost var t, n, h := tail[..], tailLength, head;
      assert head == Body()[0];
      MoveSnake(next, true);
      PlaceFood();
      EatKeepsConsistent(h, t, n, score, speed, next, food);
      ByteIncrementFits(score);
      score := (score + 1) % 256;
      if score % 5 == 0 {
        ByteIncrementFits(speed);
        speed := (speed + 1) % 256;
      }
    }

    /** The MOVE branch of handleStepOutcome: shift the tail along. */
    method Advance(next: Coords)
      requires Valid() && status == Ongoing
      requires next != head && InGrid(next) && Classify(next, Body(), tail[0], food, tailLength) == Move
      modifies this, tail
      ensures Valid() && tail == old(tail)
      ensures status == Ongoing && head == next && tailLength == old(tailLength)
      ensures tail[..] == Dropped(old(tail[..]), old(tailLength), old(head))
      ensures direction == old(direction) && currentTurn == old(currentTurn)
      ensures food == old(food) && score == old(score) && speed == old(speed)
    {
      assert head == Body()[0];
      PlainMoveKeepsConsistent(head, tail[..], tailLength, score, speed, food, next);
      MoveSnake(next, false);
    }

    /** stepGame: consume the pending turn, then classify and apply. */
    method StepGame()
      requires Valid() && status == Ongoing
      modifies this, tail
      ensures Valid() && tail == old(tail)
      ensures direction == Turned(old(direction), old(currentTurn)) && currentTurn == TurnNone
      ensures StepsTo(old(Snap()), Snap())
      ensures old(PendingOutcome()) == Collision ==>
                && status == Lost && head == old(head) && tailLength == old(tailLength)
                && tail[..] == old(tail[..]) && food == old(food)
                && score == old(score) && speed == old(speed)
      ensures old(PendingOutcome()) == Full ==>
                && status == Won && head == old(PendingCell())
                && tailLength == old(tailLength) + 1
                && tail[..] == Grown(old(tail[..]), old(tailLength), old(head))
                && food == old(food) && score == old(score) && speed == old(speed)
      ensures old(PendingOutcome()) == Eat ==>
                && status == Ongoing && head == old(PendingCell())
                && tailLength == old(tailLength) + 1
                && tail[..] == Grown(old(tail[..]), old(tailLength), old(head))
                && score == old(score) + 1
                && speed == old(speed) + (if score % 5 == 0 then 1 else 0)
      ensures old(PendingOutcome()) == Move ==>
                && status == Ongoing && head == old(PendingCell())
                && tailLength == old(tailLength)
                && tail[..] == Dropped(old(tail[..]), old(tailLength), old(head))
                && food == old(food) && score == old(score) && speed == old(speed)
    {
      direction := Turned(direction, currentTurn);
      currentTurn := TurnNone;
      var outcome := GetStepOutcome();
      HandleStepOutcome(outcome);
    }

    /** Button A (handleButtonA): queue a left turn, replacing any turn queued
        before it. */
    method HandleButtonA()
      modifies this`currentTurn
      ensures currentTurn == TurnLeft
      ensures old(Valid()) ==> Valid()
    {
      currentTurn := TurnLeft;
    }

    /** Button B (handleButtonB): queue a right turn, replacing any turn queued
        before it. */
    method HandleButtonB()
      modifies this`currentTurn
      ensures currentTurn == TurnRight
      ensures old(Valid()) ==> Valid()
    {
      currentTurn := TurnRight;
    }

    /** The inner loop of main while the game runs, without the rendering and
        the sleeping: presses[i] is the last button pressed before step i, if
        any. It stops when the game ends or the presses run out. The ghost
        trace holds the state before each step and the final state: each step
        starts from an ONGOING state with its press applied and is a step of
        StepsTo. */
    method Play(presses: seq<Turn>) returns (steps: nat, ghost trace: seq<Snapshot>)
      requires Valid()
      modifies this, tail
      ensures Valid() && tail == old(tail)
      ensures steps <= |presses| && |trace| == steps + 1
      ensures trace[0] == old(Snap()) && trace[steps] == Snap()
      ensures forall i :: 0 <= i < steps ==>
                trace[i].status == Ongoing && StepsTo(Pressed(trace[i], presses[i]), trace[i + 1])
      ensures steps == |presses| || status != Ongoing
      ensures old(status) != Ongoing ==> steps == 0
      ensures steps > 0 ==> currentTurn == TurnNone
    {
      steps := 0;
      trace := [Snap()];
      while steps < |presses| && status == Ongoing
        invariant Valid() && tail == old(tail)
        invariant steps <= |presses| && |trace| == steps + 1
        invariant trace[0] == old(Snap()) && trace[steps] == Snap()
        invariant forall i :: 0 <= i < steps ==>
                    trace[i].status == Ongoing && StepsTo(Pressed(trace[i], presses[i]), trace[i + 1])
        invariant steps == 0 ==> status == old(status)
        invariant steps > 0 ==> old(status) == Ongoing && currentTurn == TurnNone
        decreases |presses| - steps
      {
        match presses[steps] {
          case TurnLeft => HandleButtonA();
          case TurnRight => HandleButtonB();
          case TurnNone =>
        }
        assert Snap() == Pressed(trace[steps], presses[steps]);
        StepGame();
        trace := trace + [Snap()];
        steps := steps + 1;
      }
    }

    /** getStepLengthMs for the current speed: in any game the engine produces
        the pause lies between the floor and the starting pause. */
    function CurrentStepLengthMs(): (ms: int)
      reads this, tail
      requires Valid()
      ensures 200 <= ms <= 1000
    {
      StepLengthMs(speed)
    }

    /** The uint8_t counters stay small: no increment ever wraps. */
    lemma CountersStaySmall()
      requires Valid()
      ensures 0 <= score <= MaxSnakeLength - 2 && 1 <= speed <= 5
    {
    }

    /** A won game covers the whole board: Full is reached exactly when the
        snake has grown into every cell. */
    lemma WonFillsGrid()
      requires Valid() && status == Won
      ensures forall c :: InGrid(c) ==> c in Body()
    {
      DistinctCellsFillGrid(Body());
    }
  }
}

/** The relative turn table of turnSnake: a button press turns the snake a
    quarter turn to its own left or right, never straight back. */
module Steering {
  import opened Grid

  /** The pending-turn slot (currentTurn). */
  datatype Turn = TurnNone | TurnLeft | TurnRight

  function Opposite(d: Direction): Direction {
    match d
    case Up => Down
    case Down => Up
    case Left => Right
    case Right => Left
  }

  /** The direction after applying turn t to direction d. */
  function Turned(d: Direction, t: Turn): (r: Direction)
    ensures r == d <==> t == TurnNone
    ensures r != Opposite(d)
  {
    match t
    case TurnLeft => (
      match d
      case Up => Left
      case Down => Right
      case Left => Down
      case Right => Up)
    case TurnRight => (
      match d
      case Up => Right
      case Down => Left
      case Left => Up
      case Right => Down)
    case TurnNone => d
  }

  /** Compass position, counting quarter turns clockwise from Up. */
  function Heading(d: Direction): (h: int)
    ensures 0 <= h < 4
  {
    match d
    case Up => 0
    case Right => 1
    case Down => 2
    case Left => 3
  }

  /** Quarter turns clockwise that a turn adds. */
  function Rotation(t: Turn): int {
    match t
    case TurnNone => 0
    case TurnRight => 1
    case TurnLeft => 3
  }

  /** The table is rotation of the compass: a right turn is a clockwise quarter
      turn, a left turn an anticlockwise one. */
  lemma TurnIsRotation(d: Direction, t: Turn)
    ensures Heading(Turned(d, t)) == (Heading(d) + Rotation(t)) % 4
  {
  }

  /** On the board, a right turn maps the step (dr, dc) to (dc, -dr). */
  lemma RightTurnRotatesStep(d: Direction)
    ensures RowDelta(Turned(d, TurnRight)) == ColDelta(d)
    ensures ColDelta(Turned(d, TurnRight)) == -RowDelta(d)
    ensures RowDelta(Turned(d, TurnLeft)) == -ColDelta(d)
    ensures ColDelta(Turned(d, TurnLeft)) == RowDelta(d)
  {
  }

  lemma LeftRightCancel(d: Direction)
    ensures Turned(Turned(d, TurnLeft), TurnRight) == d
    ensures Turned(Turned(d, TurnRight), TurnLeft) == d
  {
  }

  /** Four equal turns bring the snake back to its heading. */
  lemma FourTurnsIdentity(d: Direction, t: Turn)
    ensures Turned(Turned(Turned(Turned(d, t), t), t), t) == d
  {
    TurnIsRotation(d, t);
    TurnIsRotation(Turned(d, t), t);
    TurnIsRotation(Turned(Turned(d, t), t), t);
    TurnIsRotation(Turned(Turned(Turned(d, t), t), t), t);
  }
}

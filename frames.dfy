/**
 * One row of the tracking data: a moment of a game, with the name, court coordinates and
 * team of each of the ten players on court (columns player1_* to player10_*) and the ball's
 * coordinates (playerball_x_coord, playerball_y_coord).
 *
 * A pandas row is a map from column names to cells. Here each kind of column is a map keyed
 * by the actor it describes, so a key that is absent is a column the row does not have
 * (reading it raises KeyError), and a cell holding NaN is `Null`.
 */
module Frames {

  /** A name or team cell: a string, a number, or NaN. */
  datatype Value = Text(s: string) | Number(n: int) | Null

  /** pandas equality on cells: NaN equals nothing, not even NaN. */
  predicate Matches(a: Value, b: Value) {
    a == b && a != Null
  }

  /** Whose columns: `Player(k)` for the columns player{k}_*, `Ball` for playerball_*. */
  datatype Actor = Player(number: int) | Ball

  /** A column of the row: player{k}_name, _x_coord, _y_coord or _team (or the ball's). */
  datatype Column = Name(actor: Actor) | XCoord(actor: Actor) | YCoord(actor: Actor) | Team(actor: Actor)

  datatype Frame = Frame(
    names: map<Actor, Value>,
    xs: map<Actor, real>,
    ys: map<Actor, real>,
    teams: map<Actor, Value>)

  /** The exceptions the core can raise: a missing column, or indexing an empty list. */
  datatype Failure = KeyError(column: Column) | IndexError

  /** The row has the column. */
  predicate Has(frame: Frame, c: Column) {
    match c
    case Name(a) => a in frame.names
    case XCoord(a) => a in frame.xs
    case YCoord(a) => a in frame.ys
    case Team(a) => a in frame.teams
  }
}

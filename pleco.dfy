/**
  The chess library the core delegates to, kept abstract.

  The core never looks inside a position or a move: it only hands them back
  to the library. A position and a move are therefore abstract types here,
  and the library is a value `Oracle` holding the handful of operations the
  core calls. Every property the model proves holds for every oracle.
 */
module Pleco {
  import opened Options

  /** A full board state (the library's board object). */
  type Position

  /** A move as the library encodes it. */
  type Move

  /**
    The operations the core uses:
    - `start`: the standard initial position;
    - `apply`: apply a move written in UCI notation to a copy of a position,
      giving the resulting position, or `None` when the library rejects it;
    - `generate`: the moves the library generates from a position, in its order;
    - `stringify`: the UCI text of a move;
    - `pseudoLegal`, `legal`: the library's two legality checks of a move in a position;
    - `fen`: the position's FEN text.
   */
  datatype Oracle = Oracle(
    start: Position,
    apply: (Position, string) -> Option<Position>,
    generate: Position -> seq<Move>,
    stringify: Move -> string,
    pseudoLegal: (Position, Move) -> bool,
    legal: (Position, Move) -> bool,
    fen: Position -> string)
}

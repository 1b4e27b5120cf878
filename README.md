# Single-game chess session core

This project models the single-game core of a chess session manager: a
`Board` that wraps one position of the `pleco` chess library, and a `Game`
that pairs a board with an append-only history of FEN strings, one for each
successful move.

The chess library is not modelled. It is a value `Pleco.Oracle` that holds
the six operations the core calls: the start position, applying a UCI move,
generating moves, the UCI text of a move, the two legality checks, and FEN
serialisation. These work over two abstract types, `Position` and `Move`.
Every property below holds for every oracle, so no chess knowledge is assumed.

Modules:

- `Options` (options.dfy): Rust's `Option`.
- `Pleco` (pleco.dfy): the abstract library, `Position`, `Move`, `Oracle`.
- `Core` (core.dfy): the source file `module/core/src/lib.rs`.
  - `Board` is a datatype because the source gives it value semantics:
    `make_move` works on a clone and returns a new board.
  - `Board::default` and `Board::fen` are `DefaultBoard` and `BoardFen`.
    Each is a one-line call into the oracle with no contract of its own.
    What they promise is stated by `Game.constructor` and `Game.MakeMove`.
  - `Board::move_from_uci` is `MoveFromUci`. The iterator `find` it uses
    becomes the recursive first-match search `FindFrom`.
  - `Game::make_move` is specified twice, once per role:
    - as the pure function `Step`, with `Run` folding it over any sequence
      of calls;
    - as the method `Game.MakeMove` of the class `Game`, which updates
      `board` and `history` in place.
  - The class invariant `Game.Valid()` says the object's state and return
    values are exactly what `Run` gives for every move text passed to it
    since construction. The ghost fields `calls` and `outcomes` record
    those texts and return values. The lemmas about `Run` then give the
    history properties for every sequence of calls.

The oracle is a parameter here: the game receives it at construction and
keeps it as a constant. In the source it is the library, linked statically.

A board's validity query and its move operation go through different
library calls:
- `move_is_valid` searches the generated moves and runs both legality checks;
- `make_move` calls the library's UCI application directly.

Nothing in the source relates the two, so the model makes no claim that they agree.

## Model

| member | source | states |
|---|---|---|
| `Core.DefaultBoard` | module/core/src/lib.rs:116-122 | no contract of its own: the board at the library's start position; stated by `Game.constructor`'s `board.position == o.start` |
| `Core.BoardFen` | module/core/src/lib.rs:160-163 | no contract of its own: the library's FEN of the board's position; its use is stated by `LastIsCurrent` and by `Game.MakeMove`, which pushes `BoardFen` of the new board |
| `Core.StartState` | module/core/src/lib.rs:189-196 | no contract of its own: the default board with an empty history; `Game.Valid()` ties a game to `Run` from this state, and `GameHistoryInvariant` states its promises |
| `Core.BoardMakeMove` | module/core/src/lib.rs:124-136 | returns a new board exactly when the library's UCI application accepts the move, and that board holds the resulting position; `None` otherwise; the receiving board is a value and stays unchanged |
| `Core.FindFrom` | module/core/src/lib.rs:149-152 | `None` exactly when no move from index `k` on has the given text; otherwise the result is such a move and every move before it, from `k` on, has a different text |
| `Core.MoveFromUci` | module/core/src/lib.rs:147-153 | `Some(m)` exactly when some generated move stringifies to the input, and then `m` is the first such move in generation order; `None` otherwise |
| `Core.MoveIsValid` | module/core/src/lib.rs:138-145 | true exactly when some generated move has the input text and the first such move is both pseudo-legal and legal; false whenever no generated move matches |
| `Core.Step` | module/core/src/lib.rs:198-207 | a call succeeds exactly when the board's `make_move` does; on failure the state is unchanged; on success the board is the new one, the history grows by exactly one entry, earlier entries are kept, and the last entry is the new board's FEN |
| `Core.Run` | module/core/src/lib.rs:198-207 | a sequence of calls yields one return value per call |
| `Core.RunAppend` | module/core/src/lib.rs:198-207 | running two sequences of calls one after the other gives the same state and return values as running their concatenation |
| `Core.RunHistoryLength` | module/core/src/lib.rs:201-206 | after any sequence of calls the history has grown by exactly the number of calls that returned true |
| `Core.RunKeepsHistoryPrefix` | module/core/src/lib.rs:203-206 | the history before any sequence of calls is a prefix of the history after it |
| `Core.RunKeepsLastIsCurrent` | module/core/src/lib.rs:203-206 | if the last history entry is the current board's FEN before a sequence of calls, it still is afterwards |
| `Core.GameHistoryInvariant` | module/core/src/lib.rs:189-207 | from a fresh game, after any sequence of calls, the history length equals the number of calls that returned true, and a non-empty history ends with the current board's FEN |
| `Core.HistoryNeverRewritten` | module/core/src/lib.rs:203-206 | entries written by earlier calls are still in place, unchanged, after any later calls |
| `Core.Game.constructor` | module/core/src/lib.rs:189-196 | a fresh game has the default board, which is at the library's start position, and an empty history; the invariant holds |
| `Core.Game.MakeMove` | module/core/src/lib.rs:198-207 | all or nothing: returns true exactly when the board accepts the move; on true the board is replaced and the new board's FEN is pushed onto the unchanged old history; on false board and history are identical to before; the invariant is kept, so the history length equals the number of calls that returned true and a non-empty history ends with the board's FEN |

## Left out

- The library's internals (move generation, UCI application, legality, FEN): foreign code, kept abstract as `Pleco.Oracle`.
- `Board::print` and the library's `pretty_print`: console output only.
- The commented-out `status`, `apply_move*`, `current_turn` and print helpers: not live code. Checkmate and stalemate handling is not implemented in the source.
- The `GameStatus` enum's use: it is declared, but no live code produces it.
- The command list in comments: design notes, not behaviour.
- Any agreement between `MoveIsValid` and `BoardMakeMove`: they use different library calls, and the source does not relate them.
- The RPC server in `module/server/src/rpc_server.rs`, for three reasons:
  - it consists of async handlers around a store shared under a mutex;
  - its game ids are random UUIDs;
  - most of its handlers are unimplemented, and the store and multiplayer-game types it calls are not part of this model.
- The `test_game` function: it plays `a2a4` from the start position, prints the board before and after, and checks nothing.

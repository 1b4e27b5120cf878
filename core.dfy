/**
  The single-game core: a `Board` holding one library position, and a `Game`
  pairing a board with the FEN history of the positions it went through.

  Every operation takes the chess library as an `Oracle` value (see module
  Pleco); nothing here depends on which oracle it is.
 */
module Core {
  import opened Options
  import opened Pleco

  /** A position written in FEN notation. */
  type Fen = string

  // ---------------------------------------------------------------------------
  // Board
  // ---------------------------------------------------------------------------

  /** A board is a value wrapping exactly one library position. */
  datatype Board = Board(position: Position)

  /** `Board::default`: the library's start position. */
  function DefaultBoard(o: Oracle): (b: Board)
  {
    Board(o.start)
  }

  /** `Board::fen`: the library's FEN of the board's position. */
  function BoardFen(o: Oracle, b: Board): (f: Fen)
  {
    o.fen(b.position)
  }

  /**
    `Board::make_move`: apply a UCI move to a copy of the position. The
    receiving board is a value and is left as it was; the result is a new
    board exactly when the library accepts the move.
   */
  function BoardMakeMove(o: Oracle, b: Board, uci: string): (r: Option<Board>)
    ensures r.None? <==> o.apply(b.position, uci).None?
    ensures r.Some? ==> o.apply(b.position, uci) == Some(r.value.position)
  {
    match o.apply(b.position, uci)
    case None => None
    case Some(p) => Some(Board(p))
  }

  /** `i` indexes the first move of `ms` whose UCI text is `uci`. */
  ghost predicate IsFirstMatch(ms: seq<Move>, stringify: Move -> string, uci: string, i: int)
  {
    && 0 <= i < |ms|
    && stringify(ms[i]) == uci
    && forall j :: 0 <= j < i ==> stringify(ms[j]) != uci
  }

  /**
    The iterator search of `move_from_uci`, started at index `k`: the first
    move of `ms[k..]` whose text is `uci`, or `None` when there is none.
   */
  function FindFrom(ms: seq<Move>, stringify: Move -> string, uci: string, k: nat): (r: Option<Move>)
    requires k <= |ms|
    ensures r.None? <==> forall i :: k <= i < |ms| ==> stringify(ms[i]) != uci
    ensures r.Some? ==>
      exists i :: k <= i < |ms| && ms[i] == r.value && stringify(ms[i]) == uci &&
        forall j :: k <= j < i ==> stringify(ms[j]) != uci
    decreases |ms| - k
  {
    if k == |ms| then None
    else if stringify(ms[k]) == uci then Some(ms[k])
    else FindFrom(ms, stringify, uci, k + 1)
  }

  /**
    `Board::move_from_uci`: the first generated move whose UCI text equals
    `uci`, in generation order; `None` when no generated move has that text.
   */
  function MoveFromUci(o: Oracle, b: Board, uci: string): (r: Option<Move>)
    ensures r.None? <==>
      forall i :: 0 <= i < |o.generate(b.position)| ==> o.stringify(o.generate(b.position)[i]) != uci
    ensures r.Some? ==>
      exists i :: IsFirstMatch(o.generate(b.position), o.stringify, uci, i) &&
        o.generate(b.position)[i] == r.value
  {
    FindFrom(o.generate(b.position), o.stringify, uci, 0)
  }

  /**
    `Board::move_is_valid`: holds exactly when some generated move has the
    text `uci` and the first such move passes both of the library's legality
    checks. In particular it is false when no generated move matches.
   */
  function MoveIsValid(o: Oracle, b: Board, uci: string): (r: bool)
    ensures r <==>
      exists i :: IsFirstMatch(o.generate(b.position), o.stringify, uci, i) &&
        o.pseudoLegal(b.position, o.generate(b.position)[i]) &&
        o.legal(b.position, o.generate(b.position)[i])
  {
    match MoveFromUci(o, b, uci)
    case Some(m) => o.pseudoLegal(b.position, m) && o.legal(b.position, m)
    case None => false
  }

  // ---------------------------------------------------------------------------
  // Game, as a value: the specification of `Game::make_move`
  // ---------------------------------------------------------------------------

  /** What a `Game` holds: the current board and the FEN history, oldest first. */
  datatype GameState = GameState(board: Board, history: seq<Fen>)

  /** `Game::default`: the default board and an empty history. */
  function StartState(o: Oracle): (s: GameState)
  {
    GameState(DefaultBoard(o), [])
  }

  /** Whenever the history is non-empty, its last entry is the FEN of the current board. */
  ghost predicate LastIsCurrent(o: Oracle, s: GameState)
  {
    s.history != [] ==> s.history[|s.history| - 1] == BoardFen(o, s.board)
  }

  /**
    One call of `Game::make_move`: the new state and the returned flag. The
    call succeeds exactly when the board accepts the move; it is then the
    new board's, the history grows by one entry, the FEN of the new board,
    and keeps all earlier entries. A failed call changes nothing.
   */
  function Step(o: Oracle, s: GameState, mv: string): (r: (GameState, bool))
    ensures r.1 <==> BoardMakeMove(o, s.board, mv).Some?
    ensures !r.1 ==> r.0 == s
    ensures r.1 ==>
      && r.0.board == BoardMakeMove(o, s.board, mv).value
      && |r.0.history| == |s.history| + 1
      && r.0.history[..|s.history|] == s.history
      && LastIsCurrent(o, r.0)
  {
    match BoardMakeMove(o, s.board, mv)
    case None => (s, false)
    case Some(nb) => (GameState(nb, s.history + [BoardFen(o, nb)]), true)
  }

  /**
    A sequence of calls of `Game::make_move` from `s`, with the move texts
    `mvs`: the final state and what each call returned, in order.
   */
  function Run(o: Oracle, s: GameState, mvs: seq<string>): (r: (GameState, seq<bool>))
    ensures |r.1| == |mvs|
    decreases |mvs|
  {
    if mvs == [] then (s, [])
    else
      var (s', oks) := Run(o, s, mvs[..|mvs| - 1]);
      var (s'', ok) := Step(o, s', mvs[|mvs| - 1]);
      (s'', oks + [ok])
  }

  /** The number of `true`s in `oks`. */
  function Count(oks: seq<bool>): (n: nat)
  {
    if oks == [] then 0
    else Count(oks[..|oks| - 1]) + (if oks[|oks| - 1] then 1 else 0)
  }

  /** Running `a` and then `b` is running `a + b`. */
  lemma {:induction false} RunAppend(o: Oracle, s: GameState, a: seq<string>, b: seq<string>)
    ensures Run(o, s, a + b) ==
      (Run(o, Run(o, s, a).0, b).0, Run(o, s, a).1 + Run(o, Run(o, s, a).0, b).1)
    decreases |b|
  {
    if b == [] {
      assert a + b == a;
      var mid := Run(o, s, a);
      assert Run(o, mid.0, b) == (mid.0, []);
      assert mid.1 + [] == mid.1;
    } else {
      var b' := b[..|b| - 1];
      RunAppend(o, s, a, b');
      assert (a + b)[..|a + b| - 1] == a + b';
      assert (a + b)[|a + b| - 1] == b[|b| - 1];
      var mid := Run(o, s, a);
      var left := Run(o, mid.0, b');
      var last := Step(o, left.0, b[|b| - 1]);
      assert Run(o, mid.0, b) == (last.0, left.1 + [last.1]);
      assert Run(o, s, a + b) == (last.0, (mid.1 + left.1) + [last.1]);
      assert (mid.1 + left.1) + [last.1] == mid.1 + (left.1 + [last.1]);
    }
  }

  /** The history grows by exactly one entry per call that returned true. */
  lemma {:induction false} RunHistoryLength(o: Oracle, s: GameState, mvs: seq<string>)
    ensures |Run(o, s, mvs).0.history| == |s.history| + Count(Run(o, s, mvs).1)
    decreases |mvs|
  {
    if mvs != [] {
      var init := mvs[..|mvs| - 1];
      RunHistoryLength(o, s, init);
      var oks := Run(o, s, mvs).1;
      assert oks[..|oks| - 1] == Run(o, s, init).1;
    }
  }

  /** History is append-only: entries present before the calls are never changed. */
  lemma {:induction false} RunKeepsHistoryPrefix(o: Oracle, s: GameState, mvs: seq<string>)
    ensures s.history <= Run(o, s, mvs).0.history
    decreases |mvs|
  {
    if mvs != [] {
      var init := mvs[..|mvs| - 1];
      RunKeepsHistoryPrefix(o, s, init);
    }
  }

  /** The last history entry stays the FEN of the current board across any calls. */
  lemma {:induction false} RunKeepsLastIsCurrent(o: Oracle, s: GameState, mvs: seq<string>)
    requires LastIsCurrent(o, s)
    ensures LastIsCurrent(o, Run(o, s, mvs).0)
    decreases |mvs|
  {
    if mvs != [] {
      RunKeepsLastIsCurrent(o, s, mvs[..|mvs| - 1]);
    }
  }

  /**
    From a fresh game, after any calls of `Game::make_move`: the history has
    one entry per call that returned true, and its last entry, if any, is
    the FEN of the current board.
   */
  lemma {:induction false} GameHistoryInvariant(o: Oracle, mvs: seq<string>)
    ensures |Run(o, StartState(o), mvs).0.history| == Count(Run(o, StartState(o), mvs).1)
    ensures LastIsCurrent(o, Run(o, StartState(o), mvs).0)
  {
    RunHistoryLength(o, StartState(o), mvs);
    RunKeepsLastIsCurrent(o, StartState(o), mvs);
  }

  /** Entries written by earlier calls are never changed by later calls. */
  lemma {:induction false} HistoryNeverRewritten(o: Oracle, s: GameState, earlier: seq<string>, later: seq<string>)
    ensures Run(o, s, earlier).0.history <= Run(o, s, earlier + later).0.history
  {
    RunAppend(o, s, earlier, later);
    RunKeepsHistoryPrefix(o, Run(o, s, earlier).0, later);
  }

  // ---------------------------------------------------------------------------
  // Game, as the object the source updates in place
  // ---------------------------------------------------------------------------

  /**
    `Game`: a board and its append-only FEN history. The ghost fields record
    every move text passed to `MakeMove` and what each call returned; the
    invariant says the game is exactly what those calls produce from the
    start state.
   */
  class Game {
    const oracle: Oracle
    var board: Board
    var history: seq<Fen>
    ghost var calls: seq<string>
    ghost var outcomes: seq<bool>

    ghost predicate Valid()
      reads this
    {
      Run(oracle, StartState(oracle), calls) == (GameState(board, history), outcomes)
    }

    /** `Game::default`: the start position and an empty history. */
    constructor (o: Oracle)
      ensures Valid()
      ensures oracle == o && board == DefaultBoard(o) && board.position == o.start
      ensures history == [] && calls == [] && outcomes == []
    {
      oracle := o;
      board := DefaultBoard(o);
      history := [];
      calls := [];
      outcomes := [];
    }

    /**
      `Game::make_move`: all or nothing. On success the board is replaced by
      the new one and its FEN is pushed; on failure nothing changes. Either
      way the history keeps one entry per successful call so far, and its
      last entry is the current board's FEN.
     */
    method MakeMove(mv: string) returns (success: bool)
      requires Valid()
      modifies this
      ensures Valid()
      ensures calls == old(calls) + [mv] && outcomes == old(outcomes) + [success]
      ensures success <==> BoardMakeMove(oracle, old(board), mv).Some?
      ensures success ==>
        board == BoardMakeMove(oracle, old(board), mv).value &&
        history == old(history) + [BoardFen(oracle, board)]
      ensures !success ==> board == old(board) && history == old(history)
      ensures |history| == Count(outcomes)
      ensures history != [] ==> history[|history| - 1] == BoardFen(oracle, board)
    {
      var newBoard := BoardMakeMove(oracle, board, mv);
      success := newBoard.Some?;
      if success {
        board := newBoard.value;
        history := history + [BoardFen(oracle, board)];
      }
      calls := calls + [mv];
      outcomes := outcomes + [success];
      assert calls[..|calls| - 1] == old(calls);
      GameHistoryInvariant(oracle, calls);
    }
  }
}

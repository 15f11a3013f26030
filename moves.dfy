/**
 The move-result state machine of `Game`: turn alternation, the private
 `playerMove` that plays a cell and classifies the new board, and the decision
 of the public `playerMove` (accept, reject or restart). The invariant
 `Consistent` holds of the first state and of every state a move produces.
 */
module Moves {
  import opened Domain
  import opened Rules

  /** `otherPlayer`. */
  function OtherPlayer(player: Player): (other: Player)
    ensures other != player
  {
    match player
    case Player0 => PlayerX
    case PlayerX => Player0
  }

  /** With two players, taking the other one twice gives back the first. */
  lemma OtherPlayerIsInvolution(player: Player)
    ensures OtherPlayer(OtherPlayer(player)) == player
    ensures player == Player0 || player == PlayerX
  {
  }

  /** `cellState`: the board every state carries. */
  function BoardOf(s: MoveResult): Board {
    match s
    case GameTied(state) => state
    case GameWon(_, state) => state
    case Player0ToMove(state, _) => state
    case PlayerXToMove(state, _) => state
  }

  /** A game that is still in play, i.e. one of the two to-move states. */
  predicate InPlay(s: MoveResult) {
    s.PlayerXToMove? || s.Player0ToMove?
  }

  function SideToMove(s: MoveResult): Player
    requires InPlay(s)
  {
    if s.PlayerXToMove? then PlayerX else Player0
  }

  /** The state of a new game: the user to move on the empty board, every
      cell playable. */
  function NewGameState(): MoveResult {
    PlayerXToMove(EmptyGameBoard(), EmptyGameBoard())
  }

  /** The private `playerMove`: `player` plays `movePos`; a win for `player`
      takes precedence over a full board, and otherwise the other player moves
      next, with the empty cells as the moves on offer. */
  function PlayerMove(player: Player, movePos: CellPosition, cells: Board): (r: MoveResult)
    requires Covers(cells)
    ensures BoardOf(r) == UpdateCell(Cell(Played(player), movePos), cells) && Covers(BoardOf(r))
    ensures IsGameWon(player, BoardOf(r)) ==> r == GameWon(player, BoardOf(r))
    ensures !IsGameWon(player, BoardOf(r)) && IsGameTied(BoardOf(r)) ==> r == GameTied(BoardOf(r))
    ensures InPlay(r) <==> !IsGameWon(player, BoardOf(r)) && !IsGameTied(BoardOf(r))
    ensures InPlay(r) ==> SideToMove(r) == OtherPlayer(player) && r.nextMove == RemainingMoves(BoardOf(r))
  {
    var newGameState := UpdateCell(Cell(Played(player), movePos), cells);
    assert Covers(newGameState) by {
      forall p ensures HasCellAt(newGameState, p) {
        assert HasCellAt(cells, p);
        var i :| 0 <= i < |cells| && cells[i].position == p;
        assert Positions(newGameState)[i] == Positions(cells)[i];
      }
    }
    if IsGameWon(player, newGameState) then
      GameWon(player, newGameState)
    else if IsGameTied(newGameState) then
      GameTied(newGameState)
    else
      var availableMoves := RemainingMoves(newGameState);
      match OtherPlayer(player)
      case Player0 => Player0ToMove(newGameState, availableMoves)
      case PlayerX => PlayerXToMove(newGameState, availableMoves)
  }

  /** What the public `playerMove` does to the game's state: assigns a new one
      (which notifies the observers) or leaves it alone. */
  datatype Update = Unchanged | Assign(state: MoveResult)

  /** The public `playerMove`. A finished game restarts on any input; a game
      in play accepts a move only from the side to move and only on a cell
      listed in `nextMove`, and otherwise nothing happens. */
  function Transition(s: MoveResult, player: Player, movePos: CellPosition): (u: Update)
    requires InPlay(s) ==> Covers(s.display)
    ensures !InPlay(s) ==> u == Assign(NewGameState())
    ensures InPlay(s) ==>
      (u == Unchanged <==> player != SideToMove(s) || !HasCellAt(s.nextMove, movePos))
    ensures InPlay(s) && u.Assign? ==> u.state == PlayerMove(player, movePos, s.display)
  {
    match s
    case GameTied(_) => Assign(NewGameState())
    case GameWon(_, _) => Assign(NewGameState())
    case Player0ToMove(cells, nextMoves) =>
      if player == Player0 && HasCellAt(nextMoves, movePos) then
        Assign(PlayerMove(player, movePos, cells))
      else Unchanged
    case PlayerXToMove(cells, nextMoves) =>
      if player == PlayerX && HasCellAt(nextMoves, movePos) then
        Assign(PlayerMove(player, movePos, cells))
      else Unchanged
  }

  /** Neither player holds a line. */
  predicate NoWinner(cells: Board)
    requires Covers(cells)
  {
    !IsGameWon(PlayerX, cells) && !IsGameWon(Player0, cells)
  }

  /** The invariant of every state a game can be in. The board is well formed;
      in play, nobody has won, some cell is still free, `nextMove` is exactly
      the free cells, and the user (who starts) has played as often as the AI
      when it is the user's turn and once more when it is the AI's; a won game
      has one winner, who made the last move; a tied game is full, without a
      winner, and ended on the user's move. */
  predicate Consistent(s: MoveResult) {
    var d := BoardOf(s);
    WellFormed(d) &&
    match s
    case PlayerXToMove(_, n) =>
      n == RemainingMoves(d) && n != [] && NoWinner(d) && Count(PlayerX, d) == Count(Player0, d)
    case Player0ToMove(_, n) =>
      n == RemainingMoves(d) && n != [] && NoWinner(d) && Count(PlayerX, d) == Count(Player0, d) + 1
    case GameWon(p, _) =>
      IsGameWon(p, d) && !IsGameWon(OtherPlayer(p), d)
      && Count(PlayerX, d) == Count(Player0, d) + (if p == PlayerX then 1 else 0)
    case GameTied(_) =>
      IsGameTied(d) && NoWinner(d) && Count(PlayerX, d) == Count(Player0, d) + 1
  }

  /** The number of played cells. */
  function PlayedCount(cells: Board): nat {
    Count(PlayerX, cells) + Count(Player0, cells)
  }

  // ---------------------------------------------------------------------------
  // What a move does to the board
  // ---------------------------------------------------------------------------

  /** On a board with only empty cells nothing has been played and every cell
      remains to be played. */
  lemma {:induction false} AllEmptyBoard(cells: Board)
    requires forall c :: c in cells ==> c.state == Empty
    ensures RemainingMoves(cells) == cells
    ensures Count(PlayerX, cells) == 0 && Count(Player0, cells) == 0
  {
    if cells != [] {
      assert cells[0] in cells;
      assert forall c :: c in cells[1..] ==> c in cells;
      AllEmptyBoard(cells[1..]);
    }
  }

  /** Playing a free cell of a well-formed board: the board stays well formed,
      that cell and only that cell now belongs to `player`, `player` has one
      more cell, the other player has the same cells, and so cannot have won
      by this move. */
  lemma MoveOnFreeCell(player: Player, pos: CellPosition, cells: Board)
    requires WellFormed(cells) && HasCellAt(RemainingMoves(cells), pos)
    ensures var after := UpdateCell(Cell(Played(player), pos), cells);
      && WellFormed(after)
      && GetCell(cells, pos).state == Empty
      && GetCell(after, pos) == Cell(Played(player), pos)
      && (forall q :: q != pos ==> GetCell(after, q) == GetCell(cells, q))
      && Count(player, after) == Count(player, cells) + 1
      && Count(OtherPlayer(player), after) == Count(OtherPlayer(player), cells)
      && (IsGameWon(OtherPlayer(player), after) ==> IsGameWon(OtherPlayer(player), cells))
  {
    var cell := Cell(Played(player), pos);
    var after := UpdateCell(cell, cells);
    FreeCellListed(cells, pos);
    GetAfterUpdate(cell, cells, pos);
    assert WellFormed(after);
    forall q ensures GetCell(after, q) == if q == pos then cell else GetCell(cells, q) {
      GetAfterUpdate(cell, cells, q);
    }
    assert HasCellAt(cells, pos);
    var k :| 0 <= k < |cells| && cells[k].position == pos;
    GetCellFinds(cells, k);
    assert after == cells[k := cell];
    CountReplace(player, cells, k, cell);
    CountReplace(OtherPlayer(player), cells, k, cell);
    NoNewLineForOther(player, pos, cells, after);
  }

  /** A board that differs from another only by a cell of `player` gives the
      other player no line the first board did not. */
  lemma NoNewLineForOther(player: Player, pos: CellPosition, cells: Board, after: Board)
    requires Covers(cells) && Covers(after)
    requires GetCell(after, pos) == Cell(Played(player), pos)
    requires forall q :: q != pos ==> GetCell(after, q) == GetCell(cells, q)
    ensures IsGameWon(OtherPlayer(player), after) ==> IsGameWon(OtherPlayer(player), cells)
  {
    var other := OtherPlayer(player);
    if IsGameWon(other, after) {
      var l :| l in LinesToCheck() && LineIsAllSamePlayer(other, l, after);
      assert LineIsAllSamePlayer(other, l, cells);
    }
  }

  /** `nextMove` of a consistent state in play lists exactly the free cells. */
  lemma NextMoveIsFreeCells(s: MoveResult)
    requires Consistent(s) && InPlay(s)
    ensures forall pos :: HasCellAt(s.nextMove, pos) <==> GetCell(s.display, pos).state == Empty
  {
    forall pos ensures HasCellAt(s.nextMove, pos) <==> GetCell(s.display, pos).state == Empty {
      FreeCellListed(s.display, pos);
    }
  }

  /** A position has a cell among the remaining moves of a well-formed board
      exactly when its cell is empty. */
  lemma FreeCellListed(d: Board, pos: CellPosition)
    requires WellFormed(d)
    ensures HasCellAt(RemainingMoves(d), pos) <==> GetCell(d, pos).state == Empty
  {
    var free := RemainingMoves(d);
    assert HasCellAt(d, pos);
    var k :| 0 <= k < |d| && d[k].position == pos;
    GetCellFinds(d, k);
    RemainingMovesMembers(d);
    if HasCellAt(free, pos) {
      var i :| 0 <= i < |free| && free[i].position == pos;
      assert free[i] in free;
      var j :| 0 <= j < |d| && d[j] == free[i];
    }
    if d[k].state == Empty {
      assert d[k] in d;
      assert d[k] in free;
    }
  }

  // ---------------------------------------------------------------------------
  // The invariant
  // ---------------------------------------------------------------------------

  /** Nobody has won a board whose cells are all empty. */
  lemma NothingPlayedNoWin(player: Player, cells: Board)
    requires Covers(cells) && forall c :: c in cells ==> c.state == Empty
    ensures !IsGameWon(player, cells)
  {
    LinesAreAligned();
    forall l | l in LinesToCheck()
      ensures !LineIsAllSamePlayer(player, l, cells)
    {
      assert l[0] in l && GetCell(cells, l[0]) in cells;
    }
  }

  /** A new game starts in a consistent state with nothing played. */
  lemma NewGameConsistent()
    ensures Consistent(NewGameState()) && SideToMove(NewGameState()) == PlayerX
    ensures PlayedCount(BoardOf(NewGameState())) == 0
    ensures Positions(NewGameState().nextMove) == AllPositions()
  {
    var board := EmptyGameBoard();
    EmptyGameBoardFacts();
    AllEmptyBoard(board);
    NothingPlayedNoWin(PlayerX, board);
    NothingPlayedNoWin(Player0, board);
    InPlayIsConsistent(NewGameState());
  }

  /** The board after a move accepted in play: still well formed, the mover's
      opponent still holds no line, and the counts of the two players keep
      their relation with the mover now the last to have played. */
  lemma AcceptedMoveBoard(s: MoveResult, player: Player, movePos: CellPosition)
    requires Consistent(s) && InPlay(s) && player == SideToMove(s) && HasCellAt(s.nextMove, movePos)
    ensures var after := UpdateCell(Cell(Played(player), movePos), s.display);
      && WellFormed(after)
      && !IsGameWon(OtherPlayer(player), after)
      && Count(PlayerX, after) == Count(Player0, after) + (if player == PlayerX then 1 else 0)
      && |RemainingMoves(after)| + Count(PlayerX, after) + Count(Player0, after) == 9
  {
    var after := UpdateCell(Cell(Played(player), movePos), s.display);
    MoveOnFreeCell(player, movePos, s.display);
    CellsAddUp(after);
  }

  /** A move accepted in play leads to a consistent state. */
  lemma PlayerMoveConsistent(s: MoveResult, player: Player, movePos: CellPosition)
    requires Consistent(s) && InPlay(s) && player == SideToMove(s) && HasCellAt(s.nextMove, movePos)
    ensures Consistent(PlayerMove(player, movePos, s.display))
  {
    var r := PlayerMove(player, movePos, s.display);
    var after := BoardOf(r);
    AcceptedMoveBoard(s, player, movePos);
    if IsGameWon(player, after) {
      WonIsConsistent(player, after);
    } else if IsGameTied(after) {
      TiedIffFull(after);
      TiedIsConsistent(after);
    } else {
      TiedIffFull(after);
      InPlayIsConsistent(r);
    }
  }

  lemma WonIsConsistent(p: Player, d: Board)
    requires WellFormed(d) && IsGameWon(p, d) && !IsGameWon(OtherPlayer(p), d)
    requires Count(PlayerX, d) == Count(Player0, d) + (if p == PlayerX then 1 else 0)
    ensures Consistent(GameWon(p, d))
  {
  }

  lemma TiedIsConsistent(d: Board)
    requires WellFormed(d) && IsGameTied(d) && NoWinner(d)
    requires Count(PlayerX, d) + Count(Player0, d) == 9
    requires Count(PlayerX, d) == Count(Player0, d) || Count(PlayerX, d) == Count(Player0, d) + 1
    ensures Consistent(GameTied(d))
  {
  }

  lemma InPlayIsConsistent(r: MoveResult)
    requires InPlay(r) && WellFormed(r.display) && r.nextMove == RemainingMoves(r.display) && r.nextMove != []
    requires NoWinner(r.display)
    requires SideToMove(r) == PlayerX ==> Count(PlayerX, r.display) == Count(Player0, r.display)
    requires SideToMove(r) == Player0 ==> Count(PlayerX, r.display) == Count(Player0, r.display) + 1
    ensures Consistent(r)
  {
  }

  /** Every state a move produces from a consistent state is consistent. */
  lemma TransitionPreservesConsistency(s: MoveResult, player: Player, movePos: CellPosition)
    requires Consistent(s)
    ensures var u := Transition(s, player, movePos); u.Assign? ==> Consistent(u.state)
  {
    if !InPlay(s) {
      NewGameConsistent();
    } else if Transition(s, player, movePos).Assign? {
      PlayerMoveConsistent(s, player, movePos);
    }
  }

  /** An accepted move in play fills one free cell of the board, changes no
      other cell, and hands the turn to the other player if the game goes on. */
  lemma AcceptedMove(s: MoveResult, player: Player, movePos: CellPosition)
    requires Consistent(s) && InPlay(s) && Transition(s, player, movePos).Assign?
    ensures var r := Transition(s, player, movePos).state;
      && player == SideToMove(s)
      && GetCell(s.display, movePos).state == Empty
      && GetCell(BoardOf(r), movePos) == Cell(Played(player), movePos)
      && (forall q :: q != movePos ==> GetCell(BoardOf(r), q) == GetCell(s.display, q))
      && PlayedCount(BoardOf(r)) == PlayedCount(s.display) + 1
      && (InPlay(r) ==> SideToMove(r) == OtherPlayer(SideToMove(s)))
  {
    MoveOnFreeCell(player, movePos, s.display);
  }

  /** A finished game restarts on any input to the state of a new game. */
  lemma FinishedGameRestarts(s: MoveResult, player: Player, movePos: CellPosition)
    requires !InPlay(s)
    ensures Transition(s, player, movePos) == Assign(PlayerXToMove(EmptyGameBoard(), EmptyGameBoard()))
  {
  }

  /** In a consistent state at most one player holds a line. */
  lemma AtMostOneWinner(s: MoveResult)
    requires Consistent(s)
    ensures !(IsGameWon(PlayerX, BoardOf(s)) && IsGameWon(Player0, BoardOf(s)))
  {
  }

  /** Turns alternate starting with the user: it is the user's turn exactly
      when an even number of cells has been played. */
  lemma TurnsAlternate(s: MoveResult)
    requires Consistent(s) && InPlay(s)
    ensures SideToMove(s) == PlayerX <==> PlayedCount(BoardOf(s)) % 2 == 0
  {
  }
}

/**
 The value types of the tic-tac-toe rules engine: board coordinates, players,
 cells and the four-variant move result that the game exposes.
 */
module Domain {

  datatype HorizontalPosition = Left | HCenter | Right

  datatype VerticalPosition = Top | VCenter | Bottom

  /** A board coordinate; equality is structural on both axes. */
  datatype CellPosition = CellPosition(hPosition: HorizontalPosition, vPosition: VerticalPosition)

  /** The static constructor `make`. */
  function Make(h: HorizontalPosition, v: VerticalPosition): (p: CellPosition)
    ensures p.hPosition == h && p.vPosition == v
  {
    CellPosition(h, v)
  }

  /** `make` is injective and every position is made by it, so positions are
      exactly the pairs of the two axes. */
  lemma MakeIsBijective(h: HorizontalPosition, v: VerticalPosition, h': HorizontalPosition, v': VerticalPosition, p: CellPosition)
    ensures Make(h, v) == Make(h', v') <==> h == h' && v == v'
    ensures p == Make(p.hPosition, p.vPosition)
  {
  }

  /** Every horizontal (vertical) coordinate is one of exactly three values. */
  lemma AxesHaveThreeValues(h: HorizontalPosition, v: VerticalPosition)
    ensures h == Left || h == HCenter || h == Right
    ensures v == Top || v == VCenter || v == Bottom
    ensures Left != HCenter && HCenter != Right && Left != Right
    ensures Top != VCenter && VCenter != Bottom && Top != Bottom
  {
  }

  /** `player0` is the AI, `playerX` the user, who moves first. */
  datatype Player = Player0 | PlayerX

  /** The label shown for a player. */
  function TextValue(player: Player): (s: string)
    ensures s == "AI" <==> player == Player0
    ensures s == "User" <==> player == PlayerX
  {
    match player
    case Player0 => "AI"
    case PlayerX => "User"
  }

  datatype CellState = Played(player: Player) | Empty

  /** CellState equality as the derived `Equatable` gives it. */
  lemma CellStateEquality(p: Player, q: Player)
    ensures Played(p) != Empty
    ensures Played(p) == Played(q) <==> p == q
  {
  }

  datatype Cell = Cell(state: CellState, position: CellPosition)

  /** A board (the source's `GameState`) is an ordered list of cells. */
  type Board = seq<Cell>

  /** The game's state: whose turn it is (with the board to display and the
      cells that may be played), or a finished game. */
  datatype MoveResult =
    | PlayerXToMove(display: Board, nextMove: Board)
    | Player0ToMove(display: Board, nextMove: Board)
    | GameWon(winner: Player, board: Board)
    | GameTied(board: Board)
}

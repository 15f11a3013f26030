# Tic-Tac-Toe rules engine, in Dafny

This project models the rules engine of the iOS game *Tic-Tac-Toe Without
Touches*: the `Game` class and its domain types. The user (`playerX`) plays
against the AI (`player0`) on a 3x3 board.

- The board is a list of nine cells, one per position, built as the flat map
  of the horizontal by the vertical coordinates.
- The game's whole state is one `MoveResult`:
  - the user to move;
  - the AI to move;
  - won by a player;
  - tied.
  A to-move state carries the board to display and the cells that may be
  played next.
- The public `playerMove` is the only public operation that changes that
  state:
  - in a finished game, any input restarts on the empty board;
  - in play, it accepts a move only from the side to move and only on a cell
    listed in `nextMove`;
  - any other input changes nothing.
- Every assignment of the state after initialization notifies a registry of
  observers keyed by identity; the assignment in `init` runs no `didSet`. Observers whose weak reference has lapsed are dropped while the
  registry is walked.

The model has four modules:

- `Domain` (`domain.dfy`): the value types of `GameDomain.swift`.
- `Rules` (`rules.dfy`): the pure helpers of `Game.swift`: `emptyGameBoard`,
  `linesToCheck`, `getCell`, `updateCell`, `remainingMoves`, `isGameWon` and
  `isGameTied`.
  - Two references are proved against the code:
    - a geometric one, `Aligned`: three distinct cells in one column, one row
      or one diagonal of the grid. `isGameWon` is proved to decide "three
      aligned cells of one player".
    - cell counts: `isGameTied` is proved to mean "no move remains".
- `Moves` (`moves.dfy`):
  - `otherPlayer` and the private `playerMove`;
  - `Transition`, the decision the public `playerMove` takes;
  - `Consistent`, the invariant of every reachable state:
    - a well-formed board;
    - `nextMove` equal to the empty cells;
    - nobody has won while the game is in play;
    - the user has played as often as the AI, or once more.
  `Consistent` is proved to hold of the first state and to be kept by every
  transition.
- `Engine` (`engine.dfy`): the `Game` class. Its fields are:
  - `gameState`;
  - the `observations` registry, a map from an observer's identity to whether
    its weak reference is still live;
  - two ghost fields: the sequence of notified sets, and the number of moves
    accepted since the board was last empty.

  The public `playerMove` is a method that keeps the class invariant `Valid()`.
  Its `ensures` ties the new state to `Transition`. `stateDidChanged` is a
  loop over the registry's keys with its invariants.

In a finished game the code restarts on any `playerMove` call, from either
player and at any position, rather than only on an explicit request for a new
game. The model does the same.

## Model

| member | source | states |
|---|---|---|
| Domain.Make | Tic-Tac-Toe-Without-Touches/Tic-Tac-Toe-Without-Touches/Game/GameDomain.swift:26-28 | the position made from `h` and `v` has exactly those coordinates |
| Domain.MakeIsBijective | Tic-Tac-Toe-Without-Touches/Tic-Tac-Toe-Without-Touches/Game/GameDomain.swift:22-28 | two made positions are equal iff both coordinates are (structural `Equatable`), and every position is made from its own coordinates |
| Domain.AxesHaveThreeValues | Tic-Tac-Toe-Without-Touches/Tic-Tac-Toe-Without-Touches/Game/GameDomain.swift:10-20 | each axis has exactly three pairwise different values |
| Domain.TextValue | Tic-Tac-Toe-Without-Touches/Tic-Tac-Toe-Without-Touches/Game/GameDomain.swift:54-63 | the label is "AI" exactly for `player0` and "User" exactly for `playerX`, so the two labels differ |
| Domain.CellStateEquality | Tic-Tac-Toe-Without-Touches/Tic-Tac-Toe-Without-Touches/Game/GameDomain.swift:36-39 | `.empty` differs from every `.played(p)`, and `.played(p) == .played(q)` iff `p == q` |
| Rules.Along | Tic-Tac-Toe-Without-Touches/Tic-Tac-Toe-Without-Touches/Game/Game.swift:29-31 | the inner `vs.map { make(h, $0) }`; its contract is `Rules.AlongMembers` |
| Rules.Across | Tic-Tac-Toe-Without-Touches/Tic-Tac-Toe-Without-Touches/Game/Game.swift:67-71 | the inner `hs.map { make($0, v) }` of the vertical lines; its members are fixed by `Rules.AcrossAll` and `Rules.LineMembership` |
| Rules.Grid | Tic-Tac-Toe-Without-Touches/Tic-Tac-Toe-Without-Touches/Game/Game.swift:29-33 | the `flatMap` over both axes; its contract is `Rules.GridMembers` |
| Rules.EmptyGameBoard | Tic-Tac-Toe-Without-Touches/Tic-Tac-Toe-Without-Touches/Game/Game.swift:28-35 | one empty cell per position of the `flatMap`, in its order; its contract is `Rules.EmptyGameBoardFacts` |
| Rules.LinesToCheck | Tic-Tac-Toe-Without-Touches/Tic-Tac-Toe-Without-Touches/Game/Game.swift:61-89 | the two diagonals, the fixed-horizontal and the fixed-vertical lines; its contracts are `Rules.LinesToCheckInOrder`, `Rules.LinesAreAligned`, `Rules.LinesDistinct` and `Rules.AlignedIsChecked` |
| Rules.AlongMembers | Tic-Tac-Toe-Without-Touches/Tic-Tac-Toe-Without-Touches/Game/Game.swift:29-31 | the inner `map` holds exactly the positions with horizontal coordinate `h` and a listed vertical one, without repeats when the list has none |
| Rules.GridMembers | Tic-Tac-Toe-Without-Touches/Tic-Tac-Toe-Without-Touches/Game/Game.swift:29-33 | the `flatMap` has one entry per pair of coordinates: its length is the product of the lengths, it holds exactly the pairs, and it has no repeats when neither list has any |
| Rules.AllPositionsInOrder | Tic-Tac-Toe-Without-Touches/Tic-Tac-Toe-Without-Touches/Game/Game.swift:26-33 | the positions of the empty board, written out: horizontal-major order |
| Rules.AllPositionsComplete | Tic-Tac-Toe-Without-Touches/Tic-Tac-Toe-Without-Touches/Game/Game.swift:26-33 | there are nine positions, pairwise distinct, and every position of the grid is among them |
| Rules.EmptyGameBoardFacts | Tic-Tac-Toe-Without-Touches/Tic-Tac-Toe-Without-Touches/Game/Game.swift:28-35 | `emptyGameBoard` has nine cells, all empty, at the nine positions in horizontal-major order |
| Rules.LinesToCheckInOrder | Tic-Tac-Toe-Without-Touches/Tic-Tac-Toe-Without-Touches/Game/Game.swift:61-89 | the checked lines, written out: the two diagonals, the three fixed-horizontal lines, then the three fixed-vertical lines |
| Rules.LinesAreAligned | Tic-Tac-Toe-Without-Touches/Tic-Tac-Toe-Without-Touches/Game/Game.swift:61-89 | there are eight lines, and each is three distinct positions in one column, one row or one diagonal |
| Rules.LinesDistinct | Tic-Tac-Toe-Without-Touches/Tic-Tac-Toe-Without-Touches/Game/Game.swift:86-89 | no line is listed twice |
| Rules.LineMembership | Tic-Tac-Toe-Without-Touches/Tic-Tac-Toe-Without-Touches/Game/Game.swift:61-89 | a position lies on the k-th line iff its grid coordinates satisfy that line's equation |
| Rules.LinesMeetOnce | Tic-Tac-Toe-Without-Touches/Tic-Tac-Toe-Without-Touches/Game/Game.swift:61-89 | two different checked lines never share two positions, so no line repeats in any order |
| Rules.AlignedIsChecked | Tic-Tac-Toe-Without-Touches/Tic-Tac-Toe-Without-Touches/Game/Game.swift:61-89 | every three aligned positions of the grid make up one of the checked lines, so no line of the grid is missing |
| Rules.WellFormed | Tic-Tac-Toe-Without-Touches/Tic-Tac-Toe-Without-Touches/Game/Game.swift:28-35 | a board with the positions of `emptyGameBoard`, in order, has nine cells at distinct positions and a cell at every position |
| Rules.GetCell | Tic-Tac-Toe-Without-Touches/Tic-Tac-Toe-Without-Touches/Game/Game.swift:92-94 | the force unwrap succeeds when some cell sits at the position, and the cell found is the first cell of the board at that position, as `first(where:)` returns |
| Rules.GetCellFinds | Tic-Tac-Toe-Without-Touches/Tic-Tac-Toe-Without-Touches/Game/Game.swift:92-94 | on a board whose positions do not repeat, the lookup returns the one cell at that position |
| Rules.UpdateCell | Tic-Tac-Toe-Without-Touches/Tic-Tac-Toe-Without-Touches/Game/Game.swift:143-150 | length and the order of positions are kept, every cell at the new cell's position is replaced by it, and every other cell is kept |
| Rules.GetAfterUpdate | Tic-Tac-Toe-Without-Touches/Tic-Tac-Toe-Without-Touches/Game/Game.swift:143-150 | on a well-formed board the update keeps the board well formed, and a lookup finds the new cell at its position and the old cell everywhere else |
| Rules.RemainingMoves | Tic-Tac-Toe-Without-Touches/Tic-Tac-Toe-Without-Touches/Game/Game.swift:139-141 | `filter { $0.state == .empty }`: never longer than the board; its contracts are `Rules.RemainingMovesMembers` and `Rules.RemainingMovesConcat` |
| Rules.RemainingMovesConcat | Tic-Tac-Toe-Without-Touches/Tic-Tac-Toe-Without-Touches/Game/Game.swift:139-141 | the filter distributes over concatenation, so the remaining moves are the empty cells in board order, each as often as on the board |
| Rules.RemainingMovesMembers | Tic-Tac-Toe-Without-Touches/Tic-Tac-Toe-Without-Touches/Game/Game.swift:139-141 | the filter keeps exactly the empty cells of the board |
| Rules.CellsAddUp | Tic-Tac-Toe-Without-Touches/Tic-Tac-Toe-Without-Touches/Game/Game.swift:139-141 | remaining moves plus the cells of each player add up to the board's length |
| Rules.CountReplace | Tic-Tac-Toe-Without-Touches/Tic-Tac-Toe-Without-Touches/Game/Game.swift:143-150 | replacing one cell changes a player's count by what the old cell and the new cell contribute |
| Rules.CellWasPlayedBy | Tic-Tac-Toe-Without-Touches/Tic-Tac-Toe-Without-Touches/Game/Game.swift:98-105 | the cell is `.played(player)`; used through `Rules.PlayedAt` |
| Rules.LineIsAllSamePlayer | Tic-Tac-Toe-Without-Touches/Tic-Tac-Toe-Without-Touches/Game/Game.swift:107-111 | every position of the line looks up a cell played by `player`; used through `Rules.IsGameWonSound` and `Rules.IsGameWonComplete` |
| Rules.IsGameWon | Tic-Tac-Toe-Without-Touches/Tic-Tac-Toe-Without-Touches/Game/Game.swift:96-115 | some checked line is all `player`'s; its contract is `Rules.IsGameWonCorrect` |
| Rules.CellWasPlayed | Tic-Tac-Toe-Without-Touches/Tic-Tac-Toe-Without-Touches/Game/Game.swift:119-126 | the cell is not `.empty`; used through `Rules.TiedIffFull` |
| Rules.IsGameTied | Tic-Tac-Toe-Without-Touches/Tic-Tac-Toe-Without-Touches/Game/Game.swift:117-128 | every cell was played; its contract is `Rules.TiedIffFull` |
| Rules.PlayedAt | Tic-Tac-Toe-Without-Touches/Tic-Tac-Toe-Without-Touches/Game/Game.swift:98-111 | on a well-formed board, `cellWasPlayedBy` of the looked-up cell holds iff the board holds that position played by that player |
| Rules.IsGameWonSound | Tic-Tac-Toe-Without-Touches/Tic-Tac-Toe-Without-Touches/Game/Game.swift:96-115 | a win that `isGameWon` reports is three aligned positions played by that player |
| Rules.IsGameWonComplete | Tic-Tac-Toe-Without-Touches/Tic-Tac-Toe-Without-Touches/Game/Game.swift:96-115 | three aligned positions played by a player are always reported as a win |
| Rules.IsGameWonCorrect | Tic-Tac-Toe-Without-Touches/Tic-Tac-Toe-Without-Touches/Game/Game.swift:96-115 | `isGameWon` holds iff the player holds three aligned positions |
| Rules.TiedIffFull | Tic-Tac-Toe-Without-Touches/Tic-Tac-Toe-Without-Touches/Game/Game.swift:117-128 | `isGameTied` holds iff no cell is left to play, iff the two players' cells add up to the whole board |
| Moves.OtherPlayer | Tic-Tac-Toe-Without-Touches/Tic-Tac-Toe-Without-Touches/Game/Game.swift:130-137 | the other player differs from the given one |
| Moves.OtherPlayerIsInvolution | Tic-Tac-Toe-Without-Touches/Tic-Tac-Toe-Without-Touches/Game/Game.swift:130-137 | taking the other player twice gives back the player, and there are only the two players |
| Moves.BoardOf | Tic-Tac-Toe-Without-Touches/Tic-Tac-Toe-Without-Touches/Game/Game.swift:37-48 | the board every variant carries; its contract, under the invariant, is `Engine.Game.Cells` |
| Moves.NewGameState | Tic-Tac-Toe-Without-Touches/Tic-Tac-Toe-Without-Touches/Game/Game.swift:51-52 | the user to move, with the empty board both displayed and offered; its contract is `Moves.NewGameConsistent` |
| Moves.PlayerMove | Tic-Tac-Toe-Without-Touches/Tic-Tac-Toe-Without-Touches/Game/Game.swift:152-170 | the new board is the old one with the mover's cell; a win for the mover wins even on a full board; a full board without a win is a tie; otherwise the other player moves, offered the empty cells |
| Moves.Transition | Tic-Tac-Toe-Without-Touches/Tic-Tac-Toe-Without-Touches/Game/Game.swift:186-206 | a finished game is replaced by the new-game state; in play the state is unchanged iff the player is not the side to move or no `nextMove` cell is at the position; otherwise it becomes the private `playerMove`'s result |
| Moves.AllEmptyBoard | Tic-Tac-Toe-Without-Touches/Tic-Tac-Toe-Without-Touches/Game/Game.swift:50-52 | on a board of empty cells every cell remains to be played and neither player has a cell, so the new game's `nextMove` is its whole board |
| Moves.NothingPlayedNoWin | Tic-Tac-Toe-Without-Touches/Tic-Tac-Toe-Without-Touches/Game/Game.swift:96-115 | nobody has won a board with only empty cells |
| Moves.NewGameConsistent | Tic-Tac-Toe-Without-Touches/Tic-Tac-Toe-Without-Touches/Game/Game.swift:50-56 | the first state satisfies the invariant, has the user to move and nothing played, and offers every position |
| Moves.MoveOnFreeCell | Tic-Tac-Toe-Without-Touches/Tic-Tac-Toe-Without-Touches/Game/Game.swift:152-154 | playing a free cell keeps the board well formed, fills exactly that cell, adds one cell to the mover and none to the other player, and gives the other player no new line |
| Moves.NoNewLineForOther | Tic-Tac-Toe-Without-Touches/Tic-Tac-Toe-Without-Touches/Game/Game.swift:96-115 | a board that differs from another only by a cell of `player` gives the other player no line it did not already hold |
| Moves.FreeCellListed | Tic-Tac-Toe-Without-Touches/Tic-Tac-Toe-Without-Touches/Game/Game.swift:139-141 | a position appears among the remaining moves of a well-formed board iff its cell is empty |
| Moves.NextMoveIsFreeCells | Tic-Tac-Toe-Without-Touches/Tic-Tac-Toe-Without-Touches/Game/Game.swift:164-169 | in every consistent state in play, `nextMove` offers a position iff that cell is empty |
| Moves.AcceptedMoveBoard | Tic-Tac-Toe-Without-Touches/Tic-Tac-Toe-Without-Touches/Game/Game.swift:152-170 | after an accepted move the board is well formed, the mover's opponent still holds no line, and the counts show the mover as the last to play |
| Moves.PlayerMoveConsistent | Tic-Tac-Toe-Without-Touches/Tic-Tac-Toe-Without-Touches/Game/Game.swift:152-170 | an accepted move from a consistent state gives a consistent state, whichever of won, tied or in play it is |
| Moves.TransitionPreservesConsistency | Tic-Tac-Toe-Without-Touches/Tic-Tac-Toe-Without-Touches/Game/Game.swift:186-206 | every state the public `playerMove` assigns from a consistent state is consistent |
| Moves.AcceptedMove | Tic-Tac-Toe-Without-Touches/Tic-Tac-Toe-Without-Touches/Game/Game.swift:194-202 | an accepted move came from the side to move on an empty cell; it fills that cell only; exactly one more cell is played; if the game goes on, the turn passes to the other player |
| Moves.FinishedGameRestarts | Tic-Tac-Toe-Without-Touches/Tic-Tac-Toe-Without-Touches/Game/Game.swift:188-192 | in a won or tied game any input assigns the user to move on the empty board with every cell as `nextMove` |
| Moves.AtMostOneWinner | Tic-Tac-Toe-Without-Touches/Tic-Tac-Toe-Without-Touches/Game/Game.swift:155-156 | in a consistent state the two players never both hold a line |
| Moves.TurnsAlternate | Tic-Tac-Toe-Without-Touches/Tic-Tac-Toe-Without-Touches/Game/Game.swift:160-169 | in play it is the user's turn iff an even number of cells has been played |
| Engine.Game.NewGame | Tic-Tac-Toe-Without-Touches/Tic-Tac-Toe-Without-Touches/Game/Game.swift:50-56 | `newGame` starts in the new-game state, which satisfies the invariant, with no observers |
| Engine.Game.Cells | Tic-Tac-Toe-Without-Touches/Tic-Tac-Toe-Without-Touches/Game/Game.swift:37-48 | `cellState` is the board of whatever the state is (`Moves.BoardOf`); under the invariant it has nine cells, one at every position, in the order of `emptyGameBoard` |
| Engine.Game.AvailableMoves | Tic-Tac-Toe-Without-Touches/Tic-Tac-Toe-Without-Touches/Game/Game.swift:175-184 | the `nextMove` positions for the side to move and nothing for anyone else; under the invariant the list is non-empty iff the player is to move, and it holds exactly the empty cells |
| Engine.FreePositions | Tic-Tac-Toe-Without-Touches/Tic-Tac-Toe-Without-Touches/Game/Game.swift:178-181 | the positions of `nextMove`; in a consistent state, not empty and exactly the positions of the empty cells |
| Engine.Game.PlayerMove | Tic-Tac-Toe-Without-Touches/Tic-Tac-Toe-Without-Touches/Game/Game.swift:186-206 | keeps the invariant; when `Transition` rejects the input, nothing changes and nobody is notified; otherwise `gameState` becomes the transition's state, the accepted-move count grows by one or restarts at zero, and the live observers are notified once |
| Engine.Game.Play | Tic-Tac-Toe-Without-Touches/Tic-Tac-Toe-Without-Touches/Game/Game.swift:194-202 | assigns the private `playerMove`'s result for an accepted move and keeps the invariant with one more accepted move |
| Engine.Game.Restart | Tic-Tac-Toe-Without-Touches/Tic-Tac-Toe-Without-Touches/Game/Game.swift:188-192 | in a finished game only, assigns the new-game state, which satisfies the invariant with no accepted move |
| Engine.Game.SetGameState | Tic-Tac-Toe-Without-Touches/Tic-Tac-Toe-Without-Touches/Game/Game.swift:19-23 | every assignment of the state is followed by one notification round |
| Engine.Game.StateDidChanged | Tic-Tac-Toe-Without-Touches/Tic-Tac-Toe-Without-Touches/Game/Game.swift:215-223 | the registry loses exactly the entries whose observer is gone, keeps all the others, and exactly the live observers are told |
| Engine.Live | Tic-Tac-Toe-Without-Touches/Tic-Tac-Toe-Without-Touches/Game/Game.swift:216-222 | the identities told are registered ones, and a registered identity is told iff its observer is live |
| Engine.Pruned | Tic-Tac-Toe-Without-Touches/Tic-Tac-Toe-Without-Touches/Game/Game.swift:216-219 | the pruned registry holds exactly the live identities, each with its old entry |
| Engine.Game.AddObserver | Tic-Tac-Toe-Without-Touches/Tic-Tac-Toe-Without-Touches/Game/Game.swift:228-231 | the identity maps to a live entry; adding it again only overwrites that entry; nothing else changes |
| Engine.Game.RemoveObserver | Tic-Tac-Toe-Without-Touches/Tic-Tac-Toe-Without-Touches/Game/Game.swift:233-236 | exactly that identity's entry is deleted |
| Engine.Game.ObserverReleased | Tic-Tac-Toe-Without-Touches/Tic-Tac-Toe-Without-Touches/Game/Game.swift:211-213 | releasing a registered observer makes its weak reference lapse, and nothing else changes |

## Left out

- Observer callbacks: `gameStateChanged(game:)` is not called. Each notification round is recorded as the ghost set of identities told, so a callback that re-enters the game is not modelled.
- Weak references: Swift's reference counting is replaced by a liveness flag per entry. `ObserverReleased` is the event that clears it.
- Object identity: `ObjectIdentifier` is a natural number. The reuse of an identity by a later object is not modelled.
- Iteration order: the order in which `stateDidChanged` visits the dictionary is not modelled. The loop picks any pending key, and its result does not depend on the order.
- Access control: Dafny has no private members here. `Engine.Game.Play` and `Engine.Game.Restart` stand for the private assignments of `gameState` (`Game.swift` lines 189, 192, 196 and 201) and are not part of the game's interface; their preconditions limit them to the states in which the public `playerMove` makes those assignments. `Engine.Game.SetGameState` stands for the `didSet` at `Game.swift` lines 19-23: it accepts any consistent state whatever the current one, and only `Play` and `Restart` call it.
- GameplayKit: it is imported by `Game.swift` but not used.
- The user interface is not modelled:
  - the gesture detector (camera capture, Vision/CoreML, a semaphore and main-queue dispatch);
  - the board view's hit-testing on floating-point frames and its animations;
  - the top-level controller's layout;
  - the `turnAllowed` timers;
  - the AI's random choice of a move;
  - the plain views.

  They are timing, concurrency, randomness, floating point and foreign framework calls.
- The older `TicTacToeDomain.swift` and the root-level `Game.swift` are not part of this model. They redeclare the same types with other cases and cannot be built alongside `Game/`.

/**
 The `Game` object: it owns the current `MoveResult`, which only the public
 `playerMove` changes, and a registry of observers keyed by identity that is
 told of every change of state.
 */
module Engine {
  import opened Domain
  import opened Rules
  import opened Moves

  /** The `ObjectIdentifier` of an observer. */
  type ObserverId = nat

  class Game {
    /** `gameState`: the only state of the game proper. */
    var gameState: MoveResult
    /** `observations`: the registered observers, each with whether the weak
        reference to it still points to a live object. */
    var observations: map<ObserverId, bool>
    /** For each change of state, in order, the observers that were told. */
    ghost var notified: seq<set<ObserverId>>
    /** The moves accepted since the board was last empty. */
    ghost var acceptedMoves: nat

    ghost predicate Valid()
      reads this
    {
      Consistent(gameState) && PlayedCount(BoardOf(gameState)) == acceptedMoves
    }

    /** `newGame` (through the private `init`): the user to move on the empty
        board with every cell playable, and no observers. */
    constructor NewGame()
      ensures Valid()
      ensures gameState == NewGameState()
      ensures observations == map[] && notified == [] && acceptedMoves == 0
    {
      NewGameConsistent();
      gameState := NewGameState();
      observations := map[];
      notified := [];
      acceptedMoves := 0;
    }

    /** `cellState`: the board of the current state; always one cell per
        position, in the fixed order. */
    function Cells(): (cells: Board)
      reads this
      ensures Valid() ==> WellFormed(cells) && |cells| == 9 && Covers(cells)
    {
      BoardOf(gameState)
    }

    /** `availableMoves(forPlayer:)`: the positions of `nextMove` when `player`
        is the side to move, and nothing otherwise; these are exactly the
        free cells, and there is always one for the side to move. */
    function AvailableMoves(player: Player): (r: seq<CellPosition>)
      reads this
      ensures InPlay(gameState) && player == SideToMove(gameState) ==> r == Positions(gameState.nextMove)
      ensures !(InPlay(gameState) && player == SideToMove(gameState)) ==> r == []
      ensures Valid() ==> (r != [] <==> InPlay(gameState) && player == SideToMove(gameState))
      ensures Valid() && InPlay(gameState) && player == SideToMove(gameState) ==>
        forall p :: p in r <==> GetCell(gameState.display, p).state == Empty
    {
      match gameState
      case Player0ToMove(_, _) =>
        if player == Player0 then FreePositions(gameState) else []
      case PlayerXToMove(_, _) =>
        if player == PlayerX then FreePositions(gameState) else []
      case _ => []
    }

    /** `playerMove(player:movePos:)`: a finished game restarts on any input;
        in play, a move by the side to move on a cell of `nextMove` is played;
        anything else changes nothing. Every assignment of `gameState`
        notifies the observers, as its `didSet` does. */
    method PlayerMove(player: Player, movePos: CellPosition)
      requires Valid()
      modifies this
      ensures Valid()
      ensures Transition(old(gameState), player, movePos) == Unchanged ==>
        && gameState == old(gameState) && acceptedMoves == old(acceptedMoves)
        && observations == old(observations) && notified == old(notified)
      ensures Transition(old(gameState), player, movePos).Assign? ==>
        && gameState == Transition(old(gameState), player, movePos).state
        && acceptedMoves == (if InPlay(old(gameState)) then old(acceptedMoves) + 1 else 0)
        && observations == Pruned(old(observations))
        && notified == old(notified) + [Live(old(observations))]
    {
      match gameState {
        case GameTied(_) =>
          Restart();
        case GameWon(_, _) =>
          Restart();
        case Player0ToMove(_, nextMoves) =>
          if player == Player0 && HasCellAt(nextMoves, movePos) {
            Play(player, movePos);
          }
        case PlayerXToMove(_, nextMoves) =>
          if player == PlayerX && HasCellAt(nextMoves, movePos) {
            Play(player, movePos);
          }
      }
    }

    /** The assignment of the result of the private `playerMove` for a move
        the state accepts. */
    method Play(player: Player, movePos: CellPosition)
      requires Valid() && InPlay(gameState)
      requires player == SideToMove(gameState) && HasCellAt(gameState.nextMove, movePos)
      modifies this
      ensures Valid()
      ensures gameState == Moves.PlayerMove(player, movePos, old(gameState).display)
      ensures acceptedMoves == old(acceptedMoves) + 1
      ensures observations == Pruned(old(observations))
      ensures notified == old(notified) + [Live(old(observations))]
    {
      TransitionPreservesConsistency(gameState, player, movePos);
      AcceptedMove(gameState, player, movePos);
      SetGameState(Moves.PlayerMove(player, movePos, gameState.display), acceptedMoves + 1);
    }

    /** The assignment of the state of a new game, on the empty board, which
        happens only once the game is finished. */
    method Restart()
      requires Valid() && !InPlay(gameState)
      modifies this
      ensures Valid() && gameState == NewGameState() && acceptedMoves == 0
      ensures observations == Pruned(old(observations))
      ensures notified == old(notified) + [Live(old(observations))]
    {
      NewGameConsistent();
      SetGameState(NewGameState(), 0);
    }

    /** The `didSet` of `gameState`: every assignment of a new state is
        followed by a notification of the observers. */
    method SetGameState(s: MoveResult, ghost moves: nat)
      requires Consistent(s) && PlayedCount(BoardOf(s)) == moves
      modifies this
      ensures Valid() && gameState == s && acceptedMoves == moves
      ensures observations == Pruned(old(observations))
      ensures notified == old(notified) + [Live(old(observations))]
    {
      gameState := s;
      acceptedMoves := moves;
      StateDidChanged();
    }

    /** `stateDidChanged`: walks the registry, drops every entry whose
        observer is gone and tells every other observer. */
    method StateDidChanged()
      modifies this`observations, this`notified
      ensures observations == Pruned(old(observations))
      ensures notified == old(notified) + [Live(old(observations))]
    {
      var pending := observations.Keys;
      ghost var told: set<ObserverId> := {};
      while pending != {}
        invariant pending <= observations.Keys <= old(observations).Keys
        invariant forall id :: id in old(observations) && id !in pending ==>
          (id in observations <==> old(observations)[id])
        invariant forall id :: id in observations ==> observations[id] == old(observations)[id]
        invariant told == set id | id in old(observations) && id !in pending && old(observations)[id]
        invariant notified == old(notified)
        decreases pending
      {
        var id :| id in pending;
        if !observations[id] {
          observations := observations - {id};
        } else {
          told := told + {id};
        }
        pending := pending - {id};
      }
      assert told == Live(old(observations));
      assert observations == Pruned(old(observations));
      notified := notified + [told];
    }

    /** `addObserver`: registers a live observer under its identity; adding
        it again only overwrites its entry. */
    method AddObserver(id: ObserverId)
      modifies this`observations
      ensures observations == old(observations)[id := true]
    {
      observations := observations[id := true];
    }

    /** `removeObserver`: deletes exactly the entry of that identity. */
    method RemoveObserver(id: ObserverId)
      modifies this`observations
      ensures observations == old(observations) - {id}
    {
      observations := observations - {id};
    }

    /** The owner of an observer releases it: its weak reference in the
        registry now points to nothing. */
    method ObserverReleased(id: ObserverId)
      modifies this`observations
      ensures observations == if id in old(observations) then old(observations)[id := false] else old(observations)
    {
      if id in observations {
        observations := observations[id := false];
      }
    }
  }

  /** The observers whose weak reference still points to a live object. */
  function Live(obs: map<ObserverId, bool>): (ids: set<ObserverId>)
    ensures ids <= obs.Keys
    ensures forall id :: id in obs ==> (id in ids <==> obs[id])
  {
    set id | id in obs && obs[id]
  }

  /** The registry after a change of state: the entries of released observers
      are gone, every other entry stays as it was. */
  function Pruned(obs: map<ObserverId, bool>): (live: map<ObserverId, bool>)
    ensures live.Keys == Live(obs)
    ensures forall id :: id in live ==> id in obs && live[id] == obs[id]
  {
    map id | id in Live(obs) :: true
  }

  /** The positions of the `nextMove` cells of a state in play. */
  function FreePositions(s: MoveResult): (r: seq<CellPosition>)
    requires InPlay(s)
    ensures r == Positions(s.nextMove)
    ensures Consistent(s) ==> r != [] && forall p :: p in r <==> GetCell(s.display, p).state == Empty
  {
    var r := Positions(s.nextMove);
    assert Consistent(s) ==> r != [] && forall p :: p in r <==> GetCell(s.display, p).state == Empty by {
      if Consistent(s) {
        assert s.nextMove[0].position == r[0];
        PositionsMembers(s.nextMove);
        NextMoveIsFreeCells(s);
      }
    }
    r
  }
}

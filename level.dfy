/** A level: the board together with its start squares and the players registered on it. */
module Levels {
  import opened Wrappers
  import opened Board
  import opened Navigation
  import opened Ghosts

  class Level {
    const board: Board
    const startSquares: seq<Square>
    var players: seq<Unit>
    var startIndex: nat

    /** Every start square belongs to the board, the next player goes to an existing one (when
        there is one), and every player standing on the board is a registered player. */
    ghost predicate Valid()
      reads this, board.Squares()
    {
      && (startIndex == 0 || startIndex < |startSquares|)
      && (forall i :: 0 <= i < |startSquares| ==> board.Holds(startSquares[i]))
      && forall s, u :: s in board.Squares() && u in s.occupants && u.kind == Player ==> u in players
    }

    /** A level built from a parsed map: no player stands on its board yet. A map need not have
        a start square. */
    constructor (board: Board, startSquares: seq<Square>)
      requires forall i :: 0 <= i < |startSquares| ==> board.Holds(startSquares[i])
      requires forall s, u :: s in board.Squares() && u in s.occupants ==> u.kind != Player
      ensures this.board == board && this.startSquares == startSquares
      ensures players == [] && startIndex == 0
      ensures Valid()
    {
      this.board := board;
      this.startSquares := startSquares;
      players := [];
      startIndex := 0;
    }

    /** Adds a new player and places it on the next start square, the start squares being
        handed out in turn; registering a player twice changes nothing. The player becomes
        visible to the ghosts: the scan of the board now finds a player. */
    method RegisterPlayer(p: Unit)
      requires Valid() && board.Valid() && board.Consistent()
      requires |startSquares| > 0
      requires p.kind == Player
      requires p !in players ==> p.square == null
      modifies this`players, this`startIndex, p`square, startSquares[startIndex]
      ensures Valid() && board.Consistent()
      ensures old(p in players) ==> players == old(players) && startIndex == old(startIndex)
                                    && p.square == old(p.square)
                                    && unchanged(startSquares[old(startIndex)])
      ensures old(p !in players) ==>
                && players == old(players) + [p]
                && p.square == startSquares[old(startIndex)]
                && p.square.occupants == old(startSquares[startIndex].occupants) + [p]
                && startIndex == (old(startIndex) + 1) % |startSquares|
      ensures old(p !in players) ==> FindInRows(board, Player, 0).Some?
    {
      if p in players {
        return;
      }
      players := players + [p];
      var target := startSquares[startIndex];
      assert board.Holds(target);
      assert target in board.Squares() by {
        assert board.grid[target.y][target.x] == target;
      }
      PlaceNew(p, target);
      startIndex := (startIndex + 1) % |startSquares|;
      assert p in target.occupants;
      FoundOnBoard(board, Player);
      forall s, u | s in board.Squares() && u in s.occupants && u.kind == Player
        ensures u in players
      {
        if u != p {
          assert u in old(s.occupants);
        }
      }
    }

    /** Places a unit that stands nowhere on a square of the board, keeping the board
        consistent. */
    method PlaceNew(p: Unit, target: Square)
      requires board.Valid() && board.Consistent()
      requires p.square == null && target in board.Squares()
      modifies p`square, target
      ensures p.square == target && target.occupants == old(target.occupants) + [p]
      ensures board.Consistent()
    {
      board.ConsistentOnSquares();
      forall s | s in board.Squares()
        ensures multiset(s.occupants)[p] == 0
      {
        assert p !in s.occupants;
      }
      p.Occupy(target, board.Squares());
      assert Without(old(target.occupants), p) == old(target.occupants);
      board.ConsistentOnSquares();
    }

    /** While no player is registered, the scan of the board finds no player. */
    lemma NoPlayerRegisteredNoneFound()
      requires Valid() && board.Valid() && players == []
      ensures FindInRows(board, Player, 0).None?
    {
      FoundOnBoard(board, Player);
    }

    /** While no player is registered, neither Clyde nor Inky has a move: the only decision
        either may take is `None`. */
    lemma NoPlayerRegisteredNoMove(clyde: Pos, inky: Pos)
      requires Valid() && board.Valid() && players == []
      ensures forall r :: ClydeDecision(board, clyde, Sighting(board, Player), r) <==> r == None
      ensures forall r :: InkyDecision(board, inky, Sighting(board, Ghost(Blinky)), Sighting(board, Player), r)
                          <==> r == None
    {
      NoPlayerRegisteredNoneFound();
    }
  }
}

/**
 * Whose turn it is and where they must play (src/game/game_state.rs).
 */
module GameStates {
  import opened Options
  import opened Players
  import opened Boards

  class GameState {
    const board: Board
    var currentPlayer: Player
    var currentSubX: Option<nat>
    var currentSubY: Option<nat>

    /**
     * The board is well formed, and the mandated sub-board is either given by
     * both coordinates, inside the grid, or by neither (a free choice).
     */
    ghost predicate Valid()
      reads this, board, board.items
    {
      && board.Valid()
      && (currentSubX.Some? <==> currentSubY.Some?)
      && (currentSubX.Some? ==> currentSubX.value < 3)
      && (currentSubY.Some? ==> currentSubY.value < 3)
    }

    /** `GameState::new`: an empty board, Player 1 to move anywhere. */
    constructor ()
      ensures Valid() && fresh(board) && fresh(board.items)
      ensures forall i :: 0 <= i < 9 ==> board.items[i] == NewSubBoard()
      ensures currentPlayer == Player1
      ensures currentSubX == None && currentSubY == None
    {
      board := new Board();
      currentPlayer := Player1;
      currentSubX, currentSubY := None, None;
    }

    /** `current_player`: the player to move. */
    function CurrentPlayer(): (p: Player)
      reads this
      ensures p == currentPlayer
    {
      currentPlayer
    }

    /**
     * `make_move_full_board`: the player to move marks square (x, y) of
     * sub-board (subX, subY) with their win, the mandated sub-board becomes
     * the one the board move returns, and the turn passes to the opponent.
     * The game result of the board move is returned.
     */
    method MakeMoveFullBoard(subX: nat, subY: nat, x: nat, y: nat) returns (gameResult: Option<GameResult>)
      requires Valid() && subX < 3 && subY < 3 && x < 3 && y < 3
      modifies this, board.items
      ensures Valid()
      ensures var o := Play(old(board.items[..]), Some(old(currentPlayer).Wins()), subX, subY, x, y);
        && board.items[..] == o.subs
        && currentSubX == o.nextX && currentSubY == o.nextY
        && gameResult == o.gameResult
      ensures currentPlayer == old(currentPlayer).Next()
    {
      var mover := CurrentPlayer();
      var newX, newY;
      newX, newY, gameResult := board.MakeMove(Some(mover.Wins()), subX, subY, x, y);
      currentSubX := newX;
      currentSubY := newY;
      currentPlayer := currentPlayer.Next();
    }

    /**
     * `make_move`: plays square (x, y) inside the mandated sub-board; the
     * source unwraps both coordinates, so a free choice is not allowed here.
     */
    method MakeMove(x: nat, y: nat) returns (gameResult: Option<GameResult>)
      requires Valid() && currentSubX.Some? && x < 3 && y < 3
      modifies this, board.items
      ensures Valid()
      ensures var o := Play(old(board.items[..]), Some(old(currentPlayer).Wins()),
                            old(currentSubX).value, old(currentSubY).value, x, y);
        && board.items[..] == o.subs
        && currentSubX == o.nextX && currentSubY == o.nextY
        && gameResult == o.gameResult
      ensures currentPlayer == old(currentPlayer).Next()
    {
      var subX, subY := currentSubX.value, currentSubY.value;
      gameResult := MakeMoveFullBoard(subX, subY, x, y);
    }
  }
}

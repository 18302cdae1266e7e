/**
 * What the two Othello evaluators read from a game state: an 8x8 board of
 * square symbols ('B' and 'W' for the two players' tiles, anything else for
 * an empty square), the player symbols, the opponent of a player, and the
 * score of a finished game.
 */
module Othello {
  import opened GameTree

  /** The board is always 8 rows of 8 squares, indexed board[y][x]. */
  type Board = b: seq<seq<char>> | |b| == 8 && forall y | 0 <= y < |b| :: |b[y]| == 8
    witness seq(8, _ => seq(8, _ => '.'))

  /** A move as (x, y) coordinates, 0 being the first row and column. */
  type Move = (int, int)

  /** An Othello position, seen by the search; players are their tile symbols. */
  type State = GameState<Board, char, Move>

  /**
   * The opponent of a player: 'B' for 'W' and 'W' for every other symbol.
   * Swapping the two players' roles is what it is for.
   */
  function Opponent(player: char): (o: char)
    ensures o != player
    ensures o == 'B' <==> player == 'W'
    ensures player != 'W' ==> o == 'W'
  {
    if player == 'W' then 'B' else 'W'
  }

  /** Between the two players, Opponent is a swap: applied twice it gives back the player. */
  lemma OpponentIsSwap(player: char)
    requires player == 'B' || player == 'W'
    ensures Opponent(player) == (if player == 'B' then 'W' else 'B')
    ensures Opponent(Opponent(player)) == player
  {
  }

  /** The score of a finished game for `player`: 1 for a win, 0 for a draw (no winner), -1 for a loss. */
  function Utility(winner: Option<char>, player: char): (r: int)
    ensures r == 1 <==> winner == Some(player)
    ensures r == 0 <==> winner == None
    ensures r == -1 <==> winner.Some? && winner.value != player
  {
    if winner == Some(player) then 1
    else if winner == None then 0
    else -1
  }

  /** A finished game between B and W is zero-sum: the two players' scores are opposite. */
  lemma UtilityIsZeroSum(winner: Option<char>, player: char)
    requires player == 'B' || player == 'W'
    requires winner == None || winner == Some('B') || winner == Some('W')
    ensures Utility(winner, player) == -Utility(winner, Opponent(player))
  {
  }
}

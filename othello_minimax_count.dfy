/**
 * The piece-count Othello evaluator: a finished game scores its utility; any
 * other position scores, for a player, the number of that player's tiles
 * minus the number of the opponent's. The agent searches 5 plies deep with it.
 */
module OthelloCount {
  import opened GameTree
  import opened Minimax
  import opened Othello

  /** The number of squares of a row holding `c`. */
  function RowCount(row: seq<char>, c: char): (n: nat)
    ensures n <= |row|
    ensures n == 0 <==> c !in row
    ensures n == multiset(row)[c]
  {
    if row == [] then 0
    else
      assert row == row[..|row| - 1] + [row[|row| - 1]];
      RowCount(row[..|row| - 1], c) + (if row[|row| - 1] == c then 1 else 0)
  }

  /** The number of squares of the first k rows holding `c`. */
  function TileCount(rows: seq<seq<char>>, c: char, k: nat): nat
    requires k <= |rows|
  {
    if k == 0 then 0 else TileCount(rows, c, k - 1) + RowCount(rows[k - 1], c)
  }

  /**
   * The evaluation for `player`: the utility of a finished game, otherwise the
   * difference of tile counts, which never exceeds the 64 squares of the board.
   */
  function EvaluateCount(s: State, player: char): (r: int)
    ensures -64 <= r <= 64
  {
    if s.terminal then Utility(s.winner, player)
    else
      TileCountsFit(s.board, player, Opponent(player), 8);
      TileCount(s.board, player, 8) - TileCount(s.board, Opponent(player), 8)
  }

  /** Two different symbols never share a square, so in a row they number at most its length together. */
  lemma {:induction false} RowCountsFit(row: seq<char>, c: char, d: char)
    requires c != d
    ensures RowCount(row, c) + RowCount(row, d) <= |row|
  {
    if row != [] {
      RowCountsFit(row[..|row| - 1], c, d);
    }
  }

  /** Two different symbols together hold at most 8 squares per row counted. */
  lemma {:induction false} TileCountsFit(b: Board, c: char, d: char, k: nat)
    requires c != d && k <= 8
    ensures TileCount(b, c, k) + TileCount(b, d, k) <= 8 * k
  {
    if k > 0 {
      TileCountsFit(b, c, d, k - 1);
      RowCountsFit(b[k - 1], c, d);
    }
  }

  /** The evaluation for B is the negation of the evaluation for W. */
  lemma CountIsZeroSum(s: State)
    requires s.terminal ==> s.winner == None || s.winner == Some('B') || s.winner == Some('W')
    ensures EvaluateCount(s, 'B') == -EvaluateCount(s, 'W')
  {
    if s.terminal {
      UtilityIsZeroSum(s.winner, 'B');
    }
  }

  /** The agent's move: the alpha-beta search 5 plies deep with the piece-count evaluation. */
  method MakeMove(s: State) returns (action: Option<Move>)
    ensures action == BestMove(s, 5, EvaluateCount)
  {
    action := MinimaxMove(s, 5, EvaluateCount);
  }
}

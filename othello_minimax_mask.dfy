/**
 * The positional Othello evaluator: a finished game scores its utility; any
 * other position scores, for a player, the template weights of the squares
 * holding that player's tiles minus those of the squares holding the
 * opponent's. The agent searches 5 plies deep with it.
 */
module OthelloMask {
  import opened GameTree
  import opened Minimax
  import opened Othello

  /** The positional weight of every square, indexed [y][x]: corners best, squares next to them worst. */
  const EvalTemplate: seq<seq<int>> := [
    [100, -30, 6, 2, 2, 6, -30, 100],
    [-30, -50, 1, 1, 1, 1, -50, -30],
    [6, 1, 1, 1, 1, 1, 1, 6],
    [2, 1, 1, 3, 3, 1, 1, 2],
    [2, 1, 1, 3, 3, 1, 1, 2],
    [6, 1, 1, 1, 1, 1, 1, 6],
    [-30, -50, 1, 1, 1, 1, -50, -30],
    [100, -30, 6, 2, 2, 6, -30, 100]
  ]

  /** The template covers the board, and the weight of a square does not change under the board's symmetries. */
  lemma TemplateIsSymmetric()
    ensures |EvalTemplate| == 8 && forall y | 0 <= y < 8 :: |EvalTemplate[y]| == 8
    ensures forall y, x {:trigger EvalTemplate[y][x]} | 0 <= y < 8 && 0 <= x < 8 ::
      && EvalTemplate[y][x] == EvalTemplate[x][y]
      && EvalTemplate[y][x] == EvalTemplate[7 - y][x]
      && EvalTemplate[y][x] == EvalTemplate[y][7 - x]
  {
  }

  /** The weight of the squares among the first x of row y that hold `c`. */
  function RowScore(b: Board, c: char, y: nat, x: nat): int
    requires y < 8 && x <= 8
  {
    if x == 0 then 0
    else RowScore(b, c, y, x - 1) + (if b[y][x - 1] == c then EvalTemplate[y][x - 1] else 0)
  }

  /** The weight of the squares in the first y rows that hold `c`. */
  function Score(b: Board, c: char, y: nat): int
    requires y <= 8
  {
    if y == 0 then 0 else Score(b, c, y - 1) + RowScore(b, c, y - 1, 8)
  }

  /** What the evaluator computes for `player`: the utility of a finished game, otherwise the difference of positional scores. */
  function MaskValue(s: State, player: char): int {
    if s.terminal then Utility(s.winner, player)
    else Score(s.board, player, 8) - Score(s.board, Opponent(player), 8)
  }

  /**
   * The evaluator: the utility when the game is over; otherwise a walk over
   * the rows and, within each, the columns, adding each square's weight to
   * the player's score or to the opponent's according to the tile on it.
   */
  method EvaluateMask(s: State, player: char) returns (r: int)
    ensures r == MaskValue(s, player)
    ensures s.terminal ==> r == Utility(s.winner, player)
    ensures !s.terminal ==> r == Score(s.board, player, 8) - Score(s.board, Opponent(player), 8)
  {
    if s.terminal {
      var winner := s.winner;
      if winner == Some(player) {
        return 1;
      } else if winner == None {
        return 0;
      } else {
        return -1;
      }
    }
    var opponent := Opponent(player);
    var playerScore := 0;
    var opponentScore := 0;
    var y := 0;
    while y < 8
      invariant 0 <= y <= 8
      invariant playerScore == Score(s.board, player, y)
      invariant opponentScore == Score(s.board, opponent, y)
    {
      var x := 0;
      while x < 8
        invariant 0 <= x <= 8
        invariant playerScore == Score(s.board, player, y) + RowScore(s.board, player, y, x)
        invariant opponentScore == Score(s.board, opponent, y) + RowScore(s.board, opponent, y, x)
      {
        var squareColor := s.board[y][x];
        if squareColor == player {
          playerScore := playerScore + EvalTemplate[y][x];
        } else if squareColor == opponent {
          opponentScore := opponentScore + EvalTemplate[y][x];
        }
        x := x + 1;
      }
      y := y + 1;
    }
    r := playerScore - opponentScore;
  }

  /** The board with `c` put on square (y, x). */
  function Place(b: Board, y: nat, x: nat, c: char): (b': Board)
    requires y < 8 && x < 8
    ensures b'[y][x] == c
    ensures forall y', x' | 0 <= y' < 8 && 0 <= x' < 8 && (y', x') != (y, x) :: b'[y'][x'] == b[y'][x']
  {
    b[y := b[y][x := c]]
  }

  /** Putting `p` on square (y, x) of row y', counted over its first n squares, changes only what (y, x) contributes. */
  lemma {:induction false} RowScorePlace(b: Board, y: nat, x: nat, p: char, c: char, y': nat, n: nat)
    requires y < 8 && x < 8 && y' < 8 && n <= 8
    ensures RowScore(Place(b, y, x, p), c, y', n) == RowScore(b, c, y', n)
      + (if y' == y && x < n then (if p == c then EvalTemplate[y][x] else 0) - (if b[y][x] == c then EvalTemplate[y][x] else 0) else 0)
  {
    if n > 0 {
      RowScorePlace(b, y, x, p, c, y', n - 1);
    }
  }

  /** Putting `p` on square (y, x), counted over the first n rows, changes only what (y, x) contributes. */
  lemma {:induction false} ScorePlace(b: Board, y: nat, x: nat, p: char, c: char, n: nat)
    requires y < 8 && x < 8 && n <= 8
    ensures Score(Place(b, y, x, p), c, n) == Score(b, c, n)
      + (if y < n then (if p == c then EvalTemplate[y][x] else 0) - (if b[y][x] == c then EvalTemplate[y][x] else 0) else 0)
  {
    if n > 0 {
      ScorePlace(b, y, x, p, c, n - 1);
      RowScorePlace(b, y, x, p, c, n - 1, 8);
    }
  }

  /**
   * Putting a player's tile on an empty square of a position that stays
   * unfinished raises that player's evaluation by exactly the square's
   * weight: every other square contributes as before.
   */
  lemma PlacingRaisesByWeight(s: State, y: nat, x: nat, player: char)
    requires y < 8 && x < 8 && !s.terminal
    requires s.board[y][x] != player && s.board[y][x] != Opponent(player)
    ensures MaskValue(s.(board := Place(s.board, y, x, player)), player) == MaskValue(s, player) + EvalTemplate[y][x]
  {
    ScorePlace(s.board, y, x, player, player, 8);
    ScorePlace(s.board, y, x, player, Opponent(player), 8);
  }

  /** Between B and W the evaluation is zero-sum: what one player gains the other loses. */
  lemma MaskIsZeroSum(s: State, player: char)
    requires player == 'B' || player == 'W'
    requires s.terminal ==> s.winner == None || s.winner == Some('B') || s.winner == Some('W')
    ensures MaskValue(s, player) == -MaskValue(s, Opponent(player))
  {
    OpponentIsSwap(player);
    if s.terminal {
      UtilityIsZeroSum(s.winner, player);
    }
  }

  /** The agent's move: the alpha-beta search 5 plies deep with the positional evaluation. */
  method MakeMove(s: State) returns (action: Option<Move>)
    ensures action == BestMove(s, 5, MaskValue)
  {
    action := MinimaxMove(s, 5, MaskValue);
  }
}

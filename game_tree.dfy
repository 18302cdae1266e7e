/**
 * The game as the search sees it: a finite tree of states, each with the
 * player to move, whether the game is over, its winner, and the legal moves in
 * the order the game enumerates them, each paired with the state it leads to.
 * Over this tree, the plain depth-limited minimax value that the alpha-beta
 * search must reproduce, and the move the search must choose at the root.
 */
module GameTree {
  import opened ExtInt

  datatype Option<T> = None | Some(value: T)

  /**
   * A game state: `board` is whatever the evaluation function reads,
   * `player` the side to move, `winner` the winner of a finished game (None
   * for a draw), and `moves` the legal moves with their successor states.
   */
  datatype GameState<B, P, M> = GameState(
    board: B,
    player: P,
    terminal: bool,
    winner: Option<P>,
    moves: seq<Transition<B, P, M>>)

  datatype Transition<B, P, M> = Transition(move: M, next: GameState<B, P, M>)

  /**
   * The single leaf rule of both halves of the search: the game is over, or a
   * depth bound is set (any value but -1) and has been reached.
   */
  predicate Cutoff<B, P, M>(s: GameState<B, P, M>, maxDepth: int, depth: nat) {
    s.terminal || (maxDepth != -1 && depth >= maxDepth)
  }

  /**
   * The depth-limited minimax value of `s` for `player`, with `maximizing`
   * telling whose layer `s` is on: the evaluation at a cutoff, otherwise the
   * best child value for the side of the layer (NegInf or PosInf when there
   * are no moves).
   */
  function Minimax<B, P, M>(s: GameState<B, P, M>, maximizing: bool, eval: (GameState<B, P, M>, P) -> int,
                            maxDepth: int, depth: nat, player: P): ExtInt
    decreases s, 1, 0
  {
    if Cutoff(s, maxDepth, depth) then Fin(eval(s, player))
    else Extreme(s, |s.moves|, maximizing, eval, maxDepth, depth, player)
  }

  /** The best of the values of the first k children of `s`, for the side of the layer. */
  function Extreme<B, P, M>(s: GameState<B, P, M>, k: nat, maximizing: bool, eval: (GameState<B, P, M>, P) -> int,
                            maxDepth: int, depth: nat, player: P): ExtInt
    requires k <= |s.moves|
    decreases s, 0, k
  {
    if k == 0 then (if maximizing then NegInf else PosInf)
    else
      var t := ChildValue(s, k - 1, maximizing, eval, maxDepth, depth, player);
      if maximizing then Max(Extreme(s, k - 1, maximizing, eval, maxDepth, depth, player), t)
      else Min(Extreme(s, k - 1, maximizing, eval, maxDepth, depth, player), t)
  }

  /** The minimax value of the i-th successor of `s`, one ply deeper, on the other side's layer. */
  function ChildValue<B, P, M>(s: GameState<B, P, M>, i: nat, maximizing: bool, eval: (GameState<B, P, M>, P) -> int,
                               maxDepth: int, depth: nat, player: P): ExtInt
    requires i < |s.moves|
    decreases s, 0, i
  {
    Minimax(s.moves[i].next, !maximizing, eval, maxDepth, depth + 1, player)
  }

  /** `t` is at least as good as `target` for the side of the layer. */
  predicate Reaches(maximizing: bool, t: ExtInt, target: ExtInt) {
    if maximizing then Le(target, t) else Le(t, target)
  }

  /**
   * The index of the first child, from i on, whose value reaches `target` for
   * the side of the layer, or the number of moves when no child does.
   */
  function FirstReaching<B, P, M>(s: GameState<B, P, M>, maximizing: bool, eval: (GameState<B, P, M>, P) -> int,
                                  maxDepth: int, depth: nat, player: P, target: ExtInt, i: nat): (j: nat)
    requires i <= |s.moves|
    ensures i <= j <= |s.moves|
    ensures forall l | i <= l < j :: !Reaches(maximizing, ChildValue(s, l, maximizing, eval, maxDepth, depth, player), target)
    ensures j < |s.moves| ==> Reaches(maximizing, ChildValue(s, j, maximizing, eval, maxDepth, depth, player), target)
    decreases |s.moves| - i
  {
    if i == |s.moves| then i
    else if Reaches(maximizing, ChildValue(s, i, maximizing, eval, maxDepth, depth, player), target) then i
    else FirstReaching(s, maximizing, eval, maxDepth, depth, player, target, i + 1)
  }

  /** A child that reaches `target` after children that all fall short of it is the one FirstReaching finds. */
  lemma FirstReachingIsFirst<B, P, M>(s: GameState<B, P, M>, maximizing: bool, eval: (GameState<B, P, M>, P) -> int,
                                      maxDepth: int, depth: nat, player: P, target: ExtInt, j: nat)
    requires j < |s.moves|
    requires Reaches(maximizing, ChildValue(s, j, maximizing, eval, maxDepth, depth, player), target)
    requires forall l | 0 <= l < j :: !Reaches(maximizing, ChildValue(s, l, maximizing, eval, maxDepth, depth, player), target)
    ensures FirstReaching(s, maximizing, eval, maxDepth, depth, player, target, 0) == j
  {
  }

  /**
   * The move the search chooses at the root: none at a cutoff (a finished
   * game, or a bound other than -1 that is at most 0) or when the root's value
   * is NegInf, which happens only when, within the bound and whatever the
   * maximizing side plays, the minimizing side can force play into an
   * unfinished state of the maximizing side with no legal moves (possibly the
   * root itself); otherwise the first legal move whose successor reaches the
   * root's minimax value for the root's player.
   */
  function BestMove<B, P, M>(root: GameState<B, P, M>, maxDepth: int, eval: (GameState<B, P, M>, P) -> int): Option<M> {
    var v := Minimax(root, true, eval, maxDepth, 0, root.player);
    if Cutoff(root, maxDepth, 0) || v == NegInf then None
    else
      var j := FirstReaching(root, true, eval, maxDepth, 0, root.player, v, 0);
      if j < |root.moves| then Some(root.moves[j].move) else None
  }

  /** Every one of the first k children is no better, for the side of the layer, than their extreme. */
  lemma {:induction false} ExtremeIsBound<B, P, M>(s: GameState<B, P, M>, k: nat, maximizing: bool,
                                                    eval: (GameState<B, P, M>, P) -> int, maxDepth: int, depth: nat, player: P)
    requires k <= |s.moves|
    ensures forall l | 0 <= l < k ::
      Reaches(maximizing, Extreme(s, k, maximizing, eval, maxDepth, depth, player), ChildValue(s, l, maximizing, eval, maxDepth, depth, player))
  {
    if k > 0 {
      ExtremeIsBound(s, k - 1, maximizing, eval, maxDepth, depth, player);
    }
  }

  /** A value that every one of the first k children fails to beat is at least as good as their extreme. */
  lemma {:induction false} ExtremeIsTight<B, P, M>(s: GameState<B, P, M>, k: nat, maximizing: bool,
                                                    eval: (GameState<B, P, M>, P) -> int, maxDepth: int, depth: nat, player: P, x: ExtInt)
    requires k <= |s.moves|
    requires forall l | 0 <= l < k :: Reaches(maximizing, x, ChildValue(s, l, maximizing, eval, maxDepth, depth, player))
    ensures Reaches(maximizing, x, Extreme(s, k, maximizing, eval, maxDepth, depth, player))
  {
    if k > 0 {
      ExtremeIsTight(s, k - 1, maximizing, eval, maxDepth, depth, player, x);
    }
  }

  /** Unless it is still the starting sentinel, the extreme of the first k children is the value of one of them. */
  lemma {:induction false} ExtremeIsAttained<B, P, M>(s: GameState<B, P, M>, k: nat, maximizing: bool,
                                                       eval: (GameState<B, P, M>, P) -> int, maxDepth: int, depth: nat, player: P)
    returns (j: nat)
    requires k <= |s.moves|
    requires Extreme(s, k, maximizing, eval, maxDepth, depth, player) != (if maximizing then NegInf else PosInf)
    ensures j < k && ChildValue(s, j, maximizing, eval, maxDepth, depth, player) == Extreme(s, k, maximizing, eval, maxDepth, depth, player)
  {
    var t := ChildValue(s, k - 1, maximizing, eval, maxDepth, depth, player);
    if Extreme(s, k, maximizing, eval, maxDepth, depth, player) == t {
      j := k - 1;
    } else {
      j := ExtremeIsAttained(s, k - 1, maximizing, eval, maxDepth, depth, player);
    }
  }

  /**
   * The root move is absent exactly at a cutoff or when the root's value is
   * NegInf; otherwise it is the move of a child whose value equals the root's
   * value, and every earlier child's value is strictly worse.
   */
  lemma BestMoveIsFirstOptimal<B, P, M>(root: GameState<B, P, M>, maxDepth: int, eval: (GameState<B, P, M>, P) -> int)
    ensures var v := Minimax(root, true, eval, maxDepth, 0, root.player);
      BestMove(root, maxDepth, eval).None? <==> Cutoff(root, maxDepth, 0) || v == NegInf
    ensures var v := Minimax(root, true, eval, maxDepth, 0, root.player);
      !Cutoff(root, maxDepth, 0) && v != NegInf ==>
        var j := FirstReaching(root, true, eval, maxDepth, 0, root.player, v, 0);
        && j < |root.moves|
        && BestMove(root, maxDepth, eval) == Some(root.moves[j].move)
        && ChildValue(root, j, true, eval, maxDepth, 0, root.player) == v
        && forall l | 0 <= l < j :: Lt(ChildValue(root, l, true, eval, maxDepth, 0, root.player), v)
  {
    var player := root.player;
    var v := Minimax(root, true, eval, maxDepth, 0, player);
    if !Cutoff(root, maxDepth, 0) && v != NegInf {
      var n := |root.moves|;
      var w := ExtremeIsAttained(root, n, true, eval, maxDepth, 0, player);
      ExtremeIsBound(root, n, true, eval, maxDepth, 0, player);
      var j := FirstReaching(root, true, eval, maxDepth, 0, player, v, 0);
      assert j <= w;
      forall l | 0 <= l < j
        ensures Lt(ChildValue(root, l, true, eval, maxDepth, 0, player), v)
      {
        LeIsTotalOrder(v, ChildValue(root, l, true, eval, maxDepth, 0, player), v);
      }
    }
  }

  /** `n` is reached from `s` by exactly d moves. */
  ghost predicate ReachableIn<B, P, M>(s: GameState<B, P, M>, d: nat, n: GameState<B, P, M>)
    decreases d
  {
    if d == 0 then n == s
    else exists j | 0 <= j < |s.moves| :: ReachableIn(s.moves[j].next, d - 1, n)
  }

  /** A state reached from a successor of `s` is reached from `s` by one move more. */
  lemma ReachableThroughMove<B, P, M>(s: GameState<B, P, M>, j: nat, d: nat, n: GameState<B, P, M>)
    requires j < |s.moves| && ReachableIn(s.moves[j].next, d, n)
    ensures ReachableIn(s, d + 1, n)
  {
  }
}

/**
 * Depth-bounded minimax search with alpha-beta pruning. MaxValue and MinValue
 * are the two mutually recursive halves, each a loop over the legal moves
 * that stops once the window closes; MinimaxMove is the entry point.
 * Each half computes what its functional description in AlphaBeta computes,
 * and so inherits what is proved there: the fail-soft relation to the plain
 * minimax value, the move it picks, the children it explores and the calls
 * of the evaluation function it makes. The explored children's values and
 * the evaluation calls are reported as ghost results.
 */
module Minimax {
  import opened ExtInt
  import opened GameTree
  import opened AlphaBeta

  /**
   * The maximizing half. At a cutoff: the evaluation and no move. Otherwise
   * the children are explored in move order until alpha reaches beta; the
   * value is the largest they returned, the move that of the first child
   * returning it, and the value relates to the true minimax value as
   * fail-soft alpha-beta promises.
   */
  method MaxValue<B, P, M>(s: GameState<B, P, M>, alpha: ExtInt, beta: ExtInt, eval: (GameState<B, P, M>, P) -> int,
                           maxDepth: int, depth: nat, player: P)
    returns (value: ExtInt, action: Option<M>, ghost results: seq<ExtInt>, ghost calls: seq<EvalCall<B, P, M>>)
    requires Lt(alpha, beta)
    ensures SearchResult(value, action, results, calls) == MaxSearch(s, alpha, beta, eval, maxDepth, depth, player)
    ensures Cutoff(s, maxDepth, depth) ==> value == Fin(eval(s, player)) && action == None && calls == [EvalCall(s, depth)]
    ensures FailSoft(alpha, beta, value, Minimax(s, true, eval, maxDepth, depth, player))
    ensures !Cutoff(s, maxDepth, depth) && Lt(alpha, value) ==>
      var j := FirstReaching(s, true, eval, maxDepth, depth, player, value, 0);
      j < |s.moves| && action == Some(s.moves[j].move)
    ensures !Cutoff(s, maxDepth, depth) ==> MaxExplored(s, beta, SearchResult(value, action, results, calls))
    ensures !Cutoff(s, maxDepth, depth) ==> MaxChildren(s, alpha, beta, eval, maxDepth, depth, player, results)
    ensures !Cutoff(s, maxDepth, depth) && |s.moves| == 0 ==> value == NegInf && action == None
    decreases s, 1
  {
    if Cutoff(s, maxDepth, depth) {
      MaxSearchSound(s, alpha, beta, eval, maxDepth, depth, player);
      return Fin(eval(s, player)), None, [], [EvalCall(s, depth)];
    }
    value := NegInf;
    action := None;
    results, calls := [], [];
    var a := alpha;  // the running alpha of this node
    var i := 0;
    while i < |s.moves|
      invariant i <= |s.moves|
      invariant Lt(a, beta)
      invariant MaxLoop(s, a, beta, eval, maxDepth, depth, player, i, SearchResult(value, action, results, calls))
                == MaxSearch(s, alpha, beta, eval, maxDepth, depth, player)
      decreases |s.moves| - i
    {
      var newValue: ExtInt;
      var childAction: Option<M>;
      ghost var childResults: seq<ExtInt>;
      ghost var childCalls: seq<EvalCall<B, P, M>>;
      newValue, childAction, childResults, childCalls := MinValue(s.moves[i].next, a, beta, eval, maxDepth, depth + 1, player);
      if Lt(value, newValue) {
        value := newValue;
        action := Some(s.moves[i].move);
      }
      results := results + [newValue];
      calls := calls + childCalls;
      a := Max(a, value);
      if Le(beta, a) {
        break;
      }
      i := i + 1;
    }
    MaxSearchSound(s, alpha, beta, eval, maxDepth, depth, player);
    MaxSearchExplored(s, alpha, beta, eval, maxDepth, depth, player);
    MaxSearchChildren(s, alpha, beta, eval, maxDepth, depth, player);
  }

  /**
   * The minimizing half, the mirror of MaxValue: the children are explored
   * until beta falls to alpha, and the value is the smallest they returned.
   */
  method MinValue<B, P, M>(s: GameState<B, P, M>, alpha: ExtInt, beta: ExtInt, eval: (GameState<B, P, M>, P) -> int,
                           maxDepth: int, depth: nat, player: P)
    returns (value: ExtInt, action: Option<M>, ghost results: seq<ExtInt>, ghost calls: seq<EvalCall<B, P, M>>)
    requires Lt(alpha, beta)
    ensures SearchResult(value, action, results, calls) == MinSearch(s, alpha, beta, eval, maxDepth, depth, player)
    ensures Cutoff(s, maxDepth, depth) ==> value == Fin(eval(s, player)) && action == None && calls == [EvalCall(s, depth)]
    ensures FailSoft(alpha, beta, value, Minimax(s, false, eval, maxDepth, depth, player))
    ensures !Cutoff(s, maxDepth, depth) && Lt(value, beta) ==>
      var j := FirstReaching(s, false, eval, maxDepth, depth, player, value, 0);
      j < |s.moves| && action == Some(s.moves[j].move)
    ensures !Cutoff(s, maxDepth, depth) ==> MinExplored(s, alpha, SearchResult(value, action, results, calls))
    ensures !Cutoff(s, maxDepth, depth) ==> MinChildren(s, alpha, beta, eval, maxDepth, depth, player, results)
    ensures !Cutoff(s, maxDepth, depth) && |s.moves| == 0 ==> value == PosInf && action == None
    decreases s, 1
  {
    if Cutoff(s, maxDepth, depth) {
      MinSearchSound(s, alpha, beta, eval, maxDepth, depth, player);
      return Fin(eval(s, player)), None, [], [EvalCall(s, depth)];
    }
    value := PosInf;
    action := None;
    results, calls := [], [];
    var b := beta;  // the running beta of this node
    var i := 0;
    while i < |s.moves|
      invariant i <= |s.moves|
      invariant Lt(alpha, b)
      invariant MinLoop(s, alpha, b, eval, maxDepth, depth, player, i, SearchResult(value, action, results, calls))
                == MinSearch(s, alpha, beta, eval, maxDepth, depth, player)
      decreases |s.moves| - i
    {
      var newValue: ExtInt;
      var childAction: Option<M>;
      ghost var childResults: seq<ExtInt>;
      ghost var childCalls: seq<EvalCall<B, P, M>>;
      newValue, childAction, childResults, childCalls := MaxValue(s.moves[i].next, alpha, b, eval, maxDepth, depth + 1, player);
      if Lt(newValue, value) {
        value := newValue;
        action := Some(s.moves[i].move);
      }
      results := results + [newValue];
      calls := calls + childCalls;
      b := Min(b, value);
      if Le(b, alpha) {
        break;
      }
      i := i + 1;
    }
    MinSearchSound(s, alpha, beta, eval, maxDepth, depth, player);
    MinSearchExplored(s, alpha, beta, eval, maxDepth, depth, player);
    MinSearchChildren(s, alpha, beta, eval, maxDepth, depth, player);
  }

  /**
   * The entry point: the perspective player is the root's player to move, the
   * maximizing half runs from depth 0 with the widest window, and only its
   * move is returned. Pruning does not change the outcome: the move is the
   * one plain minimax designates (GameTree.BestMove).
   */
  method MinimaxMove<B, P, M>(state: GameState<B, P, M>, maxDepth: int, eval: (GameState<B, P, M>, P) -> int)
    returns (action: Option<M>)
    ensures action == MaxSearch(state, NegInf, PosInf, eval, maxDepth, 0, state.player).action
    ensures action == BestMove(state, maxDepth, eval)
  {
    var player := state.player;
    var value: ExtInt;
    ghost var results: seq<ExtInt>;
    ghost var calls: seq<EvalCall<B, P, M>>;
    value, action, results, calls := MaxValue(state, NegInf, PosInf, eval, maxDepth, 0, player);
    FullWindowPicksBestMove(state, maxDepth, eval);
  }
}

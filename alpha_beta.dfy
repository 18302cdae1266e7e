/**
 * The alpha-beta search as functions: MaxSearch and MinSearch follow the two
 * halves of the search step by step, with MaxLoop and MinLoop standing for
 * their loops over the legal moves (one call per iteration, the running alpha
 * or beta passed along). Besides the value and the move, each result records
 * the values the explored children returned, in order, and every call of the
 * evaluation function. The lemmas prove what the search promises about these
 * results against the plain minimax value of GameTree.
 */
module AlphaBeta {
  import opened ExtInt
  import opened GameTree

  /** One call of the evaluation function: the state it was given and the search depth at that point. */
  datatype EvalCall<B, P, M> = EvalCall(state: GameState<B, P, M>, depth: nat)

  /** What one half of the search produces: its value and move, the explored children's values and the evaluations made. */
  datatype SearchResult<B, P, M> = SearchResult(
    value: ExtInt,
    action: Option<M>,
    explored: seq<ExtInt>,
    calls: seq<EvalCall<B, P, M>>)

  /** The maximizing half. */
  function MaxSearch<B, P, M>(s: GameState<B, P, M>, alpha: ExtInt, beta: ExtInt, eval: (GameState<B, P, M>, P) -> int,
                              maxDepth: int, depth: nat, player: P): SearchResult<B, P, M>
    decreases s, 1, 0
  {
    if Cutoff(s, maxDepth, depth) then SearchResult(Fin(eval(s, player)), None, [], [EvalCall(s, depth)])
    else MaxLoop(s, alpha, beta, eval, maxDepth, depth, player, 0, SearchResult(NegInf, None, [], []))
  }

  /** The loop of the maximizing half from move i on, with `alpha` the running alpha and `acc` what the loop holds so far. */
  function MaxLoop<B, P, M>(s: GameState<B, P, M>, alpha: ExtInt, beta: ExtInt, eval: (GameState<B, P, M>, P) -> int,
                            maxDepth: int, depth: nat, player: P, i: nat, acc: SearchResult<B, P, M>): SearchResult<B, P, M>
    requires i <= |s.moves|
    decreases s, 0, |s.moves| - i
  {
    if i == |s.moves| then acc
    else
      var acc' := MaxStep(s, i, acc, MinSearch(s.moves[i].next, alpha, beta, eval, maxDepth, depth + 1, player));
      var alpha' := Max(alpha, acc'.value);
      if Le(beta, alpha') then acc' else MaxLoop(s, alpha', beta, eval, maxDepth, depth, player, i + 1, acc')
  }

  /** One iteration of the maximizing loop: a strictly larger child value replaces the value and the move. */
  function MaxStep<B, P, M>(s: GameState<B, P, M>, i: nat, acc: SearchResult<B, P, M>, child: SearchResult<B, P, M>): SearchResult<B, P, M>
    requires i < |s.moves|
  {
    var better := Lt(acc.value, child.value);
    SearchResult(
      if better then child.value else acc.value,
      if better then Some(s.moves[i].move) else acc.action,
      acc.explored + [child.value],
      acc.calls + child.calls)
  }

  /** The minimizing half. */
  function MinSearch<B, P, M>(s: GameState<B, P, M>, alpha: ExtInt, beta: ExtInt, eval: (GameState<B, P, M>, P) -> int,
                              maxDepth: int, depth: nat, player: P): SearchResult<B, P, M>
    decreases s, 1, 0
  {
    if Cutoff(s, maxDepth, depth) then SearchResult(Fin(eval(s, player)), None, [], [EvalCall(s, depth)])
    else MinLoop(s, alpha, beta, eval, maxDepth, depth, player, 0, SearchResult(PosInf, None, [], []))
  }

  /** The loop of the minimizing half from move i on, with `beta` the running beta. */
  function MinLoop<B, P, M>(s: GameState<B, P, M>, alpha: ExtInt, beta: ExtInt, eval: (GameState<B, P, M>, P) -> int,
                            maxDepth: int, depth: nat, player: P, i: nat, acc: SearchResult<B, P, M>): SearchResult<B, P, M>
    requires i <= |s.moves|
    decreases s, 0, |s.moves| - i
  {
    if i == |s.moves| then acc
    else
      var acc' := MinStep(s, i, acc, MaxSearch(s.moves[i].next, alpha, beta, eval, maxDepth, depth + 1, player));
      var beta' := Min(beta, acc'.value);
      if Le(beta', alpha) then acc' else MinLoop(s, alpha, beta', eval, maxDepth, depth, player, i + 1, acc')
  }

  /** One iteration of the minimizing loop: a strictly smaller child value replaces the value and the move. */
  function MinStep<B, P, M>(s: GameState<B, P, M>, i: nat, acc: SearchResult<B, P, M>, child: SearchResult<B, P, M>): SearchResult<B, P, M>
    requires i < |s.moves|
  {
    var better := Lt(child.value, acc.value);
    SearchResult(
      if better then child.value else acc.value,
      if better then Some(s.moves[i].move) else acc.action,
      acc.explored + [child.value],
      acc.calls + child.calls)
  }

  // ---------------------------------------------------------------------------
  // Sequences of values

  /** The largest of a sequence of values; NegInf for none. */
  function MaxOf(xs: seq<ExtInt>): (m: ExtInt)
    ensures forall k | 0 <= k < |xs| :: Le(xs[k], m)
    ensures xs == [] ==> m == NegInf
    ensures xs != [] ==> m in xs
  {
    if xs == [] then NegInf else Max(MaxOf(xs[..|xs| - 1]), xs[|xs| - 1])
  }

  /** The smallest of a sequence of values; PosInf for none. */
  function MinOf(xs: seq<ExtInt>): (m: ExtInt)
    ensures forall k | 0 <= k < |xs| :: Le(m, xs[k])
    ensures xs == [] ==> m == PosInf
    ensures xs != [] ==> m in xs
  {
    if xs == [] then PosInf else Min(MinOf(xs[..|xs| - 1]), xs[|xs| - 1])
  }

  /** The position of the first occurrence of x in xs. */
  function IndexOf(xs: seq<ExtInt>, x: ExtInt): (r: nat)
    requires x in xs
    ensures r < |xs| && xs[r] == x
    ensures forall l | 0 <= l < r :: xs[l] != x
  {
    if xs[0] == x then 0 else 1 + IndexOf(xs[1..], x)
  }

  lemma MaxOfAppend(xs: seq<ExtInt>, x: ExtInt)
    ensures MaxOf(xs + [x]) == Max(MaxOf(xs), x)
  {
    assert (xs + [x])[..|xs|] == xs;
  }

  lemma MinOfAppend(xs: seq<ExtInt>, x: ExtInt)
    ensures MinOf(xs + [x]) == Min(MinOf(xs), x)
  {
    assert (xs + [x])[..|xs|] == xs;
  }

  /** Appending keeps the first occurrence of a value already present. */
  lemma IndexOfAppend(xs: seq<ExtInt>, x: ExtInt, y: ExtInt)
    requires x in xs
    ensures x in xs + [y] && IndexOf(xs + [y], x) == IndexOf(xs, x)
  {
    var r := IndexOf(xs + [y], x);
    var q := IndexOf(xs, x);
    assert (xs + [y])[q] == x;
    assert r <= q;
  }

  // ---------------------------------------------------------------------------
  // The value and the move against plain minimax

  /**
   * The fail-soft alpha-beta guarantee relating a returned value to the true
   * minimax value v: exact strictly inside (alpha, beta), an upper bound of v
   * at or below alpha, a lower bound of v at or above beta.
   */
  predicate FailSoft(alpha: ExtInt, beta: ExtInt, value: ExtInt, v: ExtInt) {
    && (Lt(alpha, value) && Lt(value, beta) ==> value == v)
    && (Le(value, alpha) ==> Le(v, value))
    && (Le(beta, value) ==> Le(value, v))
  }

  /**
   * Fail-soft in the usual three cases of alpha-beta, for a window with
   * alpha < beta: a true value strictly inside the window is returned
   * exactly; one at or below alpha yields a result at or below alpha; one at
   * or above beta yields a result at or above beta.
   */
  lemma FailSoftDecidesWindow(alpha: ExtInt, beta: ExtInt, value: ExtInt, v: ExtInt)
    requires Lt(alpha, beta) && FailSoft(alpha, beta, value, v)
    ensures Lt(alpha, v) && Lt(v, beta) ==> value == v
    ensures Le(v, alpha) ==> Le(value, alpha)
    ensures Le(beta, v) ==> Le(beta, value)
  {
    LeIsTotalOrder(alpha, value, v);
    LeIsTotalOrder(value, v, beta);
    LeIsTotalOrder(v, alpha, value);
    LeIsTotalOrder(alpha, beta, value);
    LeIsTotalOrder(value, alpha, beta);
  }

  /** With the widest window, the maximizing half returns exactly the minimax value. */
  lemma FullWindowIsExact<B, P, M>(s: GameState<B, P, M>, eval: (GameState<B, P, M>, P) -> int,
                                   maxDepth: int, depth: nat, player: P)
    ensures MaxSearch(s, NegInf, PosInf, eval, maxDepth, depth, player).value == Minimax(s, true, eval, maxDepth, depth, player)
  {
    MaxSearchSound(s, NegInf, PosInf, eval, maxDepth, depth, player);
  }

  /**
   * Pruning does not change the move chosen at the root: searched with the
   * widest window from depth 0, the maximizing half picks the move plain
   * minimax designates.
   */
  lemma FullWindowPicksBestMove<B, P, M>(root: GameState<B, P, M>, maxDepth: int, eval: (GameState<B, P, M>, P) -> int)
    ensures MaxSearch(root, NegInf, PosInf, eval, maxDepth, 0, root.player).action == BestMove(root, maxDepth, eval)
  {
    MaxSearchSound(root, NegInf, PosInf, eval, maxDepth, 0, root.player);
    if !Cutoff(root, maxDepth, 0) {
      MaxSearchExplored(root, NegInf, PosInf, eval, maxDepth, 0, root.player);
    }
  }

  /**
   * A maximizing result is sound: fail-soft against the minimax value, and,
   * when it beats alpha, its move is the first one whose successor's value
   * reaches the returned value.
   */
  ghost predicate MaxSound<B, P, M>(s: GameState<B, P, M>, alpha: ExtInt, beta: ExtInt, eval: (GameState<B, P, M>, P) -> int,
                                    maxDepth: int, depth: nat, player: P, r: SearchResult<B, P, M>) {
    && FailSoft(alpha, beta, r.value, Minimax(s, true, eval, maxDepth, depth, player))
    && (!Cutoff(s, maxDepth, depth) && Lt(alpha, r.value) ==>
          var j := FirstReaching(s, true, eval, maxDepth, depth, player, r.value, 0);
          j < |s.moves| && r.action == Some(s.moves[j].move))
  }

  /** The mirror of MaxSound: when the result is below beta, its move is the first whose successor's value is that low. */
  ghost predicate MinSound<B, P, M>(s: GameState<B, P, M>, alpha: ExtInt, beta: ExtInt, eval: (GameState<B, P, M>, P) -> int,
                                    maxDepth: int, depth: nat, player: P, r: SearchResult<B, P, M>) {
    && FailSoft(alpha, beta, r.value, Minimax(s, false, eval, maxDepth, depth, player))
    && (!Cutoff(s, maxDepth, depth) && Lt(r.value, beta) ==>
          var j := FirstReaching(s, false, eval, maxDepth, depth, player, r.value, 0);
          j < |s.moves| && r.action == Some(s.moves[j].move))
  }

  /**
   * What holds of the maximizing loop after i moves: alpha is the running
   * alpha `a`, still below beta; no child so far has a true value above the
   * loop's value; the move, if any, is that of child `best`, every earlier
   * child being strictly worse; and when the value beats the original alpha,
   * it is child `best`'s true value.
   */
  ghost predicate MaxSoundInv<B, P, M>(s: GameState<B, P, M>, alpha0: ExtInt, a: ExtInt, beta: ExtInt,
                                       eval: (GameState<B, P, M>, P) -> int, maxDepth: int, depth: nat, player: P,
                                       i: nat, acc: SearchResult<B, P, M>, best: nat) {
    && i <= |s.moves|
    && a == Max(alpha0, acc.value) && Lt(a, beta)
    && (forall l | 0 <= l < i :: Le(ChildValue(s, l, true, eval, maxDepth, depth, player), acc.value))
    && (acc.action == None <==> acc.value == NegInf)
    && (acc.action != None ==>
          && best < i && acc.action == Some(s.moves[best].move)
          && forall l | 0 <= l < best :: Lt(ChildValue(s, l, true, eval, maxDepth, depth, player), acc.value))
    && (acc.action != None && Lt(alpha0, acc.value) ==> ChildValue(s, best, true, eval, maxDepth, depth, player) == acc.value)
  }

  /** The mirror of MaxSoundInv for the minimizing loop, with `b` the running beta. */
  ghost predicate MinSoundInv<B, P, M>(s: GameState<B, P, M>, alpha: ExtInt, b: ExtInt, beta0: ExtInt,
                                       eval: (GameState<B, P, M>, P) -> int, maxDepth: int, depth: nat, player: P,
                                       i: nat, acc: SearchResult<B, P, M>, best: nat) {
    && i <= |s.moves|
    && b == Min(beta0, acc.value) && Lt(alpha, b)
    && (forall l | 0 <= l < i :: Le(acc.value, ChildValue(s, l, false, eval, maxDepth, depth, player)))
    && (acc.action == None <==> acc.value == PosInf)
    && (acc.action != None ==>
          && best < i && acc.action == Some(s.moves[best].move)
          && forall l | 0 <= l < best :: Lt(acc.value, ChildValue(s, l, false, eval, maxDepth, depth, player)))
    && (acc.action != None && Lt(acc.value, beta0) ==> ChildValue(s, best, false, eval, maxDepth, depth, player) == acc.value)
  }

  /** The maximizing half is sound for every window it is called with. */
  lemma MaxSearchSound<B, P, M>(s: GameState<B, P, M>, alpha: ExtInt, beta: ExtInt, eval: (GameState<B, P, M>, P) -> int,
                                maxDepth: int, depth: nat, player: P)
    requires Lt(alpha, beta)
    ensures MaxSound(s, alpha, beta, eval, maxDepth, depth, player, MaxSearch(s, alpha, beta, eval, maxDepth, depth, player))
    decreases s, 1, 0
  {
    if !Cutoff(s, maxDepth, depth) {
      MaxLoopSound(s, alpha, alpha, beta, eval, maxDepth, depth, player, 0, SearchResult(NegInf, None, [], []), 0);
    }
  }

  /** The minimizing half is sound for every window it is called with. */
  lemma MinSearchSound<B, P, M>(s: GameState<B, P, M>, alpha: ExtInt, beta: ExtInt, eval: (GameState<B, P, M>, P) -> int,
                                maxDepth: int, depth: nat, player: P)
    requires Lt(alpha, beta)
    ensures MinSound(s, alpha, beta, eval, maxDepth, depth, player, MinSearch(s, alpha, beta, eval, maxDepth, depth, player))
    decreases s, 1, 0
  {
    if !Cutoff(s, maxDepth, depth) {
      MinLoopSound(s, alpha, beta, beta, eval, maxDepth, depth, player, 0, SearchResult(PosInf, None, [], []), 0);
    }
  }

  lemma MaxLoopSound<B, P, M>(s: GameState<B, P, M>, alpha0: ExtInt, a: ExtInt, beta: ExtInt,
                              eval: (GameState<B, P, M>, P) -> int, maxDepth: int, depth: nat, player: P,
                              i: nat, acc: SearchResult<B, P, M>, best: nat)
    requires !Cutoff(s, maxDepth, depth)
    requires MaxSoundInv(s, alpha0, a, beta, eval, maxDepth, depth, player, i, acc, best)
    ensures MaxSound(s, alpha0, beta, eval, maxDepth, depth, player, MaxLoop(s, a, beta, eval, maxDepth, depth, player, i, acc))
    decreases s, 0, |s.moves| - i
  {
    if i == |s.moves| {
      MaxExhausted(s, alpha0, a, beta, eval, maxDepth, depth, player, acc, best);
    } else {
      var child := MinSearch(s.moves[i].next, a, beta, eval, maxDepth, depth + 1, player);
      MinSearchSound(s.moves[i].next, a, beta, eval, maxDepth, depth + 1, player);
      var acc' := MaxStep(s, i, acc, child);
      if Le(beta, Max(a, acc'.value)) {
        MaxPruned(s, alpha0, a, beta, eval, maxDepth, depth, player, i, acc, best, child);
      } else {
        MaxStepSound(s, alpha0, a, beta, eval, maxDepth, depth, player, i, acc, best, child);
        var best' := if Lt(acc.value, child.value) then i else best;
        MaxLoopSound(s, alpha0, Max(a, acc'.value), beta, eval, maxDepth, depth, player, i + 1, acc', best');
      }
    }
  }

  lemma MinLoopSound<B, P, M>(s: GameState<B, P, M>, alpha: ExtInt, b: ExtInt, beta0: ExtInt,
                              eval: (GameState<B, P, M>, P) -> int, maxDepth: int, depth: nat, player: P,
                              i: nat, acc: SearchResult<B, P, M>, best: nat)
    requires !Cutoff(s, maxDepth, depth)
    requires MinSoundInv(s, alpha, b, beta0, eval, maxDepth, depth, player, i, acc, best)
    ensures MinSound(s, alpha, beta0, eval, maxDepth, depth, player, MinLoop(s, alpha, b, eval, maxDepth, depth, player, i, acc))
    decreases s, 0, |s.moves| - i
  {
    if i == |s.moves| {
      MinExhausted(s, alpha, b, beta0, eval, maxDepth, depth, player, acc, best);
    } else {
      var child := MaxSearch(s.moves[i].next, alpha, b, eval, maxDepth, depth + 1, player);
      MaxSearchSound(s.moves[i].next, alpha, b, eval, maxDepth, depth + 1, player);
      var acc' := MinStep(s, i, acc, child);
      if Le(Min(b, acc'.value), alpha) {
        MinPruned(s, alpha, b, beta0, eval, maxDepth, depth, player, i, acc, best, child);
      } else {
        MinStepSound(s, alpha, b, beta0, eval, maxDepth, depth, player, i, acc, best, child);
        var best' := if Lt(child.value, acc.value) then i else best;
        MinLoopSound(s, alpha, Min(b, acc'.value), beta0, eval, maxDepth, depth, player, i + 1, acc', best');
      }
    }
  }

  /** All moves explored without pruning: the loop's value is the minimax value or bounds it from above at alpha. */
  lemma MaxExhausted<B, P, M>(s: GameState<B, P, M>, alpha0: ExtInt, a: ExtInt, beta: ExtInt,
                              eval: (GameState<B, P, M>, P) -> int, maxDepth: int, depth: nat, player: P,
                              acc: SearchResult<B, P, M>, best: nat)
    requires !Cutoff(s, maxDepth, depth)
    requires MaxSoundInv(s, alpha0, a, beta, eval, maxDepth, depth, player, |s.moves|, acc, best)
    ensures MaxSound(s, alpha0, beta, eval, maxDepth, depth, player, acc)
  {
    var n := |s.moves|;
    ExtremeIsTight(s, n, true, eval, maxDepth, depth, player, acc.value);
    if Lt(alpha0, acc.value) {
      ExtremeIsBound(s, n, true, eval, maxDepth, depth, player);
      forall l | 0 <= l < best
        ensures !Reaches(true, ChildValue(s, l, true, eval, maxDepth, depth, player), acc.value)
      {
        LeIsTotalOrder(ChildValue(s, l, true, eval, maxDepth, depth, player), acc.value, acc.value);
      }
      FirstReachingIsFirst(s, true, eval, maxDepth, depth, player, acc.value, best);
    }
  }

  lemma MinExhausted<B, P, M>(s: GameState<B, P, M>, alpha: ExtInt, b: ExtInt, beta0: ExtInt,
                              eval: (GameState<B, P, M>, P) -> int, maxDepth: int, depth: nat, player: P,
                              acc: SearchResult<B, P, M>, best: nat)
    requires !Cutoff(s, maxDepth, depth)
    requires MinSoundInv(s, alpha, b, beta0, eval, maxDepth, depth, player, |s.moves|, acc, best)
    ensures MinSound(s, alpha, beta0, eval, maxDepth, depth, player, acc)
  {
    var n := |s.moves|;
    ExtremeIsTight(s, n, false, eval, maxDepth, depth, player, acc.value);
    if Lt(acc.value, beta0) {
      ExtremeIsBound(s, n, false, eval, maxDepth, depth, player);
      forall l | 0 <= l < best
        ensures !Reaches(false, ChildValue(s, l, false, eval, maxDepth, depth, player), acc.value)
      {
        LeIsTotalOrder(acc.value, ChildValue(s, l, false, eval, maxDepth, depth, player), acc.value);
      }
      FirstReachingIsFirst(s, false, eval, maxDepth, depth, player, acc.value, best);
    }
  }

  /** The child at i raised alpha to beta: the loop stops with that child's value, a lower bound of the minimax value. */
  lemma MaxPruned<B, P, M>(s: GameState<B, P, M>, alpha0: ExtInt, a: ExtInt, beta: ExtInt,
                           eval: (GameState<B, P, M>, P) -> int, maxDepth: int, depth: nat, player: P,
                           i: nat, acc: SearchResult<B, P, M>, best: nat, child: SearchResult<B, P, M>)
    requires !Cutoff(s, maxDepth, depth) && i < |s.moves|
    requires MaxSoundInv(s, alpha0, a, beta, eval, maxDepth, depth, player, i, acc, best)
    requires FailSoft(a, beta, child.value, ChildValue(s, i, true, eval, maxDepth, depth, player))
    requires Le(beta, Max(a, MaxStep(s, i, acc, child).value))
    ensures MaxSound(s, alpha0, beta, eval, maxDepth, depth, player, MaxStep(s, i, acc, child))
  {
    var c := child.value;
    var t := ChildValue(s, i, true, eval, maxDepth, depth, player);
    assert Lt(acc.value, c) && Le(beta, c) && Le(c, t);
    ExtremeIsBound(s, |s.moves|, true, eval, maxDepth, depth, player);
    forall l | 0 <= l < i
      ensures !Reaches(true, ChildValue(s, l, true, eval, maxDepth, depth, player), c)
    {
      LeIsTotalOrder(ChildValue(s, l, true, eval, maxDepth, depth, player), acc.value, c);
    }
    FirstReachingIsFirst(s, true, eval, maxDepth, depth, player, c, i);
  }

  lemma MinPruned<B, P, M>(s: GameState<B, P, M>, alpha: ExtInt, b: ExtInt, beta0: ExtInt,
                           eval: (GameState<B, P, M>, P) -> int, maxDepth: int, depth: nat, player: P,
                           i: nat, acc: SearchResult<B, P, M>, best: nat, child: SearchResult<B, P, M>)
    requires !Cutoff(s, maxDepth, depth) && i < |s.moves|
    requires MinSoundInv(s, alpha, b, beta0, eval, maxDepth, depth, player, i, acc, best)
    requires FailSoft(alpha, b, child.value, ChildValue(s, i, false, eval, maxDepth, depth, player))
    requires Le(Min(b, MinStep(s, i, acc, child).value), alpha)
    ensures MinSound(s, alpha, beta0, eval, maxDepth, depth, player, MinStep(s, i, acc, child))
  {
    var c := child.value;
    var t := ChildValue(s, i, false, eval, maxDepth, depth, player);
    assert Lt(c, acc.value) && Le(c, alpha) && Le(t, c);
    ExtremeIsBound(s, |s.moves|, false, eval, maxDepth, depth, player);
    forall l | 0 <= l < i
      ensures !Reaches(false, ChildValue(s, l, false, eval, maxDepth, depth, player), c)
    {
      LeIsTotalOrder(c, acc.value, ChildValue(s, l, false, eval, maxDepth, depth, player));
    }
    FirstReachingIsFirst(s, false, eval, maxDepth, depth, player, c, i);
  }

  /** An iteration that leaves alpha below beta keeps MaxSoundInv. */
  lemma MaxStepSound<B, P, M>(s: GameState<B, P, M>, alpha0: ExtInt, a: ExtInt, beta: ExtInt,
                              eval: (GameState<B, P, M>, P) -> int, maxDepth: int, depth: nat, player: P,
                              i: nat, acc: SearchResult<B, P, M>, best: nat, child: SearchResult<B, P, M>)
    requires i < |s.moves|
    requires MaxSoundInv(s, alpha0, a, beta, eval, maxDepth, depth, player, i, acc, best)
    requires FailSoft(a, beta, child.value, ChildValue(s, i, true, eval, maxDepth, depth, player))
    requires Lt(Max(a, MaxStep(s, i, acc, child).value), beta)
    ensures var acc' := MaxStep(s, i, acc, child);
      MaxSoundInv(s, alpha0, Max(a, acc'.value), beta, eval, maxDepth, depth, player, i + 1, acc',
                  if Lt(acc.value, child.value) then i else best)
  {
    var c := child.value;
    var t := ChildValue(s, i, true, eval, maxDepth, depth, player);
    var acc' := MaxStep(s, i, acc, child);
    // the window stayed open, so the child's value is at least its true value
    assert Le(t, c);
    if Lt(acc.value, c) {
      forall l | 0 <= l < i
        ensures Lt(ChildValue(s, l, true, eval, maxDepth, depth, player), c)
      {
        LeIsTotalOrder(ChildValue(s, l, true, eval, maxDepth, depth, player), acc.value, c);
      }
    } else {
      LeIsTotalOrder(t, c, acc.value);
    }
  }

  /** An iteration that leaves beta above alpha keeps MinSoundInv. */
  lemma MinStepSound<B, P, M>(s: GameState<B, P, M>, alpha: ExtInt, b: ExtInt, beta0: ExtInt,
                              eval: (GameState<B, P, M>, P) -> int, maxDepth: int, depth: nat, player: P,
                              i: nat, acc: SearchResult<B, P, M>, best: nat, child: SearchResult<B, P, M>)
    requires i < |s.moves|
    requires MinSoundInv(s, alpha, b, beta0, eval, maxDepth, depth, player, i, acc, best)
    requires FailSoft(alpha, b, child.value, ChildValue(s, i, false, eval, maxDepth, depth, player))
    requires Lt(alpha, Min(b, MinStep(s, i, acc, child).value))
    ensures var acc' := MinStep(s, i, acc, child);
      MinSoundInv(s, alpha, Min(b, acc'.value), beta0, eval, maxDepth, depth, player, i + 1, acc',
                  if Lt(child.value, acc.value) then i else best)
  {
    var c := child.value;
    var t := ChildValue(s, i, false, eval, maxDepth, depth, player);
    var acc' := MinStep(s, i, acc, child);
    // the window stayed open, so the child's value is at most its true value
    assert Le(c, t);
    if Lt(c, acc.value) {
      forall l | 0 <= l < i
        ensures Lt(c, ChildValue(s, l, false, eval, maxDepth, depth, player))
      {
        LeIsTotalOrder(c, acc.value, ChildValue(s, l, false, eval, maxDepth, depth, player));
      }
    } else {
      LeIsTotalOrder(acc.value, c, t);
    }
  }

  // ---------------------------------------------------------------------------
  // The explored children

  /**
   * A maximizing loop's result, read through its explored values: no more
   * children than moves; the value is their maximum; every child but the last
   * left the value below beta; the loop stopped early only right after a
   * child that reached beta; the move is absent exactly when the value is
   * NegInf and otherwise belongs to the first child that returned the value.
   */
  ghost predicate MaxExplored<B, P, M>(s: GameState<B, P, M>, beta: ExtInt, r: SearchResult<B, P, M>) {
    && |r.explored| <= |s.moves|
    && r.value == MaxOf(r.explored)
    && (forall k | 0 <= k < |r.explored| - 1 :: Lt(r.explored[k], beta))
    && (|r.explored| < |s.moves| ==> r.explored != [] && Le(beta, r.explored[|r.explored| - 1]))
    && (r.action == None <==> r.value == NegInf)
    && (r.value != NegInf ==> r.value in r.explored && r.action == Some(s.moves[IndexOf(r.explored, r.value)].move))
  }

  /** The mirror of MaxExplored: the value is the minimum, the loop stops right after a child that fell to alpha. */
  ghost predicate MinExplored<B, P, M>(s: GameState<B, P, M>, alpha: ExtInt, r: SearchResult<B, P, M>) {
    && |r.explored| <= |s.moves|
    && r.value == MinOf(r.explored)
    && (forall k | 0 <= k < |r.explored| - 1 :: Lt(alpha, r.explored[k]))
    && (|r.explored| < |s.moves| ==> r.explored != [] && Le(r.explored[|r.explored| - 1], alpha))
    && (r.action == None <==> r.value == PosInf)
    && (r.value != PosInf ==> r.value in r.explored && r.action == Some(s.moves[IndexOf(r.explored, r.value)].move))
  }

  /** What the maximizing loop holds after i moves, read through the explored values. */
  ghost predicate MaxExploredInv<B, P, M>(s: GameState<B, P, M>, a: ExtInt, beta: ExtInt, i: nat, acc: SearchResult<B, P, M>) {
    && i <= |s.moves| && |acc.explored| == i
    && acc.value == MaxOf(acc.explored)
    && Le(acc.value, a) && Lt(a, beta)
    && (acc.action == None <==> acc.value == NegInf)
    && (acc.value != NegInf ==> acc.value in acc.explored && acc.action == Some(s.moves[IndexOf(acc.explored, acc.value)].move))
  }

  ghost predicate MinExploredInv<B, P, M>(s: GameState<B, P, M>, alpha: ExtInt, b: ExtInt, i: nat, acc: SearchResult<B, P, M>) {
    && i <= |s.moves| && |acc.explored| == i
    && acc.value == MinOf(acc.explored)
    && Le(b, acc.value) && Lt(alpha, b)
    && (acc.action == None <==> acc.value == PosInf)
    && (acc.value != PosInf ==> acc.value in acc.explored && acc.action == Some(s.moves[IndexOf(acc.explored, acc.value)].move))
  }

  /** Below a cutoff, the maximizing half explores a prefix of the moves and returns the first largest value among them. */
  lemma MaxSearchExplored<B, P, M>(s: GameState<B, P, M>, alpha: ExtInt, beta: ExtInt, eval: (GameState<B, P, M>, P) -> int,
                                   maxDepth: int, depth: nat, player: P)
    requires Lt(alpha, beta) && !Cutoff(s, maxDepth, depth)
    ensures MaxExplored(s, beta, MaxSearch(s, alpha, beta, eval, maxDepth, depth, player))
  {
    MaxLoopExplored(s, alpha, beta, eval, maxDepth, depth, player, 0, SearchResult(NegInf, None, [], []));
  }

  /** Below a cutoff, the minimizing half explores a prefix of the moves and returns the first smallest value among them. */
  lemma MinSearchExplored<B, P, M>(s: GameState<B, P, M>, alpha: ExtInt, beta: ExtInt, eval: (GameState<B, P, M>, P) -> int,
                                   maxDepth: int, depth: nat, player: P)
    requires Lt(alpha, beta) && !Cutoff(s, maxDepth, depth)
    ensures MinExplored(s, alpha, MinSearch(s, alpha, beta, eval, maxDepth, depth, player))
  {
    MinLoopExplored(s, alpha, beta, eval, maxDepth, depth, player, 0, SearchResult(PosInf, None, [], []));
  }

  lemma {:induction false} MaxLoopExplored<B, P, M>(s: GameState<B, P, M>, a: ExtInt, beta: ExtInt,
                                                     eval: (GameState<B, P, M>, P) -> int, maxDepth: int, depth: nat, player: P,
                                                     i: nat, acc: SearchResult<B, P, M>)
    requires MaxExploredInv(s, a, beta, i, acc)
    ensures MaxExplored(s, beta, MaxLoop(s, a, beta, eval, maxDepth, depth, player, i, acc))
    decreases |s.moves| - i
  {
    if i == |s.moves| {
      MaxExploredPrefix(s, a, beta, i, acc);
    } else {
      var child := MinSearch(s.moves[i].next, a, beta, eval, maxDepth, depth + 1, player);
      var acc' := MaxStep(s, i, acc, child);
      MaxStepExplored(s, a, beta, i, acc, child);
      if !Le(beta, Max(a, acc'.value)) {
        MaxLoopExplored(s, Max(a, acc'.value), beta, eval, maxDepth, depth, player, i + 1, acc');
      }
    }
  }

  lemma {:induction false} MinLoopExplored<B, P, M>(s: GameState<B, P, M>, alpha: ExtInt, b: ExtInt,
                                                     eval: (GameState<B, P, M>, P) -> int, maxDepth: int, depth: nat, player: P,
                                                     i: nat, acc: SearchResult<B, P, M>)
    requires MinExploredInv(s, alpha, b, i, acc)
    ensures MinExplored(s, alpha, MinLoop(s, alpha, b, eval, maxDepth, depth, player, i, acc))
    decreases |s.moves| - i
  {
    if i == |s.moves| {
      MinExploredPrefix(s, alpha, b, i, acc);
    } else {
      var child := MaxSearch(s.moves[i].next, alpha, b, eval, maxDepth, depth + 1, player);
      var acc' := MinStep(s, i, acc, child);
      MinStepExplored(s, alpha, b, i, acc, child);
      if !Le(Min(b, acc'.value), alpha) {
        MinLoopExplored(s, alpha, Min(b, acc'.value), eval, maxDepth, depth, player, i + 1, acc');
      }
    }
  }

  /** Every value explored so far is below beta, since none exceeds the loop's value. */
  lemma MaxExploredPrefix<B, P, M>(s: GameState<B, P, M>, a: ExtInt, beta: ExtInt, i: nat, acc: SearchResult<B, P, M>)
    requires MaxExploredInv(s, a, beta, i, acc)
    ensures forall k | 0 <= k < |acc.explored| :: Lt(acc.explored[k], beta)
  {
    forall k | 0 <= k < |acc.explored|
      ensures Lt(acc.explored[k], beta)
    {
      LeIsTotalOrder(acc.explored[k], acc.value, a);
      LeIsTotalOrder(acc.explored[k], a, beta);
    }
  }

  /** Every value explored so far is above alpha, since none is below the loop's value. */
  lemma MinExploredPrefix<B, P, M>(s: GameState<B, P, M>, alpha: ExtInt, b: ExtInt, i: nat, acc: SearchResult<B, P, M>)
    requires MinExploredInv(s, alpha, b, i, acc)
    ensures forall k | 0 <= k < |acc.explored| :: Lt(alpha, acc.explored[k])
  {
    forall k | 0 <= k < |acc.explored|
      ensures Lt(alpha, acc.explored[k])
    {
      LeIsTotalOrder(b, acc.value, acc.explored[k]);
      LeIsTotalOrder(alpha, b, acc.explored[k]);
    }
  }

  /** One iteration of the maximizing loop either keeps MaxExploredInv or, when it prunes, ends in MaxExplored. */
  lemma MaxStepExplored<B, P, M>(s: GameState<B, P, M>, a: ExtInt, beta: ExtInt, i: nat,
                                 acc: SearchResult<B, P, M>, child: SearchResult<B, P, M>)
    requires i < |s.moves| && MaxExploredInv(s, a, beta, i, acc)
    ensures var acc' := MaxStep(s, i, acc, child);
      if Le(beta, Max(a, acc'.value)) then MaxExplored(s, beta, acc')
      else MaxExploredInv(s, Max(a, acc'.value), beta, i + 1, acc')
  {
    var acc' := MaxStep(s, i, acc, child);
    MaxOfAppend(acc.explored, child.value);
    MaxStepMove(s, i, acc, child);
    if Le(beta, Max(a, acc'.value)) {
      MaxExploredPrefix(s, a, beta, i, acc);
      assert acc'.explored[..i] == acc.explored;
    }
  }

  lemma MinStepExplored<B, P, M>(s: GameState<B, P, M>, alpha: ExtInt, b: ExtInt, i: nat,
                                 acc: SearchResult<B, P, M>, child: SearchResult<B, P, M>)
    requires i < |s.moves| && MinExploredInv(s, alpha, b, i, acc)
    ensures var acc' := MinStep(s, i, acc, child);
      if Le(Min(b, acc'.value), alpha) then MinExplored(s, alpha, acc')
      else MinExploredInv(s, alpha, Min(b, acc'.value), i + 1, acc')
  {
    var acc' := MinStep(s, i, acc, child);
    MinOfAppend(acc.explored, child.value);
    MinStepMove(s, i, acc, child);
    if Le(Min(b, acc'.value), alpha) {
      MinExploredPrefix(s, alpha, b, i, acc);
      assert acc'.explored[..i] == acc.explored;
    }
  }

  /** After an iteration of the maximizing loop the move still belongs to the first child that returned the value. */
  lemma MaxStepMove<B, P, M>(s: GameState<B, P, M>, i: nat, acc: SearchResult<B, P, M>, child: SearchResult<B, P, M>)
    requires i < |s.moves| && |acc.explored| == i && acc.value == MaxOf(acc.explored)
    requires acc.action == None <==> acc.value == NegInf
    requires acc.value != NegInf ==> acc.value in acc.explored && acc.action == Some(s.moves[IndexOf(acc.explored, acc.value)].move)
    ensures var acc' := MaxStep(s, i, acc, child);
      && (acc'.action == None <==> acc'.value == NegInf)
      && (acc'.value != NegInf ==> acc'.value in acc'.explored && acc'.action == Some(s.moves[IndexOf(acc'.explored, acc'.value)].move))
  {
    var acc' := MaxStep(s, i, acc, child);
    var c := child.value;
    if Lt(acc.value, c) {
      assert acc'.explored[i] == c;
      forall l | 0 <= l < i
        ensures acc'.explored[l] != c
      {
        assert acc'.explored[l] == acc.explored[l];
        LeIsTotalOrder(acc.explored[l], acc.value, c);
      }
      assert IndexOf(acc'.explored, c) == i;
    } else if acc.value != NegInf {
      IndexOfAppend(acc.explored, acc.value, c);
    }
  }

  /** After an iteration of the minimizing loop the move still belongs to the first child that returned the value. */
  lemma MinStepMove<B, P, M>(s: GameState<B, P, M>, i: nat, acc: SearchResult<B, P, M>, child: SearchResult<B, P, M>)
    requires i < |s.moves| && |acc.explored| == i && acc.value == MinOf(acc.explored)
    requires acc.action == None <==> acc.value == PosInf
    requires acc.value != PosInf ==> acc.value in acc.explored && acc.action == Some(s.moves[IndexOf(acc.explored, acc.value)].move)
    ensures var acc' := MinStep(s, i, acc, child);
      && (acc'.action == None <==> acc'.value == PosInf)
      && (acc'.value != PosInf ==> acc'.value in acc'.explored && acc'.action == Some(s.moves[IndexOf(acc'.explored, acc'.value)].move))
  {
    var acc' := MinStep(s, i, acc, child);
    var c := child.value;
    if Lt(c, acc.value) {
      assert acc'.explored[i] == c;
      forall l | 0 <= l < i
        ensures acc'.explored[l] != c
      {
        assert acc'.explored[l] == acc.explored[l];
        LeIsTotalOrder(c, acc.value, acc.explored[l]);
      }
      assert IndexOf(acc'.explored, c) == i;
    } else if acc.value != PosInf {
      IndexOfAppend(acc.explored, acc.value, c);
    }
  }

  // ---------------------------------------------------------------------------
  // Which child each explored value came from

  /**
   * `v` is what the minimizing half returns for the successor that follows
   * the already explored values `before`, one ply deeper, with alpha raised to
   * the best of them.
   */
  ghost predicate MaxChildAfter<B, P, M>(s: GameState<B, P, M>, alpha: ExtInt, beta: ExtInt, eval: (GameState<B, P, M>, P) -> int,
                                         maxDepth: int, depth: nat, player: P, before: seq<ExtInt>, v: ExtInt)
    requires |before| < |s.moves|
  {
    v == MinSearch(s.moves[|before|].next, Max(alpha, MaxOf(before)), beta, eval, maxDepth, depth + 1, player).value
  }

  /** The mirror of MaxChildAfter: the maximizing half's value, with beta lowered to the least value before it. */
  ghost predicate MinChildAfter<B, P, M>(s: GameState<B, P, M>, alpha: ExtInt, beta: ExtInt, eval: (GameState<B, P, M>, P) -> int,
                                         maxDepth: int, depth: nat, player: P, before: seq<ExtInt>, v: ExtInt)
    requires |before| < |s.moves|
  {
    v == MaxSearch(s.moves[|before|].next, alpha, Min(beta, MinOf(before)), eval, maxDepth, depth + 1, player).value
  }

  /** The explored values of a maximizing loop are its children's searches, in move order. */
  ghost predicate MaxChildren<B, P, M>(s: GameState<B, P, M>, alpha: ExtInt, beta: ExtInt, eval: (GameState<B, P, M>, P) -> int,
                                       maxDepth: int, depth: nat, player: P, explored: seq<ExtInt>) {
    && |explored| <= |s.moves|
    && forall k {:trigger MaxChildAfter(s, alpha, beta, eval, maxDepth, depth, player, explored[..k], explored[k])} | 0 <= k < |explored| ::
         MaxChildAfter(s, alpha, beta, eval, maxDepth, depth, player, explored[..k], explored[k])
  }

  /** The explored values of a minimizing loop are its children's searches, in move order. */
  ghost predicate MinChildren<B, P, M>(s: GameState<B, P, M>, alpha: ExtInt, beta: ExtInt, eval: (GameState<B, P, M>, P) -> int,
                                       maxDepth: int, depth: nat, player: P, explored: seq<ExtInt>) {
    && |explored| <= |s.moves|
    && forall k {:trigger MinChildAfter(s, alpha, beta, eval, maxDepth, depth, player, explored[..k], explored[k])} | 0 <= k < |explored| ::
         MinChildAfter(s, alpha, beta, eval, maxDepth, depth, player, explored[..k], explored[k])
  }

  /**
   * Below a cutoff, the k-th value the maximizing half explores is the
   * minimizing half's result for the k-th successor under the running
   * window, and so is fail-soft against that successor's minimax value.
   */
  lemma MaxSearchChildren<B, P, M>(s: GameState<B, P, M>, alpha: ExtInt, beta: ExtInt, eval: (GameState<B, P, M>, P) -> int,
                                   maxDepth: int, depth: nat, player: P)
    requires Lt(alpha, beta) && !Cutoff(s, maxDepth, depth)
    ensures var e := MaxSearch(s, alpha, beta, eval, maxDepth, depth, player).explored;
      && MaxChildren(s, alpha, beta, eval, maxDepth, depth, player, e)
      && forall k | 0 <= k < |e| ::
           FailSoft(Max(alpha, MaxOf(e[..k])), beta, e[k], ChildValue(s, k, true, eval, maxDepth, depth, player))
  {
    var e := MaxSearch(s, alpha, beta, eval, maxDepth, depth, player).explored;
    MaxLoopChildren(s, alpha, alpha, beta, eval, maxDepth, depth, player, 0, SearchResult(NegInf, None, [], []));
    MaxSearchExplored(s, alpha, beta, eval, maxDepth, depth, player);
    MaxChildrenSound(s, alpha, beta, eval, maxDepth, depth, player, e);
  }

  /**
   * Below a cutoff, the k-th value the minimizing half explores is the
   * maximizing half's result for the k-th successor under the running
   * window, and so is fail-soft against that successor's minimax value.
   */
  lemma MinSearchChildren<B, P, M>(s: GameState<B, P, M>, alpha: ExtInt, beta: ExtInt, eval: (GameState<B, P, M>, P) -> int,
                                   maxDepth: int, depth: nat, player: P)
    requires Lt(alpha, beta) && !Cutoff(s, maxDepth, depth)
    ensures var e := MinSearch(s, alpha, beta, eval, maxDepth, depth, player).explored;
      && MinChildren(s, alpha, beta, eval, maxDepth, depth, player, e)
      && forall k | 0 <= k < |e| ::
           FailSoft(alpha, Min(beta, MinOf(e[..k])), e[k], ChildValue(s, k, false, eval, maxDepth, depth, player))
  {
    var e := MinSearch(s, alpha, beta, eval, maxDepth, depth, player).explored;
    MinLoopChildren(s, alpha, beta, beta, eval, maxDepth, depth, player, 0, SearchResult(PosInf, None, [], []));
    MinSearchExplored(s, alpha, beta, eval, maxDepth, depth, player);
    MinChildrenSound(s, alpha, beta, eval, maxDepth, depth, player, e);
  }

  /**
   * When every explored value but the last stayed below beta, each explored
   * value is fail-soft, under the window it was searched with, against the
   * minimax value of its successor.
   */
  lemma MaxChildrenSound<B, P, M>(s: GameState<B, P, M>, alpha: ExtInt, beta: ExtInt, eval: (GameState<B, P, M>, P) -> int,
                                  maxDepth: int, depth: nat, player: P, e: seq<ExtInt>)
    requires Lt(alpha, beta) && MaxChildren(s, alpha, beta, eval, maxDepth, depth, player, e)
    requires forall k | 0 <= k < |e| - 1 :: Lt(e[k], beta)
    ensures forall k | 0 <= k < |e| ::
      FailSoft(Max(alpha, MaxOf(e[..k])), beta, e[k], ChildValue(s, k, true, eval, maxDepth, depth, player))
  {
    forall k | 0 <= k < |e|
      ensures FailSoft(Max(alpha, MaxOf(e[..k])), beta, e[k], ChildValue(s, k, true, eval, maxDepth, depth, player))
    {
      assert MaxChildAfter(s, alpha, beta, eval, maxDepth, depth, player, e[..k], e[k]);
      if k > 0 {
        var j := IndexOf(e[..k], MaxOf(e[..k]));
        assert Lt(e[j], beta);
      }
      MaxChildSound(s, alpha, beta, eval, maxDepth, depth, player, e[..k], e[k]);
    }
  }

  /**
   * When every explored value but the last stayed above alpha, each explored
   * value is fail-soft, under the window it was searched with, against the
   * minimax value of its successor.
   */
  lemma MinChildrenSound<B, P, M>(s: GameState<B, P, M>, alpha: ExtInt, beta: ExtInt, eval: (GameState<B, P, M>, P) -> int,
                                  maxDepth: int, depth: nat, player: P, e: seq<ExtInt>)
    requires Lt(alpha, beta) && MinChildren(s, alpha, beta, eval, maxDepth, depth, player, e)
    requires forall k | 0 <= k < |e| - 1 :: Lt(alpha, e[k])
    ensures forall k | 0 <= k < |e| ::
      FailSoft(alpha, Min(beta, MinOf(e[..k])), e[k], ChildValue(s, k, false, eval, maxDepth, depth, player))
  {
    forall k | 0 <= k < |e|
      ensures FailSoft(alpha, Min(beta, MinOf(e[..k])), e[k], ChildValue(s, k, false, eval, maxDepth, depth, player))
    {
      assert MinChildAfter(s, alpha, beta, eval, maxDepth, depth, player, e[..k], e[k]);
      if k > 0 {
        var j := IndexOf(e[..k], MinOf(e[..k]));
        assert Lt(alpha, e[j]);
      }
      MinChildSound(s, alpha, beta, eval, maxDepth, depth, player, e[..k], e[k]);
    }
  }

  /** A child searched under a window that is still open is fail-soft against its own minimax value. */
  lemma MaxChildSound<B, P, M>(s: GameState<B, P, M>, alpha: ExtInt, beta: ExtInt, eval: (GameState<B, P, M>, P) -> int,
                               maxDepth: int, depth: nat, player: P, before: seq<ExtInt>, v: ExtInt)
    requires |before| < |s.moves| && MaxChildAfter(s, alpha, beta, eval, maxDepth, depth, player, before, v)
    requires Lt(Max(alpha, MaxOf(before)), beta)
    ensures FailSoft(Max(alpha, MaxOf(before)), beta, v, ChildValue(s, |before|, true, eval, maxDepth, depth, player))
  {
    MinSearchSound(s.moves[|before|].next, Max(alpha, MaxOf(before)), beta, eval, maxDepth, depth + 1, player);
  }

  lemma MinChildSound<B, P, M>(s: GameState<B, P, M>, alpha: ExtInt, beta: ExtInt, eval: (GameState<B, P, M>, P) -> int,
                               maxDepth: int, depth: nat, player: P, before: seq<ExtInt>, v: ExtInt)
    requires |before| < |s.moves| && MinChildAfter(s, alpha, beta, eval, maxDepth, depth, player, before, v)
    requires Lt(alpha, Min(beta, MinOf(before)))
    ensures FailSoft(alpha, Min(beta, MinOf(before)), v, ChildValue(s, |before|, false, eval, maxDepth, depth, player))
  {
    MaxSearchSound(s.moves[|before|].next, alpha, Min(beta, MinOf(before)), eval, maxDepth, depth + 1, player);
  }

  /** Raising alpha to a value and then to a larger one is raising it to the larger one. */
  lemma MaxAbsorbs(x: ExtInt, y: ExtInt, z: ExtInt)
    requires Le(y, z)
    ensures Max(Max(x, y), z) == Max(x, z)
  {
    LeIsTotalOrder(x, y, z);
    LeIsTotalOrder(x, z, y);
  }

  /** Lowering beta to a value and then to a smaller one is lowering it to the smaller one. */
  lemma MinAbsorbs(x: ExtInt, y: ExtInt, z: ExtInt)
    requires Le(z, y)
    ensures Min(Min(x, y), z) == Min(x, z)
  {
    LeIsTotalOrder(x, y, z);
    LeIsTotalOrder(x, z, y);
  }

  /** Appending the next child's value, searched under the window raised by the values before it, keeps MaxChildren. */
  lemma MaxChildrenAppend<B, P, M>(s: GameState<B, P, M>, alpha: ExtInt, beta: ExtInt, eval: (GameState<B, P, M>, P) -> int,
                                   maxDepth: int, depth: nat, player: P, xs: seq<ExtInt>, v: ExtInt)
    requires MaxChildren(s, alpha, beta, eval, maxDepth, depth, player, xs) && |xs| < |s.moves|
    requires v == MinSearch(s.moves[|xs|].next, Max(alpha, MaxOf(xs)), beta, eval, maxDepth, depth + 1, player).value
    ensures MaxChildren(s, alpha, beta, eval, maxDepth, depth, player, xs + [v])
  {
    var ys := xs + [v];
    forall k | 0 <= k < |ys|
      ensures MaxChildAfter(s, alpha, beta, eval, maxDepth, depth, player, ys[..k], ys[k])
    {
      if k < |xs| {
        assert ys[..k] == xs[..k];
      } else {
        assert ys[..k] == xs;
      }
    }
  }

  /** Appending the next child's value, searched under the window lowered by the values before it, keeps MinChildren. */
  lemma MinChildrenAppend<B, P, M>(s: GameState<B, P, M>, alpha: ExtInt, beta: ExtInt, eval: (GameState<B, P, M>, P) -> int,
                                   maxDepth: int, depth: nat, player: P, xs: seq<ExtInt>, v: ExtInt)
    requires MinChildren(s, alpha, beta, eval, maxDepth, depth, player, xs) && |xs| < |s.moves|
    requires v == MaxSearch(s.moves[|xs|].next, alpha, Min(beta, MinOf(xs)), eval, maxDepth, depth + 1, player).value
    ensures MinChildren(s, alpha, beta, eval, maxDepth, depth, player, xs + [v])
  {
    var ys := xs + [v];
    forall k | 0 <= k < |ys|
      ensures MinChildAfter(s, alpha, beta, eval, maxDepth, depth, player, ys[..k], ys[k])
    {
      if k < |xs| {
        assert ys[..k] == xs[..k];
      } else {
        assert ys[..k] == xs;
      }
    }
  }

  lemma {:induction false} MaxLoopChildren<B, P, M>(s: GameState<B, P, M>, alpha0: ExtInt, a: ExtInt, beta: ExtInt,
                                                     eval: (GameState<B, P, M>, P) -> int, maxDepth: int, depth: nat, player: P,
                                                     i: nat, acc: SearchResult<B, P, M>)
    requires i <= |s.moves| && |acc.explored| == i
    requires acc.value == MaxOf(acc.explored) && a == Max(alpha0, acc.value)
    requires MaxChildren(s, alpha0, beta, eval, maxDepth, depth, player, acc.explored)
    ensures MaxChildren(s, alpha0, beta, eval, maxDepth, depth, player, MaxLoop(s, a, beta, eval, maxDepth, depth, player, i, acc).explored)
    decreases |s.moves| - i
  {
    if i < |s.moves| {
      var child := MinSearch(s.moves[i].next, a, beta, eval, maxDepth, depth + 1, player);
      var acc' := MaxStep(s, i, acc, child);
      MaxStepChildren(s, alpha0, a, beta, eval, maxDepth, depth, player, i, acc, child);
      if !Le(beta, Max(a, acc'.value)) {
        assert MaxLoop(s, a, beta, eval, maxDepth, depth, player, i, acc) == MaxLoop(s, Max(a, acc'.value), beta, eval, maxDepth, depth, player, i + 1, acc');
        MaxLoopChildren(s, alpha0, Max(a, acc'.value), beta, eval, maxDepth, depth, player, i + 1, acc');
      } else {
        assert MaxLoop(s, a, beta, eval, maxDepth, depth, player, i, acc) == acc';
      }
    }
  }

  /** One maximizing step keeps the loop lemma's requirements, with alpha raised by the new value. */
  lemma MaxStepChildren<B, P, M>(s: GameState<B, P, M>, alpha0: ExtInt, a: ExtInt, beta: ExtInt,
                                 eval: (GameState<B, P, M>, P) -> int, maxDepth: int, depth: nat, player: P,
                                 i: nat, acc: SearchResult<B, P, M>, child: SearchResult<B, P, M>)
    requires i < |s.moves| && |acc.explored| == i
    requires acc.value == MaxOf(acc.explored) && a == Max(alpha0, acc.value)
    requires MaxChildren(s, alpha0, beta, eval, maxDepth, depth, player, acc.explored)
    requires child == MinSearch(s.moves[i].next, a, beta, eval, maxDepth, depth + 1, player)
    ensures var acc' := MaxStep(s, i, acc, child);
      && |acc'.explored| == i + 1
      && acc'.value == MaxOf(acc'.explored) && Max(a, acc'.value) == Max(alpha0, acc'.value)
      && MaxChildren(s, alpha0, beta, eval, maxDepth, depth, player, acc'.explored)
  {
    var acc' := MaxStep(s, i, acc, child);
    MaxChildrenAppend(s, alpha0, beta, eval, maxDepth, depth, player, acc.explored, child.value);
    MaxOfAppend(acc.explored, child.value);
    LeIsTotalOrder(acc.value, child.value, acc.value);
    MaxAbsorbs(alpha0, acc.value, acc'.value);
  }

  lemma {:induction false} MinLoopChildren<B, P, M>(s: GameState<B, P, M>, alpha: ExtInt, b: ExtInt, beta0: ExtInt,
                                                     eval: (GameState<B, P, M>, P) -> int, maxDepth: int, depth: nat, player: P,
                                                     i: nat, acc: SearchResult<B, P, M>)
    requires i <= |s.moves| && |acc.explored| == i
    requires acc.value == MinOf(acc.explored) && b == Min(beta0, acc.value)
    requires MinChildren(s, alpha, beta0, eval, maxDepth, depth, player, acc.explored)
    ensures MinChildren(s, alpha, beta0, eval, maxDepth, depth, player, MinLoop(s, alpha, b, eval, maxDepth, depth, player, i, acc).explored)
    decreases |s.moves| - i
  {
    if i < |s.moves| {
      var child := MaxSearch(s.moves[i].next, alpha, b, eval, maxDepth, depth + 1, player);
      var acc' := MinStep(s, i, acc, child);
      MinStepChildren(s, alpha, b, beta0, eval, maxDepth, depth, player, i, acc, child);
      if !Le(Min(b, acc'.value), alpha) {
        assert MinLoop(s, alpha, b, eval, maxDepth, depth, player, i, acc) == MinLoop(s, alpha, Min(b, acc'.value), eval, maxDepth, depth, player, i + 1, acc');
        MinLoopChildren(s, alpha, Min(b, acc'.value), beta0, eval, maxDepth, depth, player, i + 1, acc');
      } else {
        assert MinLoop(s, alpha, b, eval, maxDepth, depth, player, i, acc) == acc';
      }
    }
  }

  /** One minimizing step keeps the loop lemma's requirements, with beta lowered by the new value. */
  lemma MinStepChildren<B, P, M>(s: GameState<B, P, M>, alpha: ExtInt, b: ExtInt, beta0: ExtInt,
                                 eval: (GameState<B, P, M>, P) -> int, maxDepth: int, depth: nat, player: P,
                                 i: nat, acc: SearchResult<B, P, M>, child: SearchResult<B, P, M>)
    requires i < |s.moves| && |acc.explored| == i
    requires acc.value == MinOf(acc.explored) && b == Min(beta0, acc.value)
    requires MinChildren(s, alpha, beta0, eval, maxDepth, depth, player, acc.explored)
    requires child == MaxSearch(s.moves[i].next, alpha, b, eval, maxDepth, depth + 1, player)
    ensures var acc' := MinStep(s, i, acc, child);
      && |acc'.explored| == i + 1
      && acc'.value == MinOf(acc'.explored) && Min(b, acc'.value) == Min(beta0, acc'.value)
      && MinChildren(s, alpha, beta0, eval, maxDepth, depth, player, acc'.explored)
  {
    var acc' := MinStep(s, i, acc, child);
    MinChildrenAppend(s, alpha, beta0, eval, maxDepth, depth, player, acc.explored, child.value);
    MinOfAppend(acc.explored, child.value);
    LeIsTotalOrder(acc.value, child.value, acc.value);
    MinAbsorbs(beta0, acc.value, acc'.value);
  }

  // ---------------------------------------------------------------------------
  // The calls of the evaluation function

  /**
   * A call made while searching `s` from `depth`: at a cutoff, at or below
   * `depth`, on a state reached from `s` by one move per ply; so only on
   * finished games when no bound is set, and never below a bound that the
   * search started within.
   */
  ghost predicate ValidCall<B, P, M>(s: GameState<B, P, M>, depth: nat, maxDepth: int, c: EvalCall<B, P, M>) {
    && depth <= c.depth
    && Cutoff(c.state, maxDepth, c.depth)
    && ReachableIn(s, c.depth - depth, c.state)
    && (maxDepth == -1 ==> c.state.terminal)
    && (0 <= maxDepth && depth <= maxDepth ==> c.depth <= maxDepth)
  }

  ghost predicate CallsValid<B, P, M>(s: GameState<B, P, M>, depth: nat, maxDepth: int, calls: seq<EvalCall<B, P, M>>) {
    forall c | c in calls :: ValidCall(s, depth, maxDepth, c)
  }

  /** Calls made below a successor of a non-cutoff state are valid calls for that state. */
  lemma ChildCallsValid<B, P, M>(s: GameState<B, P, M>, i: nat, depth: nat, maxDepth: int, calls: seq<EvalCall<B, P, M>>)
    requires i < |s.moves| && !Cutoff(s, maxDepth, depth)
    requires CallsValid(s.moves[i].next, depth + 1, maxDepth, calls)
    ensures CallsValid(s, depth, maxDepth, calls)
  {
    forall c | c in calls
      ensures ValidCall(s, depth, maxDepth, c)
    {
      ReachableThroughMove(s, i, c.depth - (depth + 1), c.state);
    }
  }

  /** Every evaluation the maximizing half makes is a valid call. */
  lemma MaxSearchCalls<B, P, M>(s: GameState<B, P, M>, alpha: ExtInt, beta: ExtInt, eval: (GameState<B, P, M>, P) -> int,
                                maxDepth: int, depth: nat, player: P)
    ensures CallsValid(s, depth, maxDepth, MaxSearch(s, alpha, beta, eval, maxDepth, depth, player).calls)
    decreases s, 1, 0
  {
    if !Cutoff(s, maxDepth, depth) {
      MaxLoopCalls(s, alpha, beta, eval, maxDepth, depth, player, 0, SearchResult(NegInf, None, [], []));
    }
  }

  /** Every evaluation the minimizing half makes is a valid call. */
  lemma MinSearchCalls<B, P, M>(s: GameState<B, P, M>, alpha: ExtInt, beta: ExtInt, eval: (GameState<B, P, M>, P) -> int,
                                maxDepth: int, depth: nat, player: P)
    ensures CallsValid(s, depth, maxDepth, MinSearch(s, alpha, beta, eval, maxDepth, depth, player).calls)
    decreases s, 1, 0
  {
    if !Cutoff(s, maxDepth, depth) {
      MinLoopCalls(s, alpha, beta, eval, maxDepth, depth, player, 0, SearchResult(PosInf, None, [], []));
    }
  }

  lemma MaxLoopCalls<B, P, M>(s: GameState<B, P, M>, a: ExtInt, beta: ExtInt,
                              eval: (GameState<B, P, M>, P) -> int, maxDepth: int, depth: nat, player: P,
                              i: nat, acc: SearchResult<B, P, M>)
    requires i <= |s.moves| && !Cutoff(s, maxDepth, depth)
    requires CallsValid(s, depth, maxDepth, acc.calls)
    ensures CallsValid(s, depth, maxDepth, MaxLoop(s, a, beta, eval, maxDepth, depth, player, i, acc).calls)
    decreases s, 0, |s.moves| - i
  {
    if i < |s.moves| {
      var child := MinSearch(s.moves[i].next, a, beta, eval, maxDepth, depth + 1, player);
      MinSearchCalls(s.moves[i].next, a, beta, eval, maxDepth, depth + 1, player);
      ChildCallsValid(s, i, depth, maxDepth, child.calls);
      var acc' := MaxStep(s, i, acc, child);
      if !Le(beta, Max(a, acc'.value)) {
        MaxLoopCalls(s, Max(a, acc'.value), beta, eval, maxDepth, depth, player, i + 1, acc');
      }
    }
  }

  lemma MinLoopCalls<B, P, M>(s: GameState<B, P, M>, alpha: ExtInt, b: ExtInt,
                              eval: (GameState<B, P, M>, P) -> int, maxDepth: int, depth: nat, player: P,
                              i: nat, acc: SearchResult<B, P, M>)
    requires i <= |s.moves| && !Cutoff(s, maxDepth, depth)
    requires CallsValid(s, depth, maxDepth, acc.calls)
    ensures CallsValid(s, depth, maxDepth, MinLoop(s, alpha, b, eval, maxDepth, depth, player, i, acc).calls)
    decreases s, 0, |s.moves| - i
  {
    if i < |s.moves| {
      var child := MaxSearch(s.moves[i].next, alpha, b, eval, maxDepth, depth + 1, player);
      MaxSearchCalls(s.moves[i].next, alpha, b, eval, maxDepth, depth + 1, player);
      ChildCallsValid(s, i, depth, maxDepth, child.calls);
      var acc' := MinStep(s, i, acc, child);
      if !Le(Min(b, acc'.value), alpha) {
        MinLoopCalls(s, alpha, Min(b, acc'.value), eval, maxDepth, depth, player, i + 1, acc');
      }
    }
  }
}

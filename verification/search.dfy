/**
  The minimax search with alpha-beta pruning of checkers_2.c, as a pure
  recursive function, and an unpruned reference minimax it is proved to agree with.
*/
module SearchEngine {
  import opened BoardState
  import opened RulesEngine
  import opened MoveGeneration
  import opened Evaluator

  /** The sentinel the search starts a maximum from (and a minimum from its negation). */
  const Infinity: int := 9999

  function Max(a: int, b: int): int { if a >= b then a else b }
  function Min(a: int, b: int): int { if a <= b then a else b }

  /** Every move of the list is one the scan for `turn` produces. */
  ghost predicate AllCandidates(b: Board, turn: int, moves: seq<Move>)
  {
    forall i :: 0 <= i < |moves| ==> IsCandidate(b, turn, moves[i])
  }

  ghost predicate InSentinelRange(x: int)
  {
    -Infinity <= x <= Infinity
  }

  /**
    minimax(board, maxDepth, depth, turn, alpha, beta). Side 2 maximises and
    hands the move to side 1; every other value of `turn` minimises and hands
    the move to side 2. A node without moves returns its starting sentinel.
  */
  function Minimax(b: Board, maxDepth: int, depth: int, turn: int, alpha: int, beta: int): (score: int)
    requires depth <= maxDepth
    decreases maxDepth - depth, 1, 0
    ensures WithinPieceLimit(b) ==> InSentinelRange(score)
  {
    if depth == maxDepth then
      EvaluatePosition(b)
    else
      var moves := GetPossibleMoves(b, turn);
      if turn == Player2 then MaxLoop(b, maxDepth, depth, moves, 0, -Infinity, alpha, beta)
      else MinLoop(b, maxDepth, depth, turn, moves, 0, Infinity, alpha, beta)
  }

  /** The maximising loop from move `i` on, with running best `maxScore` and window (alpha, beta). */
  function MaxLoop(b: Board, maxDepth: int, depth: int, moves: seq<Move>, i: int,
                   maxScore: int, alpha: int, beta: int): (score: int)
    requires depth < maxDepth && 0 <= i <= |moves| && AllCandidates(b, Player2, moves)
    decreases maxDepth - depth, 0, |moves| - i
    ensures WithinPieceLimit(b) && InSentinelRange(maxScore) ==> InSentinelRange(score)
  {
    if i == |moves| then maxScore
    else
      var child := MakeMove(b, Player2, moves[i]);
      MakeMoveNeverAddsPieces(b, Player2, moves[i], Player1);
      MakeMoveNeverAddsPieces(b, Player2, moves[i], Player2);
      var score := Minimax(child, maxDepth, depth + 1, Player1, alpha, beta);
      var maxScore' := if score > maxScore then score else maxScore;
      var alpha' := if maxScore' > alpha then maxScore' else alpha;
      if beta <= alpha' then maxScore'
      else MaxLoop(b, maxDepth, depth, moves, i + 1, maxScore', alpha', beta)
  }

  /** The minimising loop from move `i` on, with running best `minScore` and window (alpha, beta). */
  function MinLoop(b: Board, maxDepth: int, depth: int, turn: int, moves: seq<Move>, i: int,
                   minScore: int, alpha: int, beta: int): (score: int)
    requires depth < maxDepth && 0 <= i <= |moves| && AllCandidates(b, turn, moves)
    decreases maxDepth - depth, 0, |moves| - i
    ensures WithinPieceLimit(b) && InSentinelRange(minScore) ==> InSentinelRange(score)
  {
    if i == |moves| then minScore
    else
      var child := MakeMove(b, turn, moves[i]);
      MakeMoveNeverAddsPieces(b, turn, moves[i], Player1);
      MakeMoveNeverAddsPieces(b, turn, moves[i], Player2);
      var score := Minimax(child, maxDepth, depth + 1, Player2, alpha, beta);
      var minScore' := if score < minScore then score else minScore;
      var beta' := if minScore' < beta then minScore' else beta;
      if beta' <= alpha then minScore'
      else MinLoop(b, maxDepth, depth, turn, moves, i + 1, minScore', alpha, beta')
  }

  // ---------------------------------------------------------------------
  // Reference: minimax without pruning

  /** The value of a node when every move is explored, with the same sentinels. */
  function MinimaxValue(b: Board, maxDepth: int, depth: int, turn: int): (v: int)
    requires depth <= maxDepth
    decreases maxDepth - depth, 1, 0
    ensures WithinPieceLimit(b) ==> InSentinelRange(v)
  {
    if depth == maxDepth then
      EvaluatePosition(b)
    else
      var moves := GetPossibleMoves(b, turn);
      if turn == Player2 then MaxValue(b, maxDepth, depth, moves, 0, -Infinity)
      else MinValue(b, maxDepth, depth, turn, moves, 0, Infinity)
  }

  function MaxValue(b: Board, maxDepth: int, depth: int, moves: seq<Move>, i: int, acc: int): (v: int)
    requires depth < maxDepth && 0 <= i <= |moves| && AllCandidates(b, Player2, moves)
    decreases maxDepth - depth, 0, |moves| - i
    ensures v >= acc
    ensures WithinPieceLimit(b) && InSentinelRange(acc) ==> InSentinelRange(v)
  {
    if i == |moves| then acc
    else
      MakeMoveNeverAddsPieces(b, Player2, moves[i], Player1);
      MakeMoveNeverAddsPieces(b, Player2, moves[i], Player2);
      var v := MinimaxValue(MakeMove(b, Player2, moves[i]), maxDepth, depth + 1, Player1);
      MaxValue(b, maxDepth, depth, moves, i + 1, Max(acc, v))
  }

  function MinValue(b: Board, maxDepth: int, depth: int, turn: int, moves: seq<Move>, i: int, acc: int): (v: int)
    requires depth < maxDepth && 0 <= i <= |moves| && AllCandidates(b, turn, moves)
    decreases maxDepth - depth, 0, |moves| - i
    ensures v <= acc
    ensures WithinPieceLimit(b) && InSentinelRange(acc) ==> InSentinelRange(v)
  {
    if i == |moves| then acc
    else
      MakeMoveNeverAddsPieces(b, turn, moves[i], Player1);
      MakeMoveNeverAddsPieces(b, turn, moves[i], Player2);
      var v := MinimaxValue(MakeMove(b, turn, moves[i]), maxDepth, depth + 1, Player2);
      MinValue(b, maxDepth, depth, turn, moves, i + 1, Min(acc, v))
  }

  // ---------------------------------------------------------------------
  // Properties

  /**
    The horizon returns the static evaluation; a node whose side cannot move
    returns -9999 when side 2 is to move and 9999 otherwise.
  */
  lemma MinimaxLeafValues(b: Board, maxDepth: int, depth: int, turn: int, alpha: int, beta: int)
    requires depth <= maxDepth
    ensures depth == maxDepth ==> Minimax(b, maxDepth, depth, turn, alpha, beta) == EvaluatePosition(b)
    ensures depth < maxDepth && !HasValidMoves(b, turn) ==>
      Minimax(b, maxDepth, depth, turn, alpha, beta) == if turn == Player2 then -Infinity else Infinity
  {
    HasValidMovesIffMoveListNonEmpty(b, turn);
  }

  /**
    The fail-soft window property of alpha-beta: inside (alpha, beta) the
    pruned result is the true value; at or below alpha it is an upper bound
    not above alpha; at or above beta a lower bound not below beta.
  */
  ghost predicate FailSoft(r: int, v: int, alpha: int, beta: int)
  {
    && (v <= alpha ==> v <= r <= alpha)
    && (alpha < v < beta ==> r == v)
    && (beta <= v ==> beta <= r <= v)
  }

  lemma {:induction false} MinimaxFailSoft(b: Board, maxDepth: int, depth: int, turn: int, alpha: int, beta: int)
    requires depth <= maxDepth
    requires -Infinity <= alpha < beta <= Infinity
    ensures FailSoft(Minimax(b, maxDepth, depth, turn, alpha, beta), MinimaxValue(b, maxDepth, depth, turn), alpha, beta)
    decreases maxDepth - depth, 1, 0
  {
    if depth < maxDepth {
      var moves := GetPossibleMoves(b, turn);
      if turn == Player2 {
        MaxLoopFailSoft(b, maxDepth, depth, moves, 0, -Infinity, alpha, -Infinity, alpha, beta);
      } else {
        MinLoopFailSoft(b, maxDepth, depth, turn, moves, 0, Infinity, beta, Infinity, alpha, beta);
      }
    }
  }

  /**
    One move of the maximising loop: the running best and alpha keep their
    relation to the unpruned maximum, and a cut-off already returns a
    fail-soft bound for whatever the remaining moves would have added.
  */
  lemma MaxStep(alpha0: int, beta: int, alpha: int, maxScore: int, acc: int, score: int, v: int, rest: int)
    requires -Infinity <= alpha0 < beta <= Infinity
    requires alpha == Max(alpha0, maxScore) && alpha < beta
    requires acc <= alpha0 ==> acc <= maxScore <= alpha0
    requires alpha0 < acc ==> maxScore == acc
    requires FailSoft(score, v, alpha, beta) && rest >= Max(acc, v)
    ensures var maxScore' := if score > maxScore then score else maxScore;
            var alpha' := if maxScore' > alpha then maxScore' else alpha;
      && (alpha' < beta ==>
            && alpha' == Max(alpha0, maxScore')
            && (Max(acc, v) <= alpha0 ==> Max(acc, v) <= maxScore' <= alpha0)
            && (alpha0 < Max(acc, v) ==> maxScore' == Max(acc, v)))
      && (beta <= alpha' ==> FailSoft(maxScore', rest, alpha0, beta))
  {
  }

  /** One move of the minimising loop, symmetric to MaxStep. */
  lemma MinStep(alpha: int, beta0: int, beta: int, minScore: int, acc: int, score: int, v: int, rest: int)
    requires -Infinity <= alpha < beta0 <= Infinity
    requires beta == Min(beta0, minScore) && alpha < beta
    requires beta0 <= acc ==> beta0 <= minScore <= acc
    requires acc < beta0 ==> minScore == acc
    requires FailSoft(score, v, alpha, beta) && rest <= Min(acc, v)
    ensures var minScore' := if score < minScore then score else minScore;
            var beta' := if minScore' < beta then minScore' else beta;
      && (alpha < beta' ==>
            && beta' == Min(beta0, minScore')
            && (beta0 <= Min(acc, v) ==> beta0 <= minScore' <= Min(acc, v))
            && (Min(acc, v) < beta0 ==> minScore' == Min(acc, v)))
      && (beta' <= alpha ==> FailSoft(minScore', rest, alpha, beta0))
  {
  }

  /**
    The maximising loop at move `i`, against the unpruned maximum `acc` of the
    moves before it: `alpha` is the caller's `alpha0` raised to the running best.
  */
  lemma {:induction false} MaxLoopFailSoft(b: Board, maxDepth: int, depth: int, moves: seq<Move>, i: int,
                                           maxScore: int, alpha: int, acc: int, alpha0: int, beta: int)
    requires depth < maxDepth && 0 <= i <= |moves| && AllCandidates(b, Player2, moves)
    requires -Infinity <= alpha0 < beta <= Infinity
    requires alpha == Max(alpha0, maxScore) && alpha < beta
    requires acc <= alpha0 ==> acc <= maxScore <= alpha0
    requires alpha0 < acc ==> maxScore == acc
    ensures FailSoft(MaxLoop(b, maxDepth, depth, moves, i, maxScore, alpha, beta),
                     MaxValue(b, maxDepth, depth, moves, i, acc), alpha0, beta)
    decreases maxDepth - depth, 0, |moves| - i
  {
    if i < |moves| {
      var child := MakeMove(b, Player2, moves[i]);
      MinimaxFailSoft(child, maxDepth, depth + 1, Player1, alpha, beta);
      var v := MinimaxValue(child, maxDepth, depth + 1, Player1);
      var score := Minimax(child, maxDepth, depth + 1, Player1, alpha, beta);
      var maxScore' := if score > maxScore then score else maxScore;
      var alpha' := if maxScore' > alpha then maxScore' else alpha;
      MaxStep(alpha0, beta, alpha, maxScore, acc, score, v,
              MaxValue(b, maxDepth, depth, moves, i + 1, Max(acc, v)));
      if alpha' < beta {
        MaxLoopFailSoft(b, maxDepth, depth, moves, i + 1, maxScore', alpha', Max(acc, v), alpha0, beta);
      }
    }
  }

  /** The minimising loop, symmetric to MaxLoopFailSoft with `beta` lowered to the running best. */
  lemma {:induction false} MinLoopFailSoft(b: Board, maxDepth: int, depth: int, turn: int, moves: seq<Move>, i: int,
                                           minScore: int, beta: int, acc: int, alpha: int, beta0: int)
    requires depth < maxDepth && 0 <= i <= |moves| && AllCandidates(b, turn, moves)
    requires -Infinity <= alpha < beta0 <= Infinity
    requires beta == Min(beta0, minScore) && alpha < beta
    requires beta0 <= acc ==> beta0 <= minScore <= acc
    requires acc < beta0 ==> minScore == acc
    ensures FailSoft(MinLoop(b, maxDepth, depth, turn, moves, i, minScore, alpha, beta),
                     MinValue(b, maxDepth, depth, turn, moves, i, acc), alpha, beta0)
    decreases maxDepth - depth, 0, |moves| - i
  {
    if i < |moves| {
      var child := MakeMove(b, turn, moves[i]);
      MinimaxFailSoft(child, maxDepth, depth + 1, Player2, alpha, beta);
      var v := MinimaxValue(child, maxDepth, depth + 1, Player2);
      var score := Minimax(child, maxDepth, depth + 1, Player2, alpha, beta);
      var minScore' := if score < minScore then score else minScore;
      var beta' := if minScore' < beta then minScore' else beta;
      MinStep(alpha, beta0, beta, minScore, acc, score, v,
              MinValue(b, maxDepth, depth, turn, moves, i + 1, Min(acc, v)));
      if alpha < beta' {
        MinLoopFailSoft(b, maxDepth, depth, turn, moves, i + 1, minScore', beta', Min(acc, v), alpha, beta0);
      }
    }
  }

  /**
    Called with the full window (-9999, 9999), as the root search does, the
    pruned search returns exactly the unpruned minimax value.
  */
  lemma AlphaBetaMatchesMinimax(b: Board, maxDepth: int, depth: int, turn: int)
    requires depth <= maxDepth && WithinPieceLimit(b)
    ensures Minimax(b, maxDepth, depth, turn, -Infinity, Infinity) == MinimaxValue(b, maxDepth, depth, turn)
  {
    MinimaxFailSoft(b, maxDepth, depth, turn, -Infinity, Infinity);
  }
}

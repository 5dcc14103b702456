/**
  The root of the opponent's search in checkers_2.c: getBestMoveForOpponent
  (one worker's contiguous slice of root moves and its local best) and the
  arg-max over the workers' gathered scores in main. Workers are simulated one
  after the other; the collective communication itself is not modelled.
*/
module Coordinator {
  import opened Wrappers
  import opened BoardState
  import opened RulesEngine
  import opened MoveGeneration
  import opened SearchEngine

  // ---------------------------------------------------------------------
  // Partition of the root moves

  /** startIndex: every rank gets numMoves / numProcesses moves, the first `remainder` ranks one more. */
  function SliceStart(numMoves: int, numProcesses: int, rank: int): int
    requires 0 <= numMoves && 0 < numProcesses
  {
    var movesPerProcess := numMoves / numProcesses;
    var remainder := numMoves % numProcesses;
    rank * movesPerProcess + (if rank < remainder then rank else remainder)
  }

  /** endIndex (exclusive). */
  function SliceEnd(numMoves: int, numProcesses: int, rank: int): int
    requires 0 <= numMoves && 0 < numProcesses
  {
    var movesPerProcess := numMoves / numProcesses;
    var remainder := numMoves % numProcesses;
    SliceStart(numMoves, numProcesses, rank) + movesPerProcess + (if rank < remainder then 1 else 0)
  }

  /** Consecutive slices abut: a rank's slice ends where the next one starts. */
  lemma SlicesAbut(numMoves: int, numProcesses: int, rank: int)
    requires 0 <= numMoves && 0 < numProcesses && 0 <= rank
    ensures SliceEnd(numMoves, numProcesses, rank) == SliceStart(numMoves, numProcesses, rank + 1)
  {
    var q := numMoves / numProcesses;
    assert (rank + 1) * q == rank * q + q;
  }

  lemma {:induction false} SliceStartMonotone(numMoves: int, numProcesses: int, r1: int, r2: int)
    requires 0 <= numMoves && 0 < numProcesses && 0 <= r1 <= r2
    ensures SliceStart(numMoves, numProcesses, r1) <= SliceStart(numMoves, numProcesses, r2)
    decreases r2 - r1
  {
    if r1 < r2 {
      SlicesAbut(numMoves, numProcesses, r1);
      SliceStartMonotone(numMoves, numProcesses, r1 + 1, r2);
    }
  }

  /**
    The slices of ranks 0..numProcesses-1 run from 0 to numMoves without gaps,
    each within [0, numMoves], of size numMoves / numProcesses or one more, and
    a rank at or beyond numMoves gets an empty slice.
  */
  lemma PartitionShape(numMoves: int, numProcesses: int, rank: int)
    requires 0 <= numMoves && 0 < numProcesses && 0 <= rank < numProcesses
    ensures 0 <= SliceStart(numMoves, numProcesses, rank) <= SliceEnd(numMoves, numProcesses, rank) <= numMoves
    ensures rank == 0 ==> SliceStart(numMoves, numProcesses, rank) == 0
    ensures rank == numProcesses - 1 ==> SliceEnd(numMoves, numProcesses, rank) == numMoves
    ensures var size := SliceEnd(numMoves, numProcesses, rank) - SliceStart(numMoves, numProcesses, rank);
            size == numMoves / numProcesses || size == numMoves / numProcesses + 1
    ensures rank >= numMoves ==> SliceStart(numMoves, numProcesses, rank) == SliceEnd(numMoves, numProcesses, rank)
  {
    SliceStartAtEnd(numMoves, numProcesses);
    SlicesAbut(numMoves, numProcesses, rank);
    SliceStartMonotone(numMoves, numProcesses, 0, rank);
    SliceStartMonotone(numMoves, numProcesses, rank + 1, numProcesses);
    if rank >= numMoves {
      FewMovesNoQuotient(numMoves, numProcesses);
    }
  }

  /** Past the last rank the start index is numMoves itself. */
  lemma SliceStartAtEnd(numMoves: int, numProcesses: int)
    requires 0 <= numMoves && 0 < numProcesses
    ensures SliceStart(numMoves, numProcesses, numProcesses) == numMoves
  {
    var q := numMoves / numProcesses;
    assert numMoves == numProcesses * q + numMoves % numProcesses;
  }

  lemma FewMovesNoQuotient(numMoves: int, numProcesses: int)
    requires 0 <= numMoves < numProcesses
    ensures numMoves / numProcesses == 0 && numMoves % numProcesses == numMoves
  {
  }

  /** Slice sizes of any two ranks differ by at most one. */
  lemma SlicesBalanced(numMoves: int, numProcesses: int, r1: int, r2: int)
    requires 0 <= numMoves && 0 < numProcesses && 0 <= r1 < numProcesses && 0 <= r2 < numProcesses
    ensures var size1 := SliceEnd(numMoves, numProcesses, r1) - SliceStart(numMoves, numProcesses, r1);
            var size2 := SliceEnd(numMoves, numProcesses, r2) - SliceStart(numMoves, numProcesses, r2);
            -1 <= size1 - size2 <= 1
  {
    PartitionShape(numMoves, numProcesses, r1);
    PartitionShape(numMoves, numProcesses, r2);
  }

  /** Slices of different ranks do not overlap: a lower rank's slice ends before a higher one's starts. */
  lemma SlicesOrdered(numMoves: int, numProcesses: int, r1: int, r2: int)
    requires 0 <= numMoves && 0 < numProcesses && 0 <= r1 < r2
    ensures SliceEnd(numMoves, numProcesses, r1) <= SliceStart(numMoves, numProcesses, r2)
  {
    SlicesAbut(numMoves, numProcesses, r1);
    SliceStartMonotone(numMoves, numProcesses, r1 + 1, r2);
  }

  lemma {:induction false} SlicesCoverFrom(numMoves: int, numProcesses: int, i: int, rank: int)
    requires 0 <= numMoves && 0 < numProcesses && 0 <= rank < numProcesses
    requires SliceStart(numMoves, numProcesses, rank) <= i < numMoves
    ensures exists r :: (rank <= r < numProcesses
      && SliceStart(numMoves, numProcesses, r) <= i < SliceEnd(numMoves, numProcesses, r))
    decreases numProcesses - rank
  {
    if SliceEnd(numMoves, numProcesses, rank) <= i {
      PartitionShape(numMoves, numProcesses, rank);
      SlicesAbut(numMoves, numProcesses, rank);
      SlicesCoverFrom(numMoves, numProcesses, i, rank + 1);
    }
  }

  /** Every root move index lies in the slice of some rank. */
  lemma SlicesCover(numMoves: int, numProcesses: int, i: int)
    requires 0 <= numMoves && 0 < numProcesses && 0 <= i < numMoves
    ensures exists r :: (0 <= r < numProcesses
      && SliceStart(numMoves, numProcesses, r) <= i < SliceEnd(numMoves, numProcesses, r))
  {
    PartitionShape(numMoves, numProcesses, 0);
    SlicesCoverFrom(numMoves, numProcesses, i, 0);
  }

  // ---------------------------------------------------------------------
  // Reductions

  /** `i` holds the largest score of s[lo..hi) and every earlier index of the range holds less. */
  ghost predicate IsEarliestMax(s: seq<int>, lo: int, hi: int, i: int)
  {
    && 0 <= lo <= i < hi <= |s|
    && (forall j :: lo <= j < hi ==> s[j] <= s[i])
    && (forall j :: lo <= j < i ==> s[j] < s[i])
  }

  /** No score of s[lo..hi) beats the -9999 starting value. */
  ghost predicate NoneAbove(s: seq<int>, lo: int, hi: int)
    requires 0 <= lo <= hi <= |s|
  {
    forall j :: lo <= j < hi ==> s[j] <= -Infinity
  }

  /** The outcome of the worker's loop over s[lo..hi): index -1 with -9999, or the earliest maximum. */
  ghost predicate IsSliceBest(s: seq<int>, lo: int, hi: int, index: int, best: int)
  {
    && 0 <= lo <= hi <= |s|
    && if index == -1 then best == -Infinity && NoneAbove(s, lo, hi)
       else IsEarliestMax(s, lo, hi, index) && best == s[index] && best > -Infinity
  }

  /** The outcome of main's loop: the earliest maximum, or 0 when nothing beats -9999. */
  ghost predicate IsGlobalWinner(s: seq<int>, play: int)
  {
    if NoneAbove(s, 0, |s|) then play == 0 else IsEarliestMax(s, 0, |s|, play)
  }

  lemma EarliestMaxUnique(s: seq<int>, lo: int, hi: int, i: int, j: int)
    requires IsEarliestMax(s, lo, hi, i) && IsEarliestMax(s, lo, hi, j)
    ensures i == j
  {
    assert s[i] <= s[j] && s[j] <= s[i];
  }

  /** main's winner loop over the gathered scores (strict `<`, index 0 by default). */
  method GlobalWinner(scores: seq<int>) returns (play: int)
    ensures IsGlobalWinner(scores, play)
  {
    var bestScore := -Infinity;
    play := 0;
    for i := 0 to |scores|
      invariant if NoneAbove(scores, 0, i) then play == 0 && bestScore == -Infinity
                else IsEarliestMax(scores, 0, i, play) && bestScore == scores[play]
    {
      if bestScore < scores[i] {
        bestScore := scores[i];
        play := i;
      }
    }
  }

  /** Over a whole sequence the worker's reduction and main's reduction pick the same index. */
  lemma ReductionsAgree(s: seq<int>, index: int, best: int, play: int)
    requires IsSliceBest(s, 0, |s|, index, best) && IsGlobalWinner(s, play)
    ensures index == -1 ==> play == 0
    ensures index != -1 ==> play == index
  {
    if index != -1 {
      EarliestMaxUnique(s, 0, |s|, index, play);
    }
  }

  lemma {:induction false} EarliestMaxExists(s: seq<int>, lo: int, hi: int)
    requires 0 <= lo < hi <= |s|
    ensures exists i :: IsEarliestMax(s, lo, hi, i)
    decreases hi - lo
  {
    if lo + 1 < hi {
      EarliestMaxExists(s, lo + 1, hi);
      var i :| IsEarliestMax(s, lo + 1, hi, i);
      if s[lo] >= s[i] {
        assert IsEarliestMax(s, lo, hi, lo);
      } else {
        assert IsEarliestMax(s, lo, hi, i);
      }
    } else {
      assert IsEarliestMax(s, lo, hi, lo);
    }
  }

  /**
    The two-level reduction is the one-level one: taking the earliest maximum
    inside each rank's slice and then the earliest maximum over the ranks picks
    the earliest maximum of the whole score list, and index -1 when no score
    beats -9999.
  */
  lemma TwoLevelSelection(s: seq<int>, numProcesses: int, indices: seq<int>, bests: seq<int>, play: int)
    requires 0 < numProcesses && |indices| == numProcesses && |bests| == numProcesses
    requires forall r :: 0 <= r < numProcesses ==>
      IsSliceBest(s, SliceStart(|s|, numProcesses, r), SliceEnd(|s|, numProcesses, r), indices[r], bests[r])
    requires IsGlobalWinner(bests, play)
    ensures 0 <= play < numProcesses
    ensures NoneAbove(s, 0, |s|) ==> indices[play] == -1
    ensures !NoneAbove(s, 0, |s|) ==> IsEarliestMax(s, 0, |s|, indices[play])
  {
    var n := |s|;
    if NoneAbove(s, 0, n) {
      forall r | 0 <= r < numProcesses
        ensures indices[r] == -1 && bests[r] == -Infinity
      {
      }
      assert NoneAbove(bests, 0, numProcesses);
    } else {
      EarliestMaxExists(s, 0, n);
      var top :| IsEarliestMax(s, 0, n, top);
      var peak := s[top];
      assert peak > -Infinity;
      SlicesCover(n, numProcesses, top);
      var owner :| 0 <= owner < numProcesses
        && SliceStart(n, numProcesses, owner) <= top < SliceEnd(n, numProcesses, owner);
      var lo, hi := SliceStart(n, numProcesses, owner), SliceEnd(n, numProcesses, owner);
      assert indices[owner] != -1;
      assert IsEarliestMax(s, lo, hi, top);
      EarliestMaxUnique(s, lo, hi, indices[owner], top);
      forall r | 0 <= r < numProcesses
        ensures bests[r] <= peak
        ensures r < owner ==> bests[r] < peak
      {
        if r < owner && indices[r] != -1 {
          SlicesOrdered(n, numProcesses, r, owner);
        }
      }
      assert IsEarliestMax(bests, 0, numProcesses, owner);
      EarliestMaxUnique(bests, 0, numProcesses, owner, play);
    }
  }

  /** One iteration of the worker's loop (strict `>`) extends its local best by one index. */
  lemma SliceBestStep(s: seq<int>, lo: int, i: int, index: int, best: int)
    requires IsSliceBest(s, lo, i, index, best) && i < |s|
    ensures s[i] > best ==> IsSliceBest(s, lo, i + 1, i, s[i])
    ensures s[i] <= best ==> IsSliceBest(s, lo, i + 1, index, best)
  {
  }

  // ---------------------------------------------------------------------
  // The worker and the opponent's ply

  /** The score of a root move: minimax of the position after it, side 1 to move, full window. */
  function RootScore(b: Board, turn: int, maxDepth: int, m: Move): int
    requires 0 <= maxDepth && IsCandidate(b, turn, m)
  {
    Minimax(MakeMove(b, turn, m), maxDepth, 0, Player1, -Infinity, Infinity)
  }

  function RootScores(b: Board, turn: int, maxDepth: int, moves: seq<Move>): (scores: seq<int>)
    requires 0 <= maxDepth && AllCandidates(b, turn, moves)
    ensures |scores| == |moves|
    ensures forall i :: 0 <= i < |moves| ==> scores[i] == RootScore(b, turn, maxDepth, moves[i])
  {
    seq(|moves|, i requires 0 <= i < |moves| => RootScore(b, turn, maxDepth, moves[i]))
  }

  /**
    getBestMoveForOpponent for worker `rank`: the earliest best-scoring root
    move of its slice, or no move (and -9999) when its slice is empty or no
    score beats -9999.
  */
  method BestMoveForOpponent(b: Board, turn: int, maxDepth: int, rank: int, numProcesses: int)
      returns (choice: Option<Move>, bestIndex: int, bestScore: int)
    requires 0 <= maxDepth && 0 < numProcesses && 0 <= rank < numProcesses
    ensures var moves := GetPossibleMoves(b, turn);
      && IsSliceBest(RootScores(b, turn, maxDepth, moves),
                     SliceStart(|moves|, numProcesses, rank), SliceEnd(|moves|, numProcesses, rank),
                     bestIndex, bestScore)
      && choice == if bestIndex == -1 then None else Some(moves[bestIndex])
  {
    var moves := GetPossibleMoves(b, turn);
    var numMoves := |moves|;
    var startIndex := SliceStart(numMoves, numProcesses, rank);
    var endIndex := SliceEnd(numMoves, numProcesses, rank);
    PartitionShape(numMoves, numProcesses, rank);
    bestIndex, bestScore := SearchSlice(b, turn, maxDepth, moves, startIndex, endIndex);
    choice := if bestIndex == -1 then None else Some(moves[bestIndex]);
  }

  /** The worker's loop over moves[startIndex..endIndex): strict `>` keeps the earliest best. */
  method SearchSlice(b: Board, turn: int, maxDepth: int, moves: seq<Move>, startIndex: int, endIndex: int)
      returns (bestIndex: int, bestScore: int)
    requires 0 <= maxDepth && AllCandidates(b, turn, moves)
    requires 0 <= startIndex <= endIndex <= |moves|
    ensures IsSliceBest(RootScores(b, turn, maxDepth, moves), startIndex, endIndex, bestIndex, bestScore)
  {
    ghost var scores := RootScores(b, turn, maxDepth, moves);
    bestScore := -Infinity;
    bestIndex := -1;
    for i := startIndex to endIndex
      invariant IsSliceBest(scores, startIndex, i, bestIndex, bestScore)
    {
      var score := RootScore(b, turn, maxDepth, moves[i]);
      SliceBestStep(scores, startIndex, i, bestIndex, bestScore);
      if score > bestScore {
        bestScore := score;
        bestIndex := i;
      }
    }
  }

  /**
    The opponent's ply without the message passing: every rank searches its
    slice, the scores are gathered and main's loop picks the winning rank. The
    move chosen is the earliest best-scoring root move of the whole list, so
    it does not depend on the number of workers.
  */
  method OpponentMove(b: Board, turn: int, maxDepth: int, numProcesses: int)
      returns (play: int, choice: Option<Move>)
    requires 0 <= maxDepth && 0 < numProcesses
    ensures 0 <= play < numProcesses
    ensures var moves := GetPossibleMoves(b, turn);
            var scores := RootScores(b, turn, maxDepth, moves);
      && (NoneAbove(scores, 0, |scores|) ==> choice == None)
      && (!NoneAbove(scores, 0, |scores|) ==>
            exists j :: IsEarliestMax(scores, 0, |scores|, j) && choice == Some(moves[j]))
  {
    var moves := GetPossibleMoves(b, turn);
    play, choice := SelectAcrossWorkers(b, turn, maxDepth, moves, numProcesses);
  }

  /** The gather and the winner loop over a fixed list of root moves. */
  method SelectAcrossWorkers(b: Board, turn: int, maxDepth: int, moves: seq<Move>, numProcesses: int)
      returns (play: int, choice: Option<Move>)
    requires 0 <= maxDepth && 0 < numProcesses && AllCandidates(b, turn, moves)
    ensures 0 <= play < numProcesses
    ensures var scores := RootScores(b, turn, maxDepth, moves);
      && (NoneAbove(scores, 0, |scores|) ==> choice == None)
      && (!NoneAbove(scores, 0, |scores|) ==>
            exists j :: IsEarliestMax(scores, 0, |scores|, j) && choice == Some(moves[j]))
  {
    ghost var scores := RootScores(b, turn, maxDepth, moves);
    var gathered: seq<int> := [];
    ghost var indices: seq<int> := [];
    var choices: seq<Option<Move>> := [];
    for rank := 0 to numProcesses
      invariant |gathered| == rank && |indices| == rank && |choices| == rank
      invariant forall r :: 0 <= r < rank ==>
        && IsSliceBest(scores, SliceStart(|moves|, numProcesses, r), SliceEnd(|moves|, numProcesses, r),
                       indices[r], gathered[r])
        && choices[r] == if indices[r] == -1 then None else Some(moves[indices[r]])
    {
      PartitionShape(|moves|, numProcesses, rank);
      var index, score := SearchSlice(b, turn, maxDepth, moves,
                                      SliceStart(|moves|, numProcesses, rank), SliceEnd(|moves|, numProcesses, rank));
      var c := if index == -1 then None else Some(moves[index]);
      gathered := gathered + [score];
      indices := indices + [index];
      choices := choices + [c];
    }
    play := GlobalWinner(gathered);
    TwoLevelSelection(scores, numProcesses, indices, gathered, play);
    choice := choices[play];
  }
}

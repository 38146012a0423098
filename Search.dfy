/** The opponent King's reply (the state part of `system_move`): the
    heuristic `evaluate_state`, the depth-limited `minimax` with alpha-beta
    pruning, and the root loop that picks the first strictly best neighbour.

    All evaluations are doubled so that they are integers: 2000 on the human
    King's cell, -1000 on the Boat's cell, otherwise -(2 * d_uk + d_ub). The
    search only moves the opponent King; the human pieces stay where they are
    throughout. */
module Search {
  import opened Board
  import opened ExtInt
  import opened Rules

  /** Depth of the search below each root candidate. */
  const SEARCH_DEPTH: nat := 3

  // ---------------------------------------------------------------------
  // Heuristic

  /** `evaluate_state`, doubled: exactly twice the engine's real-valued
      score. */
  function Evaluate(p: Pos, uk: Pos, ub: Pos): (e: int)
    ensures e as real == 2.0 * SourceHeuristic(p, uk, ub)
  {
    if p == uk then 2000
    else if p == ub then -1000
    else -(2 * Manhattan(p, uk) + Manhattan(p, ub))
  }

  /** `evaluate_state` with its 0.5 weight, as the engine computes it. */
  ghost function SourceHeuristic(p: Pos, uk: Pos, ub: Pos): real {
    if p == uk then 1000.0
    else if p == ub then -500.0
    else -((Manhattan(p, uk) as real) + 0.5 * (Manhattan(p, ub) as real))
  }

  /** Doubling is exact and keeps every comparison the search makes. */
  lemma EvaluateIsDoubled(p: Pos, q: Pos, uk: Pos, ub: Pos)
    ensures Evaluate(p, uk, ub) as real == 2.0 * SourceHeuristic(p, uk, ub)
    ensures Evaluate(p, uk, ub) <= Evaluate(q, uk, ub) <==>
              SourceHeuristic(p, uk, ub) <= SourceHeuristic(q, uk, ub)
  {
  }

  /** The human King's cell is the unique best cell, every other cell scores
      below zero, and on the board the scores stay within [-1000, 2000]; an
      ordinary cell scores between -42 and -3. */
  lemma EvaluateRange(p: Pos, uk: Pos, ub: Pos)
    ensures Evaluate(p, uk, ub) == 2000 <==> p == uk
    ensures p != uk ==> Evaluate(p, uk, ub) < 0
    ensures p != uk && p == ub ==> Evaluate(p, uk, ub) == -1000
    ensures InBounds(p) && InBounds(uk) && InBounds(ub) && p != uk && p != ub ==>
              -42 <= Evaluate(p, uk, ub) <= -3
  {
  }

  /** Closer is better: a cell no farther from either human piece scores at
      least as well. */
  lemma CloserIsBetter(p: Pos, q: Pos, uk: Pos, ub: Pos)
    requires p != uk && p != ub && q != uk && q != ub
    requires Manhattan(p, uk) <= Manhattan(q, uk) && Manhattan(p, ub) <= Manhattan(q, ub)
    ensures Evaluate(q, uk, ub) <= Evaluate(p, uk, ub)
  {
  }

  // ---------------------------------------------------------------------
  // Unpruned minimax: the reference the pruned search is proved against

  /** The minimax value of the opponent King standing on `p` with `depth`
      plies to go. A node is terminal at depth 0 or on the human King's cell;
      otherwise its value is the maximum (or minimum) over the allowed
      neighbours, -infinity (+infinity) when there are none. */
  function Value(p: Pos, depth: nat, maximizing: bool, uk: Pos, ub: Pos): Ext
    decreases depth, 0, 0
  {
    if depth == 0 || p == uk then Fin(Evaluate(p, uk, ub))
    else Fold(p, 8, depth - 1, maximizing, uk, ub)
  }

  /** Maximum (or minimum) of the children's values over the first `k`
      directions, skipping cells that are not allowed. */
  function Fold(p: Pos, k: nat, d: nat, maximizing: bool, uk: Pos, ub: Pos): Ext
    requires k <= 8
    decreases d, 1, k
  {
    if k == 0 then (if maximizing then NegInf else PosInf)
    else
      var acc := Fold(p, k - 1, d, maximizing, uk, ub);
      var q := Step(p, k - 1);
      if !Allowed(q, ub) then acc
      else if maximizing then Max(acc, Value(q, d, false, uk, ub))
      else Min(acc, Value(q, d, true, uk, ub))
  }

  /** A maximizing fold is at least every allowed child's value. */
  lemma {:induction false} FoldMaxAbove(p: Pos, k: nat, d: nat, uk: Pos, ub: Pos, j: nat)
    requires j < k <= 8 && Allowed(Step(p, j), ub)
    ensures Le(Value(Step(p, j), d, false, uk, ub), Fold(p, k, d, true, uk, ub))
  {
    if j < k - 1 {
      FoldMaxAbove(p, k - 1, d, uk, ub, j);
      var acc := Fold(p, k - 1, d, true, uk, ub);
      LeTotalOrder(Value(Step(p, j), d, false, uk, ub), acc, Fold(p, k, d, true, uk, ub));
    }
  }

  /** A minimizing fold is at most every allowed child's value. */
  lemma {:induction false} FoldMinBelow(p: Pos, k: nat, d: nat, uk: Pos, ub: Pos, j: nat)
    requires j < k <= 8 && Allowed(Step(p, j), ub)
    ensures Le(Fold(p, k, d, false, uk, ub), Value(Step(p, j), d, true, uk, ub))
  {
    if j < k - 1 {
      FoldMinBelow(p, k - 1, d, uk, ub, j);
      var acc := Fold(p, k - 1, d, false, uk, ub);
      LeTotalOrder(Fold(p, k, d, false, uk, ub), acc, Value(Step(p, j), d, true, uk, ub));
    }
  }

  /** On the board the search never yields an infinity: every cell has an
      allowed neighbour, and every leaf is a finite evaluation. */
  lemma {:induction false} ValueFinite(p: Pos, depth: nat, maximizing: bool, uk: Pos, ub: Pos)
    requires InBounds(p)
    ensures Value(p, depth, maximizing, uk, ub).Fin?
    decreases depth, 0, 0
  {
    if depth != 0 && p != uk {
      AllowedNeighbourExists(p, ub);
      FoldFinite(p, 8, depth - 1, maximizing, uk, ub);
    }
  }

  /** A fold is its starting infinity until it meets an allowed child, and
      finite from then on. */
  lemma {:induction false} FoldFinite(p: Pos, k: nat, d: nat, maximizing: bool, uk: Pos, ub: Pos)
    requires k <= 8
    ensures var f := Fold(p, k, d, maximizing, uk, ub);
            f.Fin? || f == (if maximizing then NegInf else PosInf)
    ensures (exists j :: 0 <= j < k && Allowed(Step(p, j), ub)) ==>
              Fold(p, k, d, maximizing, uk, ub).Fin?
    decreases d, 1, k
  {
    if k > 0 {
      FoldFinite(p, k - 1, d, maximizing, uk, ub);
      var q := Step(p, k - 1);
      if Allowed(q, ub) {
        ValueFinite(q, d, !maximizing, uk, ub);
      } else if exists j :: 0 <= j < k && Allowed(Step(p, j), ub) {
        var j :| 0 <= j < k && Allowed(Step(p, j), ub);
        assert j < k - 1;
      }
    }
  }

  // ---------------------------------------------------------------------
  // Alpha-beta pruning

  /** The fail-soft relation between what a pruned search returns (`r`) and
      the true value (`m`) for the window (alpha, beta): a result at or below
      alpha bounds the value from above, a result at or above beta bounds it
      from below, and a result inside the window is exact. */
  predicate FailSoft(r: Ext, m: Ext, alpha: Ext, beta: Ext) {
    && (Le(r, alpha) ==> Le(m, r))
    && (Lt(alpha, r) && Lt(r, beta) ==> r == m)
    && (Le(beta, r) ==> Le(r, m))
  }

  /** With the full window (-infinity, +infinity) the result is exact. */
  lemma FullWindowExact(r: Ext, m: Ext)
    requires FailSoft(r, m, NegInf, PosInf)
    ensures r == m
  {
  }

  /** One child of a maximizing node: `best` is the running maximum of the
      pruned results, `acc` the true maximum over the same children, `r` the
      pruned result and `v` the true value of the next child, searched with
      the window (max(alpha, best), beta). */
  lemma MaxStep(alpha: Ext, beta: Ext, best: Ext, acc: Ext, r: Ext, v: Ext)
    requires Lt(Max(alpha, best), beta)
    requires Le(best, alpha) ==> Le(acc, best)
    requires Lt(alpha, best) ==> best == acc
    requires FailSoft(r, v, Max(alpha, best), beta)
    ensures Max(Max(alpha, best), r) == Max(alpha, Max(best, r))
    ensures Lt(Max(alpha, Max(best, r)), beta) ==>
              (Le(Max(best, r), alpha) ==> Le(Max(acc, v), Max(best, r))) &&
              (Lt(alpha, Max(best, r)) ==> Max(best, r) == Max(acc, v))
    ensures Le(beta, Max(alpha, Max(best, r))) ==>
              Lt(alpha, beta) && Le(beta, Max(best, r)) && Le(Max(best, r), v)
  {
  }

  /** One child of a minimizing node, the mirror image of `MaxStep`. */
  lemma MinStep(alpha: Ext, beta: Ext, best: Ext, acc: Ext, r: Ext, v: Ext)
    requires Lt(alpha, Min(beta, best))
    requires Le(beta, best) ==> Le(best, acc)
    requires Lt(best, beta) ==> best == acc
    requires FailSoft(r, v, alpha, Min(beta, best))
    ensures Min(Min(beta, best), r) == Min(beta, Min(best, r))
    ensures Lt(alpha, Min(beta, Min(best, r))) ==>
              (Le(beta, Min(best, r)) ==> Le(Min(best, r), Min(acc, v))) &&
              (Lt(Min(best, r), beta) ==> Min(best, r) == Min(acc, v))
    ensures Le(Min(beta, Min(best, r)), alpha) ==>
              Lt(alpha, beta) && Le(Min(best, r), alpha) && Le(v, Min(best, r))
  {
  }

  /** `minimax`: the pruned search. A node is terminal at depth 0 or on the
      human King's cell; otherwise it enumerates the eight directions, skips
      cells off the board or on the Boat, recurses with the current window
      and stops at the first cut-off. Its result is fail-soft with respect to
      the unpruned value. The two branches of the source's loop are the
      methods `MaxNode` and `MinNode`. */
  method AlphaBeta(p: Pos, depth: nat, alpha: Ext, beta: Ext, maximizing: bool, uk: Pos, ub: Pos)
    returns (r: Ext)
    requires Lt(alpha, beta)
    ensures FailSoft(r, Value(p, depth, maximizing, uk, ub), alpha, beta)
    decreases depth, 1
  {
    if depth == 0 || p == uk {
      r := Fin(Evaluate(p, uk, ub));
    } else if maximizing {
      r := MaxNode(p, depth, alpha, beta, uk, ub);
    } else {
      r := MinNode(p, depth, alpha, beta, uk, ub);
    }
  }

  /** The maximizing branch of `minimax`: raise alpha with each result and
      cut off once beta <= alpha. */
  method MaxNode(p: Pos, depth: nat, alpha: Ext, beta: Ext, uk: Pos, ub: Pos) returns (r: Ext)
    requires depth > 0 && p != uk && Lt(alpha, beta)
    ensures FailSoft(r, Fold(p, 8, depth - 1, true, uk, ub), alpha, beta)
    decreases depth, 0
  {
    var maxEval := NegInf;
    var a := alpha;
    var i := 0;
    while i < 8
      invariant 0 <= i <= 8
      invariant a == Max(alpha, maxEval)
      invariant Lt(a, beta)
      invariant Le(maxEval, alpha) ==> Le(Fold(p, i, depth - 1, true, uk, ub), maxEval)
      invariant Lt(alpha, maxEval) ==> maxEval == Fold(p, i, depth - 1, true, uk, ub)
    {
      var q := Step(p, i);
      if Allowed(q, ub) {
        var v := AlphaBeta(q, depth - 1, a, beta, false, uk, ub);
        MaxStep(alpha, beta, maxEval, Fold(p, i, depth - 1, true, uk, ub), v,
                Value(q, depth - 1, false, uk, ub));
        maxEval := Max(maxEval, v);
        a := Max(a, v);
        if Le(beta, a) {
          FoldMaxAbove(p, 8, depth - 1, uk, ub, i);
          break;
        }
      }
      i := i + 1;
    }
    r := maxEval;
  }

  /** The minimizing branch of `minimax`: lower beta with each result and
      cut off once beta <= alpha. */
  method MinNode(p: Pos, depth: nat, alpha: Ext, beta: Ext, uk: Pos, ub: Pos) returns (r: Ext)
    requires depth > 0 && p != uk && Lt(alpha, beta)
    ensures FailSoft(r, Fold(p, 8, depth - 1, false, uk, ub), alpha, beta)
    decreases depth, 0
  {
    var minEval := PosInf;
    var b := beta;
    var i := 0;
    while i < 8
      invariant 0 <= i <= 8
      invariant b == Min(beta, minEval)
      invariant Lt(alpha, b)
      invariant Le(beta, minEval) ==> Le(minEval, Fold(p, i, depth - 1, false, uk, ub))
      invariant Lt(minEval, beta) ==> minEval == Fold(p, i, depth - 1, false, uk, ub)
    {
      var q := Step(p, i);
      if Allowed(q, ub) {
        var v := AlphaBeta(q, depth - 1, alpha, b, true, uk, ub);
        MinStep(alpha, beta, minEval, Fold(p, i, depth - 1, false, uk, ub), v,
                Value(q, depth - 1, true, uk, ub));
        minEval := Min(minEval, v);
        b := Min(b, v);
        if Le(b, alpha) {
          FoldMinBelow(p, 8, depth - 1, uk, ub, i);
          break;
        }
      }
      i := i + 1;
    }
    r := minEval;
  }

  /** Alpha-beta soundness: searched with the window (-infinity, +infinity),
      as every root candidate is, the pruned search returns exactly the
      unpruned minimax value. */
  method SearchCandidate(q: Pos, uk: Pos, ub: Pos) returns (score: Ext)
    ensures score == Value(q, SEARCH_DEPTH, true, uk, ub)
  {
    score := AlphaBeta(q, SEARCH_DEPTH, NegInf, PosInf, true, uk, ub);
    FullWindowExact(score, Value(q, SEARCH_DEPTH, true, uk, ub));
  }

  // ---------------------------------------------------------------------
  // Root selection

  /** The minimax values of the eight root candidates, in direction order. */
  function CandidateScores(sk: Pos, uk: Pos, ub: Pos): seq<Ext> {
    seq(8, i requires 0 <= i < 8 => Value(Step(sk, i), SEARCH_DEPTH, true, uk, ub))
  }

  /** The root loop over the first `k` directions, given the candidates'
      scores: the best score so far (starting at -infinity) and its move
      (starting at the King's own cell), replaced only by a strictly better
      allowed candidate. */
  function BestPrefix(sk: Pos, ub: Pos, scores: seq<Ext>, k: nat): (Ext, Pos)
    requires k <= 8 <= |scores|
  {
    if k == 0 then (NegInf, sk)
    else
      var prev := BestPrefix(sk, ub, scores, k - 1);
      var q := Step(sk, k - 1);
      if Allowed(q, ub) && Lt(prev.0, scores[k - 1]) then (scores[k - 1], q) else prev
  }

  /** The root loop only ever keeps the King's own cell or an allowed
      neighbour. */
  lemma {:induction false} BestPrefixMove(sk: Pos, ub: Pos, scores: seq<Ext>, k: nat)
    requires k <= 8 <= |scores|
    ensures var m := BestPrefix(sk, ub, scores, k).1;
            m == sk || (Adjacent(sk, m) && Allowed(m, ub))
  {
    if k > 0 {
      BestPrefixMove(sk, ub, scores, k - 1);
    }
  }

  /** The cell the opponent King moves to when it cannot capture. */
  function ReplyTarget(sk: Pos, uk: Pos, ub: Pos): Pos {
    BestPrefix(sk, ub, CandidateScores(sk, uk, ub), 8).1
  }

  /** Direction `i` is an allowed candidate whose score is at least that of
      every allowed candidate among the first `k` directions and strictly
      above that of every earlier one. */
  ghost predicate FirstBest(sk: Pos, ub: Pos, scores: seq<Ext>, i: int, k: nat)
    requires k <= 8 <= |scores|
  {
    && 0 <= i < k
    && Allowed(Step(sk, i), ub)
    && (forall j :: 0 <= j < k && Allowed(Step(sk, j), ub) ==> Le(scores[j], scores[i]))
    && (forall j :: 0 <= j < i && Allowed(Step(sk, j), ub) ==> Lt(scores[j], scores[i]))
  }

  /** The direction the root loop has chosen after `k` directions, or -1. */
  ghost function BestIndex(sk: Pos, ub: Pos, scores: seq<Ext>, k: nat): (i: int)
    requires k <= 8 <= |scores|
    ensures -1 <= i < k
  {
    if k == 0 then -1
    else
      var prev := BestIndex(sk, ub, scores, k - 1);
      var prevScore := if prev < 0 then NegInf else scores[prev];
      if Allowed(Step(sk, k - 1), ub) && Lt(prevScore, scores[k - 1]) then k - 1 else prev
  }

  /** What the root loop keeps after `k` directions: either nothing has been
      chosen and no allowed candidate so far beats -infinity, or the choice is
      the first strictly best candidate so far, with its score. */
  lemma {:induction false} BestPrefixSpec(sk: Pos, ub: Pos, scores: seq<Ext>, k: nat)
    requires k <= 8 <= |scores|
    ensures var i := BestIndex(sk, ub, scores, k);
            && BestPrefix(sk, ub, scores, k) ==
                 (if i < 0 then (NegInf, sk) else (scores[i], Step(sk, i)))
            && (i < 0 ==> forall j :: 0 <= j < k && Allowed(Step(sk, j), ub) ==> scores[j] == NegInf)
            && (i >= 0 ==> FirstBest(sk, ub, scores, i, k))
  {
    if k > 0 {
      BestPrefixSpec(sk, ub, scores, k - 1);
      var prev := BestIndex(sk, ub, scores, k - 1);
      var score := if prev < 0 then NegInf else scores[prev];
      if Allowed(Step(sk, k - 1), ub) && Lt(score, scores[k - 1]) {
        forall j | 0 <= j < k && Allowed(Step(sk, j), ub)
          ensures Le(scores[j], scores[k - 1])
        {
          if j < k - 1 && prev >= 0 {
            LeTotalOrder(scores[j], score, scores[k - 1]);
          }
        }
        assert FirstBest(sk, ub, scores, k - 1, k);
      } else if prev >= 0 {
        assert FirstBest(sk, ub, scores, prev, k);
      }
    }
  }

  /** The non-capturing reply: with no allowed neighbour the King stays put;
      otherwise it moves to the earliest allowed neighbour of maximal
      minimax value, so a King on the board always moves. */
  lemma ReplyTargetSpec(sk: Pos, uk: Pos, ub: Pos)
    ensures (forall i :: 0 <= i < 8 ==> !Allowed(Step(sk, i), ub)) ==>
              ReplyTarget(sk, uk, ub) == sk
    ensures (exists i :: 0 <= i < 8 && Allowed(Step(sk, i), ub)) ==>
              exists i :: FirstBest(sk, ub, CandidateScores(sk, uk, ub), i, 8) &&
                          ReplyTarget(sk, uk, ub) == Step(sk, i)
    ensures InBounds(sk) ==> ReplyTarget(sk, uk, ub) != sk
  {
    var scores := CandidateScores(sk, uk, ub);
    BestPrefixSpec(sk, ub, scores, 8);
    if exists i :: 0 <= i < 8 && Allowed(Step(sk, i), ub) {
      var i :| 0 <= i < 8 && Allowed(Step(sk, i), ub);
      ValueFinite(Step(sk, i), SEARCH_DEPTH, true, uk, ub);
      assert scores[i].Fin?;
    }
    if InBounds(sk) {
      AllowedNeighbourExists(sk, ub);
    }
  }

  /** The root loop of `system_move`, searching each allowed neighbour with a
      fresh full window and keeping the first strictly best. */
  method BestReply(sk: Pos, uk: Pos, ub: Pos) returns (best: Pos)
    ensures best == ReplyTarget(sk, uk, ub)
  {
    ghost var scores := CandidateScores(sk, uk, ub);
    var bestScore := NegInf;
    best := sk;
    var i := 0;
    while i < 8
      invariant 0 <= i <= 8
      invariant (bestScore, best) == BestPrefix(sk, ub, scores, i)
    {
      var q := Step(sk, i);
      if Allowed(q, ub) {
        var score := SearchCandidate(q, uk, ub);
        assert score == scores[i];
        if Lt(bestScore, score) {
          bestScore := score;
          best := q;
        }
      }
      i := i + 1;
    }
  }

  /** The first loop of `system_move`: is the human King on one of the
      opponent King's eight neighbours? No bounds check is made, so a
      captured King's sentinel cell counts too. */
  method KingInReach(sk: Pos, uk: Pos) returns (found: bool)
    ensures found <==> Adjacent(sk, uk)
  {
    var i := 0;
    while i < 8
      invariant 0 <= i <= 8
      invariant forall j :: 0 <= j < i ==> Step(sk, j) != uk
    {
      if Step(sk, i) == uk {
        return true;
      }
      i := i + 1;
    }
    AdjacentIffStep(sk, uk);
    return false;
  }

  // ---------------------------------------------------------------------
  // The reply as a state change

  /** The state change of `system_move`: capture an adjacent human King at
      once (cost LOSS_PENALTY, the King becomes the sentinel), otherwise move
      to the search's choice. */
  function SystemReply(s: GameState): (t: GameState)
    ensures t.ub == s.ub && |t.history| == |s.history| + 1
    ensures Chebyshev(s.sk, t.sk) <= 1
    ensures Adjacent(s.sk, s.uk) ==>
              t.sk == s.uk && t.uk == CAPTURED && t.points == s.points - LOSS_PENALTY
    ensures !Adjacent(s.sk, s.uk) ==>
              t.uk == s.uk && t.points == s.points && (t.sk == s.sk || Allowed(t.sk, s.ub))
  {
    if Adjacent(s.sk, s.uk) then
      s.(sk := s.uk, uk := CAPTURED, points := s.points - LOSS_PENALTY,
         history := s.history + [SystemKilled(s.uk)])
    else
      var dest := ReplyTarget(s.sk, s.uk, s.ub);
      BestPrefixMove(s.sk, s.ub, CandidateScores(s.sk, s.uk, s.ub), 8);
      s.(sk := dest, history := s.history + [SystemMoved(dest)])
  }

  /** Immediate capture: with the human King in reach, the opponent takes its
      cell, the points drop by exactly 100 and the human King is captured,
      whatever the heuristic says. */
  lemma ImmediateCapture(s: GameState)
    requires exists i :: 0 <= i < 8 && Step(s.sk, i) == s.uk
    ensures var t := SystemReply(s);
            && t.sk == s.uk && t.uk == CAPTURED && t.ub == s.ub
            && t.points == s.points - 100
            && t.history == s.history + [SystemKilled(s.uk)]
  {
    var i :| 0 <= i < 8 && Step(s.sk, i) == s.uk;
    assert Adjacent(s.sk, s.uk);
  }

  /** The non-capturing reply changes only the opponent King's cell and the
      history; the new cell is an allowed neighbour of maximal value, the
      earliest such in direction order, and the King stays only when there
      is no allowed neighbour. */
  lemma QuietReply(s: GameState)
    requires forall i :: 0 <= i < 8 ==> Step(s.sk, i) != s.uk
    ensures var t := SystemReply(s);
            && t.uk == s.uk && t.ub == s.ub && t.points == s.points
            && t.history == s.history + [SystemMoved(t.sk)]
            && ((forall i :: 0 <= i < 8 ==> !Allowed(Step(s.sk, i), s.ub)) ==> t.sk == s.sk)
            && ((exists i :: 0 <= i < 8 && Allowed(Step(s.sk, i), s.ub)) ==>
                  exists i :: FirstBest(s.sk, s.ub, CandidateScores(s.sk, s.uk, s.ub), i, 8) &&
                              t.sk == Step(s.sk, i))
  {
    AdjacentIffStep(s.sk, s.uk);
    ReplyTargetSpec(s.sk, s.uk, s.ub);
  }

  /** The reply keeps the board invariant: the opponent never lands on the
      Boat, and lands on the human King's cell only by capturing it. */
  lemma SystemReplyPreservesWellFormed(s: GameState)
    requires WellFormed(s)
    ensures WellFormed(SystemReply(s))
  {
    if !Adjacent(s.sk, s.uk) {
      ReplyTargetSpec(s.sk, s.uk, s.ub);
    }
  }

  /** The sentinel is compared like a cell: once the human King is captured,
      an opponent King on the board reaches (-1, -1) exactly when it stands
      on (0, 0). It then "captures" again, leaves the board and costs another
      100 points; from any other cell it makes an ordinary move. */
  lemma CapturedKingRecaptured(s: GameState)
    requires s.uk == CAPTURED && InBounds(s.sk)
    ensures SystemReply(s).sk == CAPTURED <==> s.sk == Pos(0, 0)
    ensures s.sk == Pos(0, 0) ==> SystemReply(s).points == s.points - 100
  {
  }
}

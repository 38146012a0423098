/** The game state the engine snapshots, the legality of a human move and
    the state change a human move makes (the state part of `valid_move`
    and `move_piece` in the Game class). */
module Rules {
  import opened Board

  /** The two pieces the human controls. */
  datatype Kind = King | Boat

  /** One line of the move history, as an abstract record. */
  datatype Entry =
    | HumanMoved(piece: Kind, from: Pos, to: Pos)
    | HumanCaptured(piece: Kind, at: Pos)
    | SystemMoved(to: Pos)
    | SystemKilled(at: Pos)

  /** Everything a snapshot copies: the three positions, the points and the
      history. */
  datatype GameState = GameState(uk: Pos, ub: Pos, sk: Pos, points: int, history: seq<Entry>)

  /** The state a new or restarted game begins in. */
  function Initial(): (s: GameState)
    ensures InBounds(s.uk) && InBounds(s.ub) && InBounds(s.sk)
  {
    GameState(Pos(7, 4), Pos(7, 0), Pos(0, 4), STARTING_POINTS, [])
  }

  function PosOf(s: GameState, kind: Kind): Pos {
    if kind == King then s.uk else s.ub
  }

  function Cost(kind: Kind): int {
    if kind == King then KING_COST else BOAT_COST
  }

  /** `x` lies strictly between `a` and `b`, in either order. */
  predicate Between(a: int, b: int, x: int) {
    a < x < b || b < x < a
  }

  /** A cell that stops the Boat: the human King's or the opponent King's. */
  predicate Blocks(s: GameState, q: Pos) {
    q == s.uk || q == s.sk
  }

  /** No cell strictly between `from` and `to` blocks the Boat; along the
      row when the rows agree, along the column otherwise. */
  ghost predicate PathClear(s: GameState, from: Pos, to: Pos) {
    if from.r == to.r then
      forall c :: Between(from.c, to.c, c) ==> !Blocks(s, Pos(from.r, c))
    else
      forall r :: Between(from.r, to.r, r) ==> !Blocks(s, Pos(r, from.c))
  }

  /** Whether the human piece `kind` may move to `target`. */
  ghost predicate IsLegal(s: GameState, kind: Kind, target: Pos) {
    && target != s.uk
    && target != s.ub
    && var from := PosOf(s, kind);
       match kind
       case King => Chebyshev(from, target) == 1
       case Boat => (from.r == target.r || from.c == target.c) && PathClear(s, from, target)
  }

  /** The state after a human move, and whether the opponent must reply. */
  datatype MoveResult = MoveResult(state: GameState, replyDue: bool)

  /** The state change of a human move; legality is the caller's concern. The
      cost is paid first; landing on the opponent King captures it and leaves
      the capturing piece where it was. */
  function HumanMove(s: GameState, kind: Kind, target: Pos): (m: MoveResult)
    ensures m.state.points == s.points - Cost(kind) + (if target == s.sk then KILL_REWARD else 0)
    ensures |m.state.history| == |s.history| + 1
    ensures m.state.sk == (if target == s.sk then CAPTURED else s.sk)
    ensures m.replyDue <==> target != s.sk && s.sk != CAPTURED
  {
    var paid := s.points - Cost(kind);
    if target == s.sk then
      MoveResult(s.(sk := CAPTURED, points := paid + KILL_REWARD,
                    history := s.history + [HumanCaptured(kind, target)]),
                 false)
    else
      var moved := if kind == King then s.(uk := target) else s.(ub := target);
      MoveResult(moved.(points := paid,
                        history := s.history + [HumanMoved(kind, PosOf(s, kind), target)]),
                 s.sk != CAPTURED)
  }

  /** The board invariant: the Boat is on the board, each King is on the
      board or captured, and no two pieces on the board share a cell. */
  predicate WellFormed(s: GameState) {
    && InBounds(s.ub)
    && (InBounds(s.uk) || s.uk == CAPTURED)
    && (InBounds(s.sk) || s.sk == CAPTURED)
    && s.uk != s.ub
    && s.sk != s.ub
    && (InBounds(s.uk) ==> s.uk != s.sk)
  }

  // ---------------------------------------------------------------------
  // Legality

  /** A King move is legal exactly when the target is free of both human
      pieces and is one of the eight neighbours, in direction order. */
  lemma KingLegality(s: GameState, target: Pos)
    ensures IsLegal(s, King, target) <==>
              target != s.uk && target != s.ub &&
              exists i :: 0 <= i < 8 && target == Step(s.uk, i)
  {
    AdjacentIffStep(s.uk, target);
  }

  /** The path condition, stated without a quantifier: neither the human King
      nor the opponent King lies strictly between source and target. */
  lemma PathClearClosedForm(s: GameState, from: Pos, to: Pos)
    ensures PathClear(s, from, to) <==>
              if from.r == to.r then
                !(s.uk.r == from.r && Between(from.c, to.c, s.uk.c)) &&
                !(s.sk.r == from.r && Between(from.c, to.c, s.sk.c))
              else
                !(s.uk.c == from.c && Between(from.r, to.r, s.uk.r)) &&
                !(s.sk.c == from.c && Between(from.r, to.r, s.sk.r))
  {
  }

  /** A Boat move is legal exactly when the target is free of both human
      pieces, lies on the Boat's row or column, and neither King stands
      strictly between; the opponent King may stand on the target. */
  lemma BoatLegality(s: GameState, target: Pos)
    ensures IsLegal(s, Boat, target) <==>
              && target != s.uk && target != s.ub
              && (s.ub.r == target.r || s.ub.c == target.c)
              && (if s.ub.r == target.r then
                    !(s.uk.r == target.r && Between(s.ub.c, target.c, s.uk.c)) &&
                    !(s.sk.r == target.r && Between(s.ub.c, target.c, s.sk.c))
                  else
                    !(s.uk.c == target.c && Between(s.ub.r, target.r, s.uk.r)) &&
                    !(s.sk.c == target.c && Between(s.ub.r, target.r, s.sk.r)))
  {
  }

  // ---------------------------------------------------------------------
  // Score and position accounting of a human move

  /** A move that does not land on the opponent King costs exactly the
      piece's cost, relocates only that piece, adds one history entry and
      asks for an opponent reply unless the opponent King is already gone. */
  lemma NonCaptureMove(s: GameState, kind: Kind, target: Pos)
    requires target != s.sk
    ensures var t := HumanMove(s, kind, target).state;
            && t.points == s.points - (if kind == King then 10 else 20)
            && PosOf(t, kind) == target
            && (kind == King ==> t.ub == s.ub)
            && (kind == Boat ==> t.uk == s.uk)
            && t.sk == s.sk
            && t.history == s.history + [HumanMoved(kind, PosOf(s, kind), target)]
    ensures HumanMove(s, kind, target).replyDue <==> s.sk != CAPTURED
  {
  }

  /** A move onto the opponent King pays the cost and earns the reward (net
      +90 for the King, +80 for the Boat), captures it, leaves both human
      pieces in place and asks for no reply. */
  lemma CaptureMove(s: GameState, kind: Kind)
    ensures var t := HumanMove(s, kind, s.sk).state;
            && t.points == s.points + (if kind == King then 90 else 80)
            && t.sk == CAPTURED
            && t.uk == s.uk && t.ub == s.ub
            && |t.history| == |s.history| + 1
    ensures !HumanMove(s, kind, s.sk).replyDue
  {
  }

  /** A legal human move keeps the board invariant. */
  lemma HumanMovePreservesWellFormed(s: GameState, kind: Kind, target: Pos)
    requires WellFormed(s) && InBounds(target) && IsLegal(s, kind, target)
    ensures WellFormed(HumanMove(s, kind, target).state)
  {
  }
}

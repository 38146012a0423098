/** The Game object: the three positions, the points and the history it
    updates in place, the LIFO stack of snapshots behind "Undo Move", and the
    click handler that selects a piece and then tries to move it. */
module GameController {
  import opened Board
  import opened Rules
  import opened Search

  datatype Option<T> = None | Some(value: T)

  /** One accepted click: the human move, followed by the opponent's reply
      when the move asks for one. */
  function Round(s: GameState, kind: Kind, target: Pos): (t: GameState)
    ensures |t.history| == |s.history| + (if target != s.sk && s.sk != CAPTURED then 2 else 1)
    ensures t.ub == (if kind == Boat && target != s.sk then target else s.ub)
  {
    var m := HumanMove(s, kind, target);
    if m.replyDue then SystemReply(m.state) else m.state
  }

  /** A legal round keeps the board invariant. */
  lemma RoundPreservesWellFormed(s: GameState, kind: Kind, target: Pos)
    requires WellFormed(s) && InBounds(target) && IsLegal(s, kind, target)
    ensures WellFormed(Round(s, kind, target))
  {
    HumanMovePreservesWellFormed(s, kind, target);
    SystemReplyPreservesWellFormed(HumanMove(s, kind, target).state);
  }

  /** With the opponent King still on the board, a non-capturing round
      costs the piece's move, leaves the piece on the target unless the
      opponent takes it, and adds exactly two history entries. */
  lemma RoundAccounting(s: GameState, kind: Kind, target: Pos)
    requires target != s.sk && s.sk != CAPTURED
    ensures var t := Round(s, kind, target);
            var king := if kind == King then target else s.uk;
            && |t.history| == |s.history| + 2
            && t.points == s.points - Cost(kind) - (if Adjacent(s.sk, king) then LOSS_PENALTY else 0)
            && t.ub == (if kind == Boat then target else s.ub)
            && t.uk == (if Adjacent(s.sk, king) then CAPTURED else king)
            && (Adjacent(s.sk, king) ==> t.sk == king)
  {
  }

  /** The opponent never passes: on a well-formed board, a legal round that
      does not capture the opponent King always moves it, either onto the
      human King or to another cell. */
  lemma RoundMovesOpponent(s: GameState, kind: Kind, target: Pos)
    requires WellFormed(s) && InBounds(target) && IsLegal(s, kind, target)
    requires target != s.sk && s.sk != CAPTURED
    ensures Round(s, kind, target).sk != s.sk
  {
    var m := HumanMove(s, kind, target).state;
    HumanMovePreservesWellFormed(s, kind, target);
    if !Adjacent(m.sk, m.uk) {
      ReplyTargetSpec(m.sk, m.uk, m.ub);
    }
  }

  class Game {
    var uk: Pos
    var ub: Pos
    var sk: Pos
    var points: int
    var history: seq<Entry>
    var snapshots: seq<GameState>
    var selected: Option<Kind>

    /** The part of the object a snapshot copies. */
    function Current(): GameState
      reads this
    {
      GameState(uk, ub, sk, points, history)
    }

    /** The board invariant holds now and in every saved snapshot. Every
        state-changing method preserves it, and `OnClick` relies on it to
        conclude that the opponent King always moves when it replies. */
    ghost predicate Valid()
      reads this
    {
      WellFormed(Current()) &&
      forall i :: 0 <= i < |snapshots| ==> WellFormed(snapshots[i])
    }

    /** A new game starts as `RestartGame` leaves it. */
    constructor ()
      ensures Current() == Initial() && snapshots == [] && selected == None
      ensures Valid()
    {
      points := STARTING_POINTS;
      selected := None;
      history := [];
      snapshots := [];
      uk := Pos(7, 4);
      ub := Pos(7, 0);
      sk := Pos(0, 4);
    }

    /** `restart_game`: initial positions, 1000 points, no history, no
        snapshots and no selection. */
    method RestartGame()
      modifies this
      ensures Current() == Initial() && snapshots == [] && selected == None
      ensures Valid()
    {
      points := STARTING_POINTS;
      selected := None;
      history := [];
      snapshots := [];
      uk := Pos(7, 4);
      ub := Pos(7, 0);
      sk := Pos(0, 4);
    }

    /** `valid_move`: reject a target on either human piece; a King moves one
        cell in any direction; a Boat moves along its row or column, scanning
        the cells strictly between for either King. */
    method ValidMove(kind: Kind, target: Pos) returns (ok: bool)
      ensures ok == IsLegal(Current(), kind, target)
    {
      var from := if kind == King then uk else ub;
      if target == uk || target == ub {
        return false;
      }
      if kind == King {
        return Abs(from.r - target.r) <= 1 && Abs(from.c - target.c) <= 1 &&
               (from.r != target.r || from.c != target.c);
      }
      if from.r == target.r {
        var step := if target.c > from.c then 1 else -1;
        var c := from.c + step;
        while (step == 1 && c < target.c) || (step == -1 && c > target.c)
          invariant step == 1 ==> from.c < c <= target.c
          invariant step == -1 ==> target.c <= c < from.c
          invariant forall x :: Between(from.c, c, x) ==> !Blocks(Current(), Pos(from.r, x))
          decreases if step == 1 then target.c - c else c - target.c
        {
          if Pos(from.r, c) == uk || Pos(from.r, c) == sk {
            assert Blocks(Current(), Pos(from.r, c));
            return false;
          }
          c := c + step;
        }
        return true;
      } else if from.c == target.c {
        var step := if target.r > from.r then 1 else -1;
        var r := from.r + step;
        while (step == 1 && r < target.r) || (step == -1 && r > target.r)
          invariant step == 1 ==> from.r < r <= target.r
          invariant step == -1 ==> target.r <= r < from.r
          invariant forall x :: Between(from.r, r, x) ==> !Blocks(Current(), Pos(x, from.c))
          decreases if step == 1 then target.r - r else r - target.r
        {
          if Pos(r, from.c) == uk || Pos(r, from.c) == sk {
            assert Blocks(Current(), Pos(r, from.c));
            return false;
          }
          r := r + step;
        }
        return true;
      }
      return false;
    }

    /** `save_snapshot`: push a copy of the current state. */
    method SaveSnapshot()
      modifies this`snapshots
      ensures snapshots == old(snapshots) + [Current()]
      ensures old(Valid()) ==> Valid()
    {
      snapshots := snapshots + [Current()];
    }

    /** `undo_move`: pop the latest snapshot and restore it; with no
        snapshot, do nothing. */
    method UndoMove()
      modifies this`uk, this`ub, this`sk, this`points, this`history, this`snapshots
      ensures old(snapshots) == [] ==> Current() == old(Current()) && snapshots == []
      ensures old(snapshots) != [] ==>
                Current() == old(snapshots)[|old(snapshots)| - 1] &&
                snapshots == old(snapshots)[..|old(snapshots)| - 1]
      ensures old(Valid()) ==> Valid()
    {
      if snapshots != [] {
        var state := snapshots[|snapshots| - 1];
        snapshots := snapshots[..|snapshots| - 1];
        uk := state.uk;
        ub := state.ub;
        sk := state.sk;
        points := state.points;
        history := state.history;
      }
    }

    /** `move_piece`: pay the cost, then either capture the opponent King or
        relocate the piece; report whether the opponent must reply. */
    method MovePiece(kind: Kind, target: Pos) returns (replyDue: bool)
      modifies this`uk, this`ub, this`sk, this`points, this`history
      ensures MoveResult(Current(), replyDue) == HumanMove(old(Current()), kind, target)
    {
      var start := if kind == King then uk else ub;
      if kind == King {
        points := points - KING_COST;
      } else {
        points := points - BOAT_COST;
      }
      if target == sk {
        points := points + KILL_REWARD;
        sk := CAPTURED;
        history := history + [HumanCaptured(kind, target)];
        return false;
      }
      if kind == King {
        uk := target;
      } else {
        ub := target;
      }
      history := history + [HumanMoved(kind, start, target)];
      replyDue := sk != CAPTURED;
    }

    /** `system_move`: capture the human King if it is in reach, otherwise
        move to the search's choice. */
    method SystemMove()
      modifies this`uk, this`sk, this`points, this`history
      ensures Current() == SystemReply(old(Current()))
    {
      var inReach := KingInReach(sk, uk);
      if inReach {
        sk := uk;
        history := history + [SystemKilled(sk)];
        points := points - LOSS_PENALTY;
        uk := CAPTURED;
        return;
      }
      var best := BestReply(sk, uk, ub);
      sk := best;
      history := history + [SystemMoved(sk)];
    }

    /** `on_click` on the cell `pos`: with no piece selected, select the
        human piece on `pos`, if any; with a piece selected, snapshot and play
        the round if the move is legal, and clear the selection either way. */
    method OnClick(pos: Pos)
      requires InBounds(pos)
      modifies this
      ensures old(selected).None? ==>
                && Current() == old(Current()) && snapshots == old(snapshots)
                && selected == (if old(uk) == pos then Some(King)
                                else if old(ub) == pos then Some(Boat) else None)
      ensures old(selected).Some? ==>
                && selected == None
                && var kind := old(selected).value;
                   if IsLegal(old(Current()), kind, pos) then
                     snapshots == old(snapshots) + [old(Current())] &&
                     Current() == Round(old(Current()), kind, pos)
                   else
                     snapshots == old(snapshots) && Current() == old(Current())
      ensures old(Valid()) ==> Valid()
      ensures && old(Valid()) && old(selected).Some?
              && IsLegal(old(Current()), old(selected).value, pos)
              && pos != old(sk) && old(sk) != CAPTURED
              ==> sk != old(sk)
    {
      if selected.Some? {
        var kind := selected.value;
        var ok := ValidMove(kind, pos);
        if ok {
          ghost var before := Current();
          SaveSnapshot();
          var replyDue := MovePiece(kind, pos);
          if replyDue {
            SystemMove();
          }
          if WellFormed(before) {
            RoundPreservesWellFormed(before, kind, pos);
            if pos != before.sk && before.sk != CAPTURED {
              RoundMovesOpponent(before, kind, pos);
            }
          }
        }
        selected := None;
      } else if uk == pos {
        selected := Some(King);
      } else if ub == pos {
        selected := Some(Boat);
      }
    }
  }

  /** Undo reverts a whole round: after an accepted click, one undo restores
      the positions, points and history, and the snapshot stack. */
  method UndoRevertsRound(g: Game, pos: Pos)
    requires InBounds(pos) && g.selected.Some? && IsLegal(g.Current(), g.selected.value, pos)
    modifies g
    ensures g.Current() == old(g.Current()) && g.snapshots == old(g.snapshots)
    ensures g.selected == None
  {
    g.OnClick(pos);
    g.UndoMove();
  }

  /** A snapshot survives any sequence of human moves and opponent replies
      (legal or not): the undo that follows restores the state saved and the
      stack as it was before the save. */
  method UndoAfterAnyMoves(g: Game, moves: seq<(Kind, Pos)>)
    modifies g
    ensures g.Current() == old(g.Current()) && g.snapshots == old(g.snapshots)
  {
    g.SaveSnapshot();
    var i := 0;
    while i < |moves|
      invariant 0 <= i <= |moves|
      invariant g.snapshots == old(g.snapshots) + [old(g.Current())]
    {
      var replyDue := g.MovePiece(moves[i].0, moves[i].1);
      if replyDue {
        g.SystemMove();
      }
      i := i + 1;
    }
    g.UndoMove();
  }
}

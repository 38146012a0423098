/** Coordinates on the 8x8 board, the game's constants and the eight
    king directions, in the order the engine enumerates them. */
module Board {

  const BOARD_SIZE := 8
  const KING_COST := 10
  const BOAT_COST := 20
  const KILL_REWARD := 100
  const LOSS_PENALTY := 100
  const STARTING_POINTS := 1000

  /** A cell (row, column). Off-board values are allowed: the engine marks a
      captured piece with the pair (-1, -1) and compares it like any cell. */
  datatype Pos = Pos(r: int, c: int)

  /** The position given to a captured piece. */
  const CAPTURED := Pos(-1, -1)

  predicate InBounds(p: Pos) {
    0 <= p.r < BOARD_SIZE && 0 <= p.c < BOARD_SIZE
  }

  function Abs(x: int): (a: nat)
    ensures a == x || a == -x
  {
    if x < 0 then -x else x
  }

  function Manhattan(a: Pos, b: Pos): nat {
    Abs(a.r - b.r) + Abs(a.c - b.c)
  }

  function Chebyshev(a: Pos, b: Pos): nat {
    var dr, dc := Abs(a.r - b.r), Abs(a.c - b.c);
    if dr < dc then dc else dr
  }

  /** Row and column offsets: up-left, up, up-right, left, right,
      down-left, down, down-right. */
  const DIRECTIONS: seq<(int, int)> :=
    [(-1, -1), (-1, 0), (-1, 1), (0, -1), (0, 1), (1, -1), (1, 0), (1, 1)]

  /** The neighbour of `p` in direction `i`. */
  function Step(p: Pos, i: int): (q: Pos)
    requires 0 <= i < 8
    ensures Chebyshev(p, q) == 1
  {
    Pos(p.r + DIRECTIONS[i].0, p.c + DIRECTIONS[i].1)
  }

  predicate Adjacent(a: Pos, b: Pos) {
    Chebyshev(a, b) == 1
  }

  /** A cell the opponent king may step to during its search: on the board
      and not the human Boat's cell. */
  predicate Allowed(q: Pos, ub: Pos) {
    InBounds(q) && q != ub
  }

  /** The eight directions enumerate exactly the cells at Chebyshev distance 1. */
  lemma AdjacentIffStep(a: Pos, b: Pos)
    ensures Adjacent(a, b) <==> exists i :: 0 <= i < 8 && b == Step(a, i)
  {
    if Adjacent(a, b) {
      var dr, dc := b.r - a.r, b.c - a.c;
      var i := if dr == -1 then (if dc == -1 then 0 else if dc == 0 then 1 else 2)
               else if dr == 0 then (if dc == -1 then 3 else 4)
               else (if dc == -1 then 5 else if dc == 0 then 6 else 7);
      assert b == Step(a, i);
    }
  }

  /** Every on-board cell has at least one allowed neighbour, whatever the
      Boat's cell is: it has a vertical and a horizontal on-board neighbour,
      and the Boat can occupy at most one of them. */
  lemma AllowedNeighbourExists(p: Pos, ub: Pos)
    requires InBounds(p)
    ensures exists i :: 0 <= i < 8 && Allowed(Step(p, i), ub)
  {
    var v := if p.r < BOARD_SIZE - 1 then 6 else 1;
    var h := if p.c < BOARD_SIZE - 1 then 4 else 3;
    if Step(p, v) != ub {
      assert Allowed(Step(p, v), ub);
    } else {
      assert Allowed(Step(p, h), ub);
    }
  }
}

/**
 Cell states, cell positions and the midpoint operator of the maze generator.
 Positions use unbounded integers. The generator builds positions at most two
 cells outside its grid (the neighbour probes), so 32-bit overflow needs
 dimensions near the `i32` limit.
 */
module Cells {

  /** The state of one grid cell. */
  datatype CellState = Passage | Blocked | Light | Entry | Exit

  /** A grid coordinate: column `x`, row `y`. */
  datatype CellPos = CellPos(x: int, y: int)

  /** A carved cell: a plain passage or a passage marked as a light. */
  predicate Carved(s: CellState)
  {
    s == Passage || s == Light
  }

  predicate Odd(n: int)
  {
    n % 2 == 1
  }

  /** Both coordinates odd: the "room" cells of the lattice. */
  predicate OddOdd(p: CellPos)
  {
    Odd(p.x) && Odd(p.y)
  }

  /** Both coordinates even: the wall posts of the lattice. */
  predicate EvenEven(p: CellPos)
  {
    !Odd(p.x) && !Odd(p.y)
  }

  function Abs(n: int): nat
  {
    if n < 0 then -n else n
  }

  /** `m` lies between `a` and `b`, in either order. */
  predicate Between(a: int, m: int, b: int)
  {
    (a <= m <= b) || (b <= m <= a)
  }

  /**
   `n / 2` on a signed integer as the source computes it: the quotient is
   truncated toward zero, unlike Dafny's Euclidean division.
   */
  function TruncDiv2(n: int): (q: int)
    ensures n >= 0 ==> 0 <= 2 * q <= n && n - 2 * q <= 1
    ensures n < 0 ==> n <= 2 * q <= 0 && 2 * q - n <= 1
  {
    if n >= 0 then n / 2 else -((-n) / 2)
  }

  /**
   The `-` operator on positions: not a subtraction, but the cell halfway
   from `a` toward `b`, each coordinate rounded toward `a`.
   */
  function Midpoint(a: CellPos, b: CellPos): CellPos
  {
    CellPos(TruncDiv2(b.x - a.x) + a.x, TruncDiv2(b.y - a.y) + a.y)
  }

  /**
   The midpoint lies between `a` and `b` on each axis, at most half a cell from
   the exact midpoint, and no farther from `a` than from `b`.
   */
  lemma MidpointBounds(a: CellPos, b: CellPos)
    ensures var m := Midpoint(a, b);
      && Between(a.x, m.x, b.x) && Between(a.y, m.y, b.y)
      && Abs(2 * m.x - a.x - b.x) <= 1 && Abs(2 * m.y - a.y - b.y) <= 1
      && Abs(m.x - a.x) <= Abs(b.x - m.x) && Abs(m.y - a.y) <= Abs(b.y - m.y)
  {
  }

  /** The four positions at distance `d` in the probe order -x, +x, -y, +y. */
  function Probes(c: CellPos, d: int): (ps: seq<CellPos>)
    ensures |ps| == 4
  {
    [CellPos(c.x - d, c.y), CellPos(c.x + d, c.y), CellPos(c.x, c.y - d), CellPos(c.x, c.y + d)]
  }

  /** The four diagonal positions in the order (-1,-1), (-1,1), (1,-1), (1,1). */
  function DiagonalProbes(c: CellPos): (ps: seq<CellPos>)
    ensures |ps| == 4
  {
    [CellPos(c.x - 1, c.y - 1), CellPos(c.x - 1, c.y + 1), CellPos(c.x + 1, c.y - 1), CellPos(c.x + 1, c.y + 1)]
  }

  /** Diagonal probe `2i+j` is the cell `i` columns and `j` rows over, with 0 for -1 and 1 for +1. */
  lemma DiagonalProbeAt(c: CellPos, i: nat, j: nat)
    requires i < 2 && j < 2
    ensures DiagonalProbes(c)[2 * i + j] == CellPos(c.x + [-1, 1][i], c.y + [-1, 1][j])
  {
  }

  /**
   For a cell two steps away along one axis, the midpoint is the cell
   between them: one step from each, in the same direction.
   */
  lemma MidpointOfStep2(a: CellPos, k: nat)
    requires k < 4
    ensures Midpoint(a, Probes(a, 2)[k]) == Probes(a, 1)[k]
    ensures Probes(Midpoint(a, Probes(a, 2)[k]), 1)[k] == Probes(a, 2)[k]
  {
  }

  /** Stepping two cells along one axis keeps both coordinates' parity. */
  lemma Step2KeepsParity(a: CellPos, k: nat)
    requires k < 4
    ensures OddOdd(Probes(a, 2)[k]) == OddOdd(a)
    ensures EvenEven(Probes(a, 2)[k]) == EvenEven(a)
  {
  }

  /** The midpoint of two rooms two apart is a corridor cell, never a wall post nor a room. */
  lemma MidpointOfRoomsIsCorridor(a: CellPos, k: nat)
    requires k < 4 && OddOdd(a)
    ensures !EvenEven(Midpoint(a, Probes(a, 2)[k])) && !OddOdd(Midpoint(a, Probes(a, 2)[k]))
  {
    MidpointOfStep2(a, k);
  }
}

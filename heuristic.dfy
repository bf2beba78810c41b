/** Grid coordinates and the Manhattan-distance heuristic `h`. */
module Heuristic {

  /** A node is identified by its (row, col) position in the grid. */
  datatype Pos = Pos(row: int, col: int)

  /** The node lies inside a `rows` x `rows` grid. */
  predicate InBounds(p: Pos, rows: int) {
    0 <= p.row < rows && 0 <= p.col < rows
  }

  function Abs(x: int): nat {
    if x < 0 then -x else x
  }

  /** `h(p1, p2)`: the Manhattan ("L") distance between two positions. */
  function H(p1: Pos, p2: Pos): nat {
    Abs(p1.row - p2.row) + Abs(p1.col - p2.col)
  }

  lemma HSymmetric(a: Pos, b: Pos)
    ensures H(a, b) == H(b, a)
  {
  }

  lemma HZeroIffEqual(a: Pos, b: Pos)
    ensures H(a, b) == 0 <==> a == b
  {
  }

  lemma HTriangle(a: Pos, b: Pos, c: Pos)
    ensures H(a, c) <= H(a, b) + H(b, c)
  {
  }

  /** Moving to an orthogonally adjacent node changes the estimate to any
      target by exactly one, up or down. */
  lemma HAdjacentStep(a: Pos, b: Pos, target: Pos)
    requires H(a, b) == 1
    ensures H(a, target) == H(b, target) + 1 || H(b, target) == H(a, target) + 1
  {
  }
}

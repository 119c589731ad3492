/** Geometry of the main map: 30 x 30 cells stored row-major in one flat list
    (script.js:24, 172-173), and the neighbour arithmetic of `spreadToNeighbors`
    (script.js:176-186). */
module Grid {

  const Rows: nat := 30
  const Cols: nat := 30
  const Size: nat := 900

  function Abs(x: int): nat {
    if x < 0 then -x else x
  }

  /** JavaScript's integer quotient, rounded toward zero. */
  function JsQuot(a: int, b: int): int
    requires b > 0
  {
    if a >= 0 then a / b else -((-a) / b)
  }

  /** JavaScript's `%`: the remainder of the quotient rounded toward zero, so it
      takes the sign of the dividend (Dafny's `%` never yields a negative
      remainder). */
  function JsRem(a: int, b: int): (r: int)
    requires b > 0
    ensures a == JsQuot(a, b) * b + r
    ensures -b < r < b && (a >= 0 ==> r >= 0) && (a < 0 ==> r <= 0)
    ensures a >= 0 ==> r == a % b
  {
    if a >= 0 then a % b else -((-a) % b)
  }

  function Row(i: int): int { i / Cols }
  function Col(i: int): int { i % Cols }

  /** The four candidates of script.js:176-181: up, down, left, right. */
  function Candidates(index: int): (c: seq<int>)
    ensures |c| == 4
  {
    [index - Cols, index + Cols, index - 1, index + 1]
  }

  /** The guard of script.js:185-186: inside the list of `len` cells, and at most
      one column away from the source. */
  predicate Admissible(n: int, index: int, len: int) {
    0 <= n < len && Abs(JsRem(n, Cols) - JsRem(index, Cols)) <= 1
  }

  /** Two cells of the 30 x 30 grid share a side. */
  predicate Adjacent(a: int, b: int) {
    (Row(a) == Row(b) && Abs(Col(a) - Col(b)) == 1) ||
    (Col(a) == Col(b) && Abs(Row(a) - Row(b)) == 1)
  }

  lemma RowCol(i: int, r: int, c: int)
    requires i == r * Cols + c && 0 <= c < Cols
    ensures Row(i) == r && Col(i) == c
  {
  }

  /** For a source inside the map the guard is the plain column distance: the
      candidate is in the list and its column differs from the source's by at
      most one. */
  lemma AdmissibleIsColumnDistance(n: int, index: int, len: int)
    requires 0 <= index
    ensures Admissible(n, index, len) <==> 0 <= n < len && Abs(Col(n) - Col(index)) <= 1
  {
  }

  /** The column guard never lets "left" of the first column or "right" of
      the last column through: the list does not wrap from one row to the next. */
  lemma NoWrapAround(index: int)
    requires 0 <= index < Size
    ensures Col(index) == 0 ==> !Admissible(index - 1, index, Size)
    ensures Col(index) == Cols - 1 ==> !Admissible(index + 1, index, Size)
  {
    var r, c := Row(index), Col(index);
    RowCol(index, r, c);
    if c == 0 && index >= 1 {
      RowCol(index - 1, r - 1, Cols - 1);
    }
    if c == Cols - 1 && index + 1 < Size {
      RowCol(index + 1, r + 1, 0);
    }
  }

  /** Every candidate the guard admits is a cell of the map that shares a side
      with the source, and every such cell is an admitted candidate: the guarded
      candidates are exactly the 4-neighbours in the 30 x 30 grid. */
  lemma AdmissibleIffAdjacent(index: int, n: int)
    requires 0 <= index < Size
    ensures (n in Candidates(index) && Admissible(n, index, Size)) <==> (0 <= n < Size && Adjacent(index, n))
  {
    var r, c := Row(index), Col(index);
    RowCol(index, r, c);
    assert 0 <= r < Rows;
    if 0 <= n < Size {
      var rn, cn := Row(n), Col(n);
      RowCol(n, rn, cn);
      if n == index - Cols {
        RowCol(n, r - 1, c);
      } else if n == index + Cols {
        RowCol(n, r + 1, c);
      } else if n == index - 1 {
        if c > 0 {
          RowCol(n, r, c - 1);
        } else {
          RowCol(n, r - 1, Cols - 1);
        }
      } else if n == index + 1 {
        if c < Cols - 1 {
          RowCol(n, r, c + 1);
        } else {
          RowCol(n, r + 1, 0);
        }
      } else {
        assert n != r * Cols + c - Cols && n != r * Cols + c + Cols;
      }
    }
  }
}

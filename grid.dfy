/**
 * Integer layout arithmetic shared by the two asset scripts: Euclidean
 * quotient and remainder, ceiling division, placing the i-th tile of a list
 * on a grid with a fixed number of columns, and row-major flattening of a
 * grid of rows.
 */
module Grid {

  /** A quotient/remainder pair is determined by the value it decomposes. */
  lemma DivModUnique(x: int, m: int, q: int, r: int)
    requires m > 0 && 0 <= r < m && x == q * m + r
    ensures x / m == q && x % m == r
  {
    var q', r' := x / m, x % m;
    assert x == q' * m + r' && 0 <= r' < m;
    if q' > q {
      MulAtLeastFactor(q' - q, m);
      assert false;
    } else if q' < q {
      MulAtLeastFactor(q - q', m);
      assert false;
    }
  }

  lemma MulAtLeastFactor(k: int, m: int)
    requires k >= 1 && m > 0
    ensures k * m >= m
  {
    assert k * m == (k - 1) * m + m;
    assert (k - 1) * m >= 0;
  }

  lemma MulMonotone(a: int, b: int, m: int)
    requires 0 <= a <= b && m >= 0
    ensures a * m <= b * m
  {
    assert b * m - a * m == (b - a) * m;
    assert (b - a) * m >= 0;
  }

  /** `ceil(n / c)` for a positive divisor: the least row count that holds n. */
  function CeilDiv(n: nat, c: nat): (rows: nat)
    requires c >= 1
    ensures rows * c >= n
    ensures forall r: nat :: r * c >= n ==> r >= rows
  {
    var rows := (n + c - 1) / c;
    var rem := (n + c - 1) % c;
    assert n + c - 1 == rows * c + rem;
    assert rows * c >= n;
    forall r: nat | r * c >= n ensures r >= rows {
      if r < rows {
        MulMonotone(r + 1, rows, c);
        assert false;
      }
    }
    rows
  }

  /** The (column, row) grid cell of the i-th entry, filling rows left to right. */
  /** The cell has a column below `cols` and is inverted by the row-major index `row * cols + column`. */
  function Cell(i: nat, cols: nat): (cell: (nat, nat))
    requires cols >= 1
    ensures cell.0 < cols
    ensures cell.1 * cols + cell.0 == i
  {
    (i % cols, i / cols)
  }

  /** Distinct entries are given distinct cells. */
  lemma CellInjective(i: nat, j: nat, cols: nat)
    requires cols >= 1 && i != j
    ensures Cell(i, cols) != Cell(j, cols)
  {
  }

  /** The first n entries fit in `cols` columns and `CeilDiv(n, cols)` rows. */
  lemma CellInside(i: nat, n: nat, cols: nat)
    requires cols >= 1 && i < n
    ensures Cell(i, cols).0 < cols && Cell(i, cols).1 < CeilDiv(n, cols)
  {
    var (x, y) := Cell(i, cols);
    var rows := CeilDiv(n, cols);
    if y >= rows {
      MulMonotone(rows, y, cols);
      assert false;
    }
  }

  /**
   * A cell's pixel origin when each cell is `size` pixels square; the square
   * fits in the `cols * size` pixels of a sheet row.
   */
  function CellOrigin(i: nat, cols: nat, size: nat): (origin: (nat, nat))
    requires cols >= 1
    ensures origin.0 + size <= cols * size
  {
    var (x, y) := Cell(i, cols);
    MulMonotone(x + 1, cols, size);
    (x * size, y * size)
  }

  /** A cell's pixel origin lies on the `size` grid and divides back to the cell. */
  lemma CellOriginDecodes(i: nat, cols: nat, size: nat)
    requires cols >= 1 && size >= 1
    ensures CellOrigin(i, cols, size).0 % size == 0 && CellOrigin(i, cols, size).1 % size == 0
    ensures (CellOrigin(i, cols, size).0 / size, CellOrigin(i, cols, size).1 / size) == Cell(i, cols)
  {
    var (x, y) := Cell(i, cols);
    DivModUnique(x * size, size, x, 0);
    DivModUnique(y * size, size, y, 0);
  }

  /**
   * The `size`-pixel square of the i-th of n entries lies inside a sheet of
   * `cols * size` by `CeilDiv(n, cols) * size` pixels.
   */
  lemma CellOriginInside(i: nat, n: nat, cols: nat, size: nat)
    requires cols >= 1 && i < n
    ensures CellOrigin(i, cols, size).0 + size <= cols * size
    ensures CellOrigin(i, cols, size).1 + size <= CeilDiv(n, cols) * size
  {
    CellInside(i, n, cols);
    var (x, y) := Cell(i, cols);
    MulMonotone(x + 1, cols, size);
    MulMonotone(y + 1, CeilDiv(n, cols), size);
  }

  /** The i-th entry's origin differs from those of all earlier entries. */
  lemma CellOriginFresh(i: nat, cols: nat, size: nat)
    requires cols >= 1 && size >= 1
    ensures forall j :: 0 <= j < i ==> CellOrigin(j, cols, size) != CellOrigin(i, cols, size)
  {
    forall j | 0 <= j < i ensures CellOrigin(j, cols, size) != CellOrigin(i, cols, size) {
      CellInjective(j, i, cols);
      CellOriginDecodes(i, cols, size);
      CellOriginDecodes(j, cols, size);
    }
  }

  /** CellOriginInside for all of the first n entries. */
  lemma CellOriginsInside(n: nat, cols: nat, size: nat)
    requires cols >= 1
    ensures forall i :: 0 <= i < n ==>
      && CellOrigin(i, cols, size).0 + size <= cols * size
      && CellOrigin(i, cols, size).1 + size <= CeilDiv(n, cols) * size
  {
    forall i | 0 <= i < n
      ensures CellOrigin(i, cols, size).0 + size <= cols * size
      ensures CellOrigin(i, cols, size).1 + size <= CeilDiv(n, cols) * size
    {
      CellOriginInside(i, n, cols, size);
    }
  }

  /** Distinct entries get disjoint `size`-pixel squares (size >= 1). */
  lemma CellSquaresDisjoint(i: nat, j: nat, cols: nat, size: nat, dx: nat, dy: nat, ex: nat, ey: nat)
    requires cols >= 1 && size >= 1 && i != j
    requires dx < size && dy < size && ex < size && ey < size
    ensures CellOrigin(i, cols, size).0 + dx != CellOrigin(j, cols, size).0 + ex
         || CellOrigin(i, cols, size).1 + dy != CellOrigin(j, cols, size).1 + ey
  {
    CellInjective(i, j, cols);
    var (xi, yi) := Cell(i, cols);
    var (xj, yj) := Cell(j, cols);
    if xi * size + dx == xj * size + ex {
      DivModUnique(xi * size + dx, size, xi, dx);
      DivModUnique(xj * size + ex, size, xj, ex);
    }
    if yi * size + dy == yj * size + ey {
      DivModUnique(yi * size + dy, size, yi, dy);
      DivModUnique(yj * size + ey, size, yj, ey);
    }
  }

  /** Growing a prefix by one element. */
  lemma PrefixSnoc<T>(s: seq<T>, i: nat)
    requires i < |s|
    ensures s[..i + 1] == s[..i] + [s[i]]
    ensures s[..i + 1][..i] == s[..i]
  {
  }

  /** The rows of a grid laid end to end. */
  function Concat<T>(rows: seq<seq<T>>): seq<T>
  {
    if |rows| == 0 then [] else Concat(rows[..|rows| - 1]) + rows[|rows| - 1]
  }

  /** A row-major scan that has visited cells 0 .. x of row y. */
  lemma ScanPrefixStep<T>(rows: seq<seq<T>>, y: nat, x: nat)
    requires y < |rows| && x < |rows[y]|
    ensures Concat(rows[..y]) + rows[y][..x] + [rows[y][x]] == Concat(rows[..y]) + rows[y][..x + 1]
  {
    PrefixSnoc(rows[y], x);
  }

  /** A row-major scan that has finished row y has visited the first y + 1 rows. */
  lemma ScanRowDone<T>(rows: seq<seq<T>>, y: nat)
    requires y < |rows|
    ensures Concat(rows[..y]) + rows[y][..|rows[y]|] == Concat(rows[..y + 1])
  {
    PrefixSnoc(rows, y);
    assert rows[y][..|rows[y]|] == rows[y];
  }

  /** Every row has length w. */
  predicate Rectangular<T>(rows: seq<seq<T>>, w: nat)
  {
    forall y :: 0 <= y < |rows| ==> |rows[y]| == w
  }

  /** A grid of h rows of width w flattens to h * w entries. */
  lemma {:induction false} ConcatLength<T>(rows: seq<seq<T>>, w: nat)
    requires Rectangular(rows, w)
    ensures |Concat(rows)| == |rows| * w
  {
    if |rows| > 0 {
      var h := |rows| - 1;
      assert Rectangular(rows[..h], w);
      ConcatLength(rows[..h], w);
      assert |Concat(rows)| == h * w + w;
    }
  }

  /** Row-major flattening: entry (x, y) of a w-wide grid lands at y * w + x. */
  lemma {:induction false} ConcatAt<T>(rows: seq<seq<T>>, w: nat, x: nat, y: nat)
    requires Rectangular(rows, w) && x < w && y < |rows|
    ensures y * w + x < |Concat(rows)| && Concat(rows)[y * w + x] == rows[y][x]
  {
    var h := |rows| - 1;
    var init := rows[..h];
    assert Rectangular(init, w);
    ConcatLength(init, w);
    ConcatLength(rows, w);
    if y < h {
      ConcatAt(init, w, x, y);
      assert init[y] == rows[y];
    } else {
      assert y * w + x == |Concat(init)| + x;
    }
  }

  /** Position k of s exists and holds v. */
  ghost predicate At<T>(s: seq<T>, k: int, v: T)
  {
    0 <= k < |s| && s[k] == v
  }

  /** ConcatAt for every cell at once. */
  lemma {:induction false} ConcatCells<T>(rows: seq<seq<T>>, w: nat)
    requires Rectangular(rows, w)
    ensures forall x, y :: 0 <= x < w && 0 <= y < |rows| ==> At(Concat(rows), y * w + x, rows[y][x])
  {
    forall x, y | 0 <= x < w && 0 <= y < |rows|
      ensures At(Concat(rows), y * w + x, rows[y][x])
    {
      ConcatAt(rows, w, x, y);
    }
  }
}

/** The grid both `calculate_coaster_centers` variants lay coasters out on:
    `cols = ceil(sqrt(n))`, `rows = ceil(n / cols)`, visited row by row. */
module Layout {

  /** The two ways the grid computation fails: the square root of a negative
      count (a math domain error) and the division by zero columns when the
      count is 0. */
  datatype MathError = DomainError | ZeroDivision

  datatype Result<T> = Ok(value: T) | Err(error: MathError)

  datatype Grid = Grid(rows: nat, cols: nat)

  function CeilSqrtFrom(n: nat, c: nat): (r: nat)
    requires c == 0 || (c - 1) * (c - 1) < n
    ensures r * r >= n && (r == 0 || (r - 1) * (r - 1) < n)
    decreases n - c
  {
    if c * c >= n then c
    else
      assert c <= c * c;
      CeilSqrtFrom(n, c + 1)
  }

  /** `math.ceil(math.sqrt(n))`, exactly: the least r with r * r >= n. */
  function CeilSqrt(n: nat): (r: nat)
    ensures r * r >= n && (r == 0 || (r - 1) * (r - 1) < n)
  {
    CeilSqrtFrom(n, 0)
  }

  /** The grid for n coasters, or the error Python raises computing it. A
      positive count gets at least one column, at most one partly filled
      row, and room for every coaster. */
  function GridFor(n: int): (res: Result<Grid>)
    ensures n < 0 ==> res == Err(DomainError)
    ensures n == 0 ==> res == Err(ZeroDivision)
    ensures n > 0 ==> res.Ok? && res.value.cols >= 1 && res.value.cols == CeilSqrt(n)
                      && res.value.rows * res.value.cols >= n
                      && (res.value.rows - 1) * res.value.cols < n
  {
    if n < 0 then Err(DomainError)
    else
      var cols := CeilSqrt(n);
      if cols == 0 then Err(ZeroDivision)
      else
        var rows := (n + cols - 1) / cols;
        assert n + cols - 1 == rows * cols + (n + cols - 1) % cols;
        assert (rows - 1) * cols == rows * cols - cols;
        Ok(Grid(rows, cols))
  }

  /** Visiting row r, column c of a grid with `cols` columns is visiting
      entry r * cols + c of the row-major order, and that entry's row and
      column are recovered by division and remainder. */
  lemma RowMajor(r: nat, c: nat, cols: nat)
    requires c < cols
    ensures (r * cols + c) / cols == r && (r * cols + c) % cols == c
  {
    var k := r * cols + c;
    var q, m := k / cols, k % cols;
    var n: int := cols;
    var d: int := q - r;
    assert d * n == c - m;
    assert -n < d * n < n;
    assert d * n >= n || d * n <= -n || d == 0;
  }
}

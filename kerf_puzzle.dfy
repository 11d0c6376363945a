/** The jigsaw generator with random edges and laser-kerf compensation
    (puzzle_coasters-1.py): `define_edges` sweeps the grid deciding every
    edge, `piece_path` draws one piece's outline. */
module KerfPuzzle {
  import opened Oracle
  import opened Jigsaw

  /** The two kinds `random.choice(["in", "out"])` picks from. */
  const TabKinds: seq<EdgeKind> := [In, Out]

  function Min(a: int, b: int): int { if a < b then a else b }

  /** How many random draws a randomizing sweep makes in the first r rows
      when none of them is the last: a right edge for all but the last cell
      of a row and a bottom edge for every cell, 2*cols - 1 per row. */
  function DrawsInRows(cols: nat, r: nat): (k: int)
    ensures cols > 0 ==> k >= 0
  {
    if r == 0 then 0 else DrawsInRows(cols, r - 1) + 2 * cols - 1
  }

  /** How many random draws a randomizing sweep has made when it reaches
      cell (r, c): all of the earlier rows', then one right edge for each of
      the first c cells of row r that is not last in its row, and one bottom
      edge for each of them unless row r is the last. */
  function DrawsBefore(rows: nat, cols: nat, r: nat, c: nat): (k: int)
    ensures cols > 0 ==> k >= 0
  {
    DrawsInRows(cols, r) + Min(c, cols - 1) + (if r < rows - 1 then c else 0)
  }

  /** The right edge the sweep decides for cell (r, c): 'none' in the last
      column, otherwise the draw made there, or 'out' without randomizing. */
  function ChosenRight(rows: nat, cols: nat, randomize: bool, rng: Random, r: nat, c: nat): EdgeKind
    requires r < rows && c < cols
  {
    if c < cols - 1 then
      if randomize then Choice(rng, DrawsBefore(rows, cols, r, c) as nat, TabKinds) else Out
    else Flat
  }

  /** The bottom edge the sweep decides for cell (r, c): 'none' in the last
      row, otherwise the draw made right after the right edge's (if any). */
  function ChosenBottom(rows: nat, cols: nat, randomize: bool, rng: Random, r: nat, c: nat): EdgeKind
    requires r < rows && c < cols
  {
    if r < rows - 1 then
      if randomize then
        Choice(rng, (DrawsBefore(rows, cols, r, c) + (if c < cols - 1 then 1 else 0)) as nat, TabKinds)
      else Out
    else Flat
  }

  /** Cell (r, c) of the finished map: its right and bottom edges are its own
      decisions, its top and left edges the complements of the decisions of
      the cells above and to the left. */
  function SweptCell(rows: nat, cols: nat, randomize: bool, rng: Random, r: nat, c: nat): PieceEdges
    requires r < rows && c < cols
  {
    PieceEdges(
      if r > 0 then Opposite(ChosenBottom(rows, cols, randomize, rng, r - 1, c)) else Flat,
      ChosenRight(rows, cols, randomize, rng, r, c),
      ChosenBottom(rows, cols, randomize, rng, r, c),
      if c > 0 then Opposite(ChosenRight(rows, cols, randomize, rng, r, c - 1)) else Flat)
  }

  /** Deciding cell (r, c) takes one draw for its right edge unless it is
      last in its row and one for its bottom edge unless its row is last;
      a finished row leaves the count where the next row starts. */
  lemma NextDraw(rows: nat, cols: nat, r: nat, c: nat)
    requires r < rows && c < cols
    ensures DrawsBefore(rows, cols, r, c + 1)
            == DrawsBefore(rows, cols, r, c) + DrawsAt(rows, cols, r, c)
    ensures c == cols - 1 && r + 1 < rows ==> DrawsBefore(rows, cols, r, c + 1) == DrawsBefore(rows, cols, r + 1, 0)
  {
  }

  /** How many draws deciding cell (r, c) takes. */
  function DrawsAt(rows: nat, cols: nat, r: nat, c: nat): nat
  {
    (if c < cols - 1 then 1 else 0) + (if r < rows - 1 then 1 else 0)
  }

  lemma {:induction false} DrawsInRowsMonotone(cols: nat, r1: nat, r2: nat)
    requires cols > 0 && r1 <= r2
    ensures DrawsInRows(cols, r1) <= DrawsInRows(cols, r2)
    decreases r2
  {
    if r1 < r2 {
      DrawsInRowsMonotone(cols, r1, r2 - 1);
    }
  }

  /** Draws are never shared: every draw a cell takes comes before the first
      draw of any cell later in row-major order, so each random edge is
      decided by a draw of its own. */
  lemma {:induction false} DrawsOrdered(rows: nat, cols: nat, r: nat, c: nat, r2: nat, c2: nat)
    requires r < rows && c < cols && r2 < rows && c2 < cols
    requires r < r2 || (r == r2 && c < c2)
    ensures DrawsBefore(rows, cols, r, c) + DrawsAt(rows, cols, r, c) <= DrawsBefore(rows, cols, r2, c2)
  {
    if r < r2 {
      DrawsInRowsMonotone(cols, r + 1, r2);
    }
  }

  /** The map a sweep produces, cell by cell. */
  function Swept(rows: nat, cols: nat, randomize: bool, rng: Random): (m: seq<seq<PieceEdges>>)
    ensures |m| == rows && forall r :: 0 <= r < rows ==> |m[r]| == cols
    ensures forall r, c :: 0 <= r < rows && 0 <= c < cols ==> m[r][c] == SweptCell(rows, cols, randomize, rng, r, c)
  {
    seq(rows, r requires 0 <= r < rows =>
      seq(cols, c requires 0 <= c < cols => SweptCell(rows, cols, randomize, rng, r, c)))
  }

  /** Whether an edge map is a valid jigsaw: boundary edges are 'none',
      interior right and bottom edges are tabs, and every shared edge is
      the complement of the edge across it. */
  predicate Interlocking(m: seq<seq<PieceEdges>>, rows: nat, cols: nat)
    requires |m| == rows && forall r :: 0 <= r < rows ==> |m[r]| == cols
  {
    && (forall c :: 0 <= c < cols && rows > 0 ==> m[0][c].top == Flat && m[rows - 1][c].bottom == Flat)
    && (forall r :: 0 <= r < rows && cols > 0 ==> m[r][0].left == Flat && m[r][cols - 1].right == Flat)
    && (forall r, c :: 0 <= r < rows && 0 <= c < cols - 1 ==> IsTab(m[r][c].right))
    && (forall r, c :: 0 <= r < rows - 1 && 0 <= c < cols ==> IsTab(m[r][c].bottom))
    && (forall r, c :: 0 <= r < rows && 0 < c < cols ==> m[r][c].left == Opposite(m[r][c - 1].right))
    && (forall r, c :: 0 < r < rows && 0 <= c < cols ==> m[r][c].top == Opposite(m[r - 1][c].bottom))
  }

  /** The conditions of `Interlocking` that concern cell (r, c). */
  predicate CellInterlocks(m: seq<seq<PieceEdges>>, rows: nat, cols: nat, r: nat, c: nat)
    requires |m| == rows && forall i :: 0 <= i < rows ==> |m[i]| == cols
    requires r < rows && c < cols
  {
    && (r == 0 ==> m[r][c].top == Flat) && (r == rows - 1 ==> m[r][c].bottom == Flat)
    && (c == 0 ==> m[r][c].left == Flat) && (c == cols - 1 ==> m[r][c].right == Flat)
    && (c < cols - 1 ==> IsTab(m[r][c].right)) && (r < rows - 1 ==> IsTab(m[r][c].bottom))
    && (c > 0 ==> m[r][c].left == Opposite(m[r][c - 1].right))
    && (r > 0 ==> m[r][c].top == Opposite(m[r - 1][c].bottom))
  }

  /** A map is a valid jigsaw when every cell meets its own conditions. */
  lemma InterlockingByCells(m: seq<seq<PieceEdges>>, rows: nat, cols: nat)
    requires |m| == rows && forall i :: 0 <= i < rows ==> |m[i]| == cols
    requires forall r, c :: 0 <= r < rows && 0 <= c < cols ==> CellInterlocks(m, rows, cols, r, c)
    ensures Interlocking(m, rows, cols)
  {
    forall c | 0 <= c < cols && rows > 0
      ensures m[0][c].top == Flat && m[rows - 1][c].bottom == Flat
    {
      assert CellInterlocks(m, rows, cols, 0, c);
      assert CellInterlocks(m, rows, cols, rows - 1, c);
    }
    forall r | 0 <= r < rows && cols > 0
      ensures m[r][0].left == Flat && m[r][cols - 1].right == Flat
    {
      assert CellInterlocks(m, rows, cols, r, 0);
      assert CellInterlocks(m, rows, cols, r, cols - 1);
    }
    forall r, c | 0 <= r < rows && 0 <= c < cols
      ensures (c < cols - 1 ==> IsTab(m[r][c].right)) && (r < rows - 1 ==> IsTab(m[r][c].bottom))
      ensures (c > 0 ==> m[r][c].left == Opposite(m[r][c - 1].right))
      ensures (r > 0 ==> m[r][c].top == Opposite(m[r - 1][c].bottom))
    {
      assert CellInterlocks(m, rows, cols, r, c);
    }
  }

  /** Every sweep produces a valid jigsaw; without randomizing every interior
      right and bottom edge is 'out' (and so every interior top and left
      edge 'in'). */
  lemma SweptInterlocks(rows: nat, cols: nat, randomize: bool, rng: Random)
    ensures Interlocking(Swept(rows, cols, randomize, rng), rows, cols)
    ensures !randomize ==> forall r, c :: 0 <= r < rows && 0 <= c < cols ==>
              var e := Swept(rows, cols, randomize, rng)[r][c];
              && (c < cols - 1 ==> e.right == Out) && (r < rows - 1 ==> e.bottom == Out)
              && (c > 0 ==> e.left == In) && (r > 0 ==> e.top == In)
  {
    var m := Swept(rows, cols, randomize, rng);
    forall r, c | 0 <= r < rows && 0 <= c < cols
      ensures CellInterlocks(m, rows, cols, r, c)
      ensures !randomize ==>
              && (c < cols - 1 ==> m[r][c].right == Out) && (r < rows - 1 ==> m[r][c].bottom == Out)
              && (c > 0 ==> m[r][c].left == In) && (r > 0 ==> m[r][c].top == In)
    {
      assert m[r][c] == SweptCell(rows, cols, randomize, rng, r, c);
      if r > 0 {
        assert m[r - 1][c] == SweptCell(rows, cols, randomize, rng, r - 1, c);
      }
      if c > 0 {
        assert m[r][c - 1] == SweptCell(rows, cols, randomize, rng, r, c - 1);
      }
    }
    InterlockingByCells(m, rows, cols);
  }

  /** `define_edges(rows, cols, randomize)`: a row-major sweep over a grid of
      all-'none' cells that, at each cell, sets the top and left edges from
      the already-decided neighbours and then decides the right and bottom
      edges, drawing from the random source in that order. */
  method DefineEdges(rows: nat, cols: nat, randomize: bool, rng: Random) returns (m: seq<seq<PieceEdges>>)
    ensures m == Swept(rows, cols, randomize, rng)
  {
    var grid := new PieceEdges[rows, cols]((i, j) => AllFlat);
    var k: int := 0;
    for r := 0 to rows
      invariant forall i, j :: 0 <= i < r && 0 <= j < cols ==> grid[i, j] == SweptCell(rows, cols, randomize, rng, i, j)
      invariant randomize && cols > 0 && r < rows ==> k == DrawsBefore(rows, cols, r, 0)
    {
      k := SweepRow(grid, rows, cols, randomize, rng, r, k);
    }
    m := Contents(grid);
    SameMap(m, Swept(rows, cols, randomize, rng), rows, cols);
  }

  /** One row of the sweep: row r of the grid, left to right, given the rows
      above it and the number of draws made so far; returns the number of
      draws made once the row is done. */
  method SweepRow(grid: array2<PieceEdges>, rows: nat, cols: nat, randomize: bool, rng: Random, r: nat, k0: int)
    returns (k: int)
    requires grid.Length0 == rows && grid.Length1 == cols && r < rows
    requires forall i, j :: 0 <= i < r && 0 <= j < cols ==> grid[i, j] == SweptCell(rows, cols, randomize, rng, i, j)
    requires randomize && cols > 0 ==> k0 == DrawsBefore(rows, cols, r, 0)
    modifies grid
    ensures forall i, j :: 0 <= i <= r && 0 <= j < cols ==> grid[i, j] == SweptCell(rows, cols, randomize, rng, i, j)
    ensures forall i, j :: r < i < rows && 0 <= j < cols ==> grid[i, j] == old(grid[i, j])
    ensures randomize && cols > 0 && r + 1 < rows ==> k == DrawsBefore(rows, cols, r + 1, 0)
  {
    k := k0;
    for c := 0 to cols
      invariant forall i, j :: 0 <= i < rows && 0 <= j < cols && (i < r || (i == r && j < c)) ==>
        grid[i, j] == SweptCell(rows, cols, randomize, rng, i, j)
      invariant forall i, j :: r < i < rows && 0 <= j < cols ==> grid[i, j] == old(grid[i, j])
      invariant randomize && cols > 0 ==> k == DrawsBefore(rows, cols, r, c)
    {
      var cell;
      cell, k := DecideCell(grid, rows, cols, randomize, rng, r, c, k);
      grid[r, c] := cell;
    }
  }

  /** The body of the sweep at cell (r, c): top and left from the cells
      above and to the left, then right and bottom decided in that order,
      each taking the next draw when randomizing. Returns the cell and the
      number of draws made so far. */
  method DecideCell(grid: array2<PieceEdges>, rows: nat, cols: nat, randomize: bool, rng: Random,
                    r: nat, c: nat, k0: int) returns (cell: PieceEdges, k: int)
    requires grid.Length0 == rows && grid.Length1 == cols && r < rows && c < cols
    requires r > 0 ==> grid[r - 1, c] == SweptCell(rows, cols, randomize, rng, r - 1, c)
    requires c > 0 ==> grid[r, c - 1] == SweptCell(rows, cols, randomize, rng, r, c - 1)
    requires randomize ==> k0 == DrawsBefore(rows, cols, r, c)
    ensures cell == SweptCell(rows, cols, randomize, rng, r, c)
    ensures randomize ==> k == DrawsBefore(rows, cols, r, c + 1)
  {
    NextDraw(rows, cols, r, c);
    k := k0;
    cell := AllFlat;
    if r > 0 {
      cell := cell.(top := Opposite(grid[r - 1, c].bottom));
    } else {
      cell := cell.(top := Flat);
    }
    if c > 0 {
      cell := cell.(left := Opposite(grid[r, c - 1].right));
    } else {
      cell := cell.(left := Flat);
    }
    if c < cols - 1 {
      if randomize {
        cell := cell.(right := Choice(rng, k as nat, TabKinds));
        k := k + 1;
      } else {
        cell := cell.(right := Out);
      }
    } else {
      cell := cell.(right := Flat);
    }
    if r < rows - 1 {
      if randomize {
        cell := cell.(bottom := Choice(rng, k as nat, TabKinds));
        k := k + 1;
      } else {
        cell := cell.(bottom := Out);
      }
    } else {
      cell := cell.(bottom := Flat);
    }
  }

  /** The rows of a two-dimensional grid as a list of lists. */
  function Contents(g: array2<PieceEdges>): (m: seq<seq<PieceEdges>>)
    reads g
    ensures |m| == g.Length0 && forall i :: 0 <= i < g.Length0 ==> |m[i]| == g.Length1
    ensures forall i, j :: 0 <= i < g.Length0 && 0 <= j < g.Length1 ==> m[i][j] == g[i, j]
  {
    seq(g.Length0, i requires 0 <= i < g.Length0 reads g =>
      seq(g.Length1, j requires 0 <= j < g.Length1 reads g => g[i, j]))
  }

  /** Two rows-by-cols maps that agree cell by cell are equal. */
  lemma SameMap(a: seq<seq<PieceEdges>>, b: seq<seq<PieceEdges>>, rows: nat, cols: nat)
    requires |a| == rows && |b| == rows
    requires forall i :: 0 <= i < rows ==> |a[i]| == cols && |b[i]| == cols
    requires forall i, j :: 0 <= i < rows && 0 <= j < cols ==> a[i][j] == b[i][j]
    ensures a == b
  {
    forall i | 0 <= i < rows
      ensures a[i] == b[i]
    {
    }
  }

  /** `piece_path(r, c, edge_dict, piece_w, piece_h, tab_size, kerf, x_off, y_off)`:
      the outline of one piece, appended command by command as the program
      does; it draws exactly the reference outline of the piece. */
  method PiecePath(r: int, c: int, e: PieceEdges, pieceW: real, pieceH: real, tabSize: real, kerf: real, xOff: real, yOff: real)
    returns (cmds: seq<Cmd>)
    ensures cmds == Outline(r, c, e, pieceW, pieceH, tabSize, kerf, xOff, yOff)
  {
    var sx := xOff + c as real * pieceW;
    var sy := yOff + r as real * pieceH;
    cmds := [M(sx, sy)];

    // top edge
    var top: seq<Cmd>;
    if e.top.Flat? {
      top := [L(sx + pieceW, sy)];
    } else {
      var half := (pieceW - tabSize) / 2.0;
      var midLeft := sx + half;
      var midRight := midLeft + tabSize;
      if e.top.Out? {
        top := [L(midLeft, sy), L(midLeft, sy - (tabSize + kerf / 2.0)),
                L(midRight, sy - (tabSize + kerf / 2.0)), L(midRight, sy), L(sx + pieceW, sy)];
      } else {
        top := [L(midLeft, sy), L(midLeft, sy + (tabSize - kerf / 2.0)),
                L(midRight, sy + (tabSize - kerf / 2.0)), L(midRight, sy), L(sx + pieceW, sy)];
      }
    }
    TopSideCoordinates(r, c, e, pieceW, pieceH, tabSize, kerf, xOff, yOff);
    assert top == TopSide(r, c, e, pieceW, pieceH, tabSize, kerf, xOff, yOff);
    cmds := cmds + top;

    // right edge
    var right: seq<Cmd>;
    if e.right.Flat? {
      right := [L(sx + pieceW, sy + pieceH)];
    } else {
      var half := (pieceH - tabSize) / 2.0;
      var midTop := sy + half;
      var midBottom := midTop + tabSize;
      if e.right.Out? {
        right := [L(sx + pieceW, midTop), L(sx + pieceW + (tabSize + kerf / 2.0), midTop),
                  L(sx + pieceW + (tabSize + kerf / 2.0), midBottom), L(sx + pieceW, midBottom),
                  L(sx + pieceW, sy + pieceH)];
      } else {
        right := [L(sx + pieceW, midTop), L(sx + pieceW - (tabSize - kerf / 2.0), midTop),
                  L(sx + pieceW - (tabSize - kerf / 2.0), midBottom), L(sx + pieceW, midBottom),
                  L(sx + pieceW, sy + pieceH)];
      }
    }
    RightSideCoordinates(r, c, e, pieceW, pieceH, tabSize, kerf, xOff, yOff);
    assert right == RightSide(r, c, e, pieceW, pieceH, tabSize, kerf, xOff, yOff);
    cmds := cmds + right;

    // bottom edge
    var bottom: seq<Cmd>;
    if e.bottom.Flat? {
      bottom := [L(sx, sy + pieceH)];
    } else {
      var half := (pieceW - tabSize) / 2.0;
      var midRight := sx + pieceW - half;
      var midLeft := midRight - tabSize;
      if e.bottom.Out? {
        bottom := [L(midRight, sy + pieceH), L(midRight, sy + pieceH + (tabSize + kerf / 2.0)),
                   L(midLeft, sy + pieceH + (tabSize + kerf / 2.0)), L(midLeft, sy + pieceH),
                   L(sx, sy + pieceH)];
      } else {
        bottom := [L(midRight, sy + pieceH), L(midRight, sy + pieceH - (tabSize - kerf / 2.0)),
                   L(midLeft, sy + pieceH - (tabSize - kerf / 2.0)), L(midLeft, sy + pieceH),
                   L(sx, sy + pieceH)];
      }
    }
    BottomSideCoordinates(r, c, e, pieceW, pieceH, tabSize, kerf, xOff, yOff);
    assert bottom == BottomSide(r, c, e, pieceW, pieceH, tabSize, kerf, xOff, yOff);
    cmds := cmds + bottom;

    // left edge
    var left: seq<Cmd>;
    if e.left.Flat? {
      left := [L(sx, sy)];
    } else {
      var half := (pieceH - tabSize) / 2.0;
      var midBottom := sy + pieceH - half;
      var midTop := midBottom - tabSize;
      if e.left.Out? {
        left := [L(sx, midBottom), L(sx - (tabSize + kerf / 2.0), midBottom),
                 L(sx - (tabSize + kerf / 2.0), midTop), L(sx, midTop), L(sx, sy)];
      } else {
        left := [L(sx, midBottom), L(sx + (tabSize - kerf / 2.0), midBottom),
                 L(sx + (tabSize - kerf / 2.0), midTop), L(sx, midTop), L(sx, sy)];
      }
    }
    LeftSideCoordinates(r, c, e, pieceW, pieceH, tabSize, kerf, xOff, yOff);
    assert left == LeftSide(r, c, e, pieceW, pieceH, tabSize, kerf, xOff, yOff);
    cmds := cmds + left;

    cmds := cmds + [Z];
  }
}

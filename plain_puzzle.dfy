/** The earlier jigsaw generator without randomness or kerf
    (puzzle_coasters.py): every interior right and bottom edge is 'out', and
    outlines are drawn with the tab depth equal to the tab size. */
module PlainPuzzle {
  import opened Oracle
  import opened Jigsaw
  import KerfPuzzle

  /** Cell (r, c) of the fixed layout: tabs point right and down, so each
      interior top and left edge is an indent. */
  function FixedCell(rows: nat, cols: nat, r: nat, c: nat): PieceEdges
  {
    PieceEdges(
      if r > 0 then In else Flat,
      if c < cols - 1 then Out else Flat,
      if r < rows - 1 then Out else Flat,
      if c > 0 then In else Flat)
  }

  function Fixed(rows: nat, cols: nat): (m: seq<seq<PieceEdges>>)
    ensures |m| == rows && forall r :: 0 <= r < rows ==> |m[r]| == cols
    ensures forall r, c :: 0 <= r < rows && 0 <= c < cols ==> m[r][c] == FixedCell(rows, cols, r, c)
  {
    seq(rows, r requires 0 <= r < rows => seq(cols, c requires 0 <= c < cols => FixedCell(rows, cols, r, c)))
  }

  /** `define_edges(rows, cols)`: the same row-major sweep as the randomizing
      generator, with every decided edge 'out'. Its result is the fixed
      layout. */
  method DefineEdges(rows: nat, cols: nat) returns (m: seq<seq<PieceEdges>>)
    ensures m == Fixed(rows, cols)
  {
    var grid := new PieceEdges[rows, cols]((i, j) => AllFlat);
    for r := 0 to rows
      invariant forall i, j :: 0 <= i < r && 0 <= j < cols ==> grid[i, j] == FixedCell(rows, cols, i, j)
    {
      for c := 0 to cols
        invariant forall i, j :: 0 <= i < rows && 0 <= j < cols && (i < r || (i == r && j < c)) ==>
          grid[i, j] == FixedCell(rows, cols, i, j)
      {
        var cell := AllFlat;
        if r > 0 {
          cell := cell.(top := Opposite(grid[r - 1, c].bottom));
        } else {
          cell := cell.(top := Flat);
        }
        if c > 0 {
          cell := cell.(left := Opposite(grid[r, c - 1].right));
        } else {
          cell := cell.(left := Flat);
        }
        if c < cols - 1 {
          cell := cell.(right := Out);
        } else {
          cell := cell.(right := Flat);
        }
        if r < rows - 1 {
          cell := cell.(bottom := Out);
        } else {
          cell := cell.(bottom := Flat);
        }
        grid[r, c] := cell;
      }
    }
    m := KerfPuzzle.Contents(grid);
    KerfPuzzle.SameMap(m, Fixed(rows, cols), rows, cols);
  }

  /** The fixed layout is what the randomizing generator produces when told
      not to randomize, whatever its random source; so it is a valid jigsaw. */
  lemma FixedIsUnrandomizedSweep(rows: nat, cols: nat, rng: Random)
    ensures Fixed(rows, cols) == KerfPuzzle.Swept(rows, cols, false, rng)
    ensures KerfPuzzle.Interlocking(Fixed(rows, cols), rows, cols)
  {
    KerfPuzzle.SameMap(Fixed(rows, cols), KerfPuzzle.Swept(rows, cols, false, rng), rows, cols);
    KerfPuzzle.SweptInterlocks(rows, cols, false, rng);
  }

  /** `piece_path(r, c, edge_dict, piece_w, piece_h, tab_size, x_off, y_off)`:
      tabs reach exactly `tab_size` beyond or inside the box. It draws the
      reference outline with no kerf, the outline the kerf-compensating
      `piece_path` draws when its kerf is 0. */
  method PiecePath(r: int, c: int, e: PieceEdges, pieceW: real, pieceH: real, tabSize: real, xOff: real, yOff: real)
    returns (cmds: seq<Cmd>)
    ensures cmds == Outline(r, c, e, pieceW, pieceH, tabSize, 0.0, xOff, yOff)
  {
    var sx := xOff + c as real * pieceW;
    var sy := yOff + r as real * pieceH;
    cmds := [M(sx, sy)];

    // top edge
    var top: seq<Cmd>;
    if e.top.Flat? {
      top := [L(sx + pieceW, sy)];
    } else {
      var half := (pieceW - tabSize) / 2.0;
      var midLeft := sx + half;
      var midRight := midLeft + tabSize;
      if e.top.Out? {
        top := [L(midLeft, sy), L(midLeft, sy - tabSize), L(midRight, sy - tabSize), L(midRight, sy), L(sx + pieceW, sy)];
      } else {
        top := [L(midLeft, sy), L(midLeft, sy + tabSize), L(midRight, sy + tabSize), L(midRight, sy), L(sx + pieceW, sy)];
      }
    }
    TopSideCoordinates(r, c, e, pieceW, pieceH, tabSize, 0.0, xOff, yOff);
    assert top == TopSide(r, c, e, pieceW, pieceH, tabSize, 0.0, xOff, yOff);
    cmds := cmds + top;

    // right edge
    var right: seq<Cmd>;
    if e.right.Flat? {
      right := [L(sx + pieceW, sy + pieceH)];
    } else {
      var half := (pieceH - tabSize) / 2.0;
      var midTop := sy + half;
      var midBottom := midTop + tabSize;
      if e.right.Out? {
        right := [L(sx + pieceW, midTop), L(sx + pieceW + tabSize, midTop), L(sx + pieceW + tabSize, midBottom),
                  L(sx + pieceW, midBottom), L(sx + pieceW, sy + pieceH)];
      } else {
        right := [L(sx + pieceW, midTop), L(sx + pieceW - tabSize, midTop), L(sx + pieceW - tabSize, midBottom),
                  L(sx + pieceW, midBottom), L(sx + pieceW, sy + pieceH)];
      }
    }
    RightSideCoordinates(r, c, e, pieceW, pieceH, tabSize, 0.0, xOff, yOff);
    assert right == RightSide(r, c, e, pieceW, pieceH, tabSize, 0.0, xOff, yOff);
    cmds := cmds + right;

    // bottom edge
    var bottom: seq<Cmd>;
    if e.bottom.Flat? {
      bottom := [L(sx, sy + pieceH)];
    } else {
      var half := (pieceW - tabSize) / 2.0;
      var midRight := sx + pieceW - half;
      var midLeft := midRight - tabSize;
      if e.bottom.Out? {
        bottom := [L(midRight, sy + pieceH), L(midRight, sy + pieceH + tabSize), L(midLeft, sy + pieceH + tabSize),
                   L(midLeft, sy + pieceH), L(sx, sy + pieceH)];
      } else {
        bottom := [L(midRight, sy + pieceH), L(midRight, sy + pieceH - tabSize), L(midLeft, sy + pieceH - tabSize),
                   L(midLeft, sy + pieceH), L(sx, sy + pieceH)];
      }
    }
    BottomSideCoordinates(r, c, e, pieceW, pieceH, tabSize, 0.0, xOff, yOff);
    assert bottom == BottomSide(r, c, e, pieceW, pieceH, tabSize, 0.0, xOff, yOff);
    cmds := cmds + bottom;

    // left edge
    var left: seq<Cmd>;
    if e.left.Flat? {
      left := [L(sx, sy)];
    } else {
      var half := (pieceH - tabSize) / 2.0;
      var midBottom := sy + pieceH - half;
      var midTop := midBottom - tabSize;
      if e.left.Out? {
        left := [L(sx, midBottom), L(sx - tabSize, midBottom), L(sx - tabSize, midTop), L(sx, midTop), L(sx, sy)];
      } else {
        left := [L(sx, midBottom), L(sx + tabSize, midBottom), L(sx + tabSize, midTop), L(sx, midTop), L(sx, sy)];
      }
    }
    LeftSideCoordinates(r, c, e, pieceW, pieceH, tabSize, 0.0, xOff, yOff);
    assert left == LeftSide(r, c, e, pieceW, pieceH, tabSize, 0.0, xOff, yOff);
    cmds := cmds + left;

    cmds := cmds + [Z];
  }
}

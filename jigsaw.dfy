/** Vocabulary shared by the two jigsaw generators: the kind of an edge, its
    complement, the four edges of a piece, outline commands, and a reference
    description of a piece's outline from which both `piece_path` variants
    are proved to draw. */
module Jigsaw {

  /** The type of one edge of a piece. `Flat` is the program's 'none' (an
      outer boundary with no tab), `Out` a protruding tab, `In` an indent.
      `Other` stands for any other string a caller might store. */
  datatype EdgeKind = In | Out | Flat | Other(name: OtherName)

  /** A label other than the three the program knows, so that every label
      has exactly one `EdgeKind`. */
  type OtherName = s: string | s != "in" && s != "out" && s != "none" witness "other"

  /** A piece's four edges, the dictionary {'top', 'right', 'bottom', 'left'}. */
  datatype PieceEdges = PieceEdges(top: EdgeKind, right: EdgeKind, bottom: EdgeKind, left: EdgeKind)

  /** The dictionary every cell starts with: all four edges 'none'. */
  const AllFlat := PieceEdges(Flat, Flat, Flat, Flat)

  predicate IsTab(e: EdgeKind) { e.In? || e.Out? }

  /** `opposite_edge`: the kind the neighbouring piece needs on the shared edge. */
  function Opposite(e: EdgeKind): (o: EdgeKind)
    ensures IsTab(e) <==> IsTab(o)
    ensures !IsTab(e) ==> o == Flat
  {
    match e
    case Out => In
    case In => Out
    case _ => Flat
  }

  /** On tabs, `Opposite` swaps in and out and undoes itself. */
  lemma OppositeInvolution(e: EdgeKind)
    requires IsTab(e)
    ensures Opposite(e) != e && Opposite(Opposite(e)) == e
  {
  }

  /** One command of an outline path: move-to, line-to, close. */
  datatype Cmd = M(x: real, y: real) | L(x: real, y: real) | Z

  /** How many commands an edge adds to the outline: a straight line for a
      flat edge, five lines around a tab otherwise. */
  function EdgeCmdCount(e: EdgeKind): nat
  {
    if e.Flat? then 1 else 5
  }

  /** How far the tab's far side lies outside the piece's box, measured
      along the edge's outward normal: a protruding tab grows by half the
      kerf, an indent (negative) loses half the kerf of its depth. */
  function TabReach(e: EdgeKind, tabSize: real, kerf: real): real
  {
    if e.Out? then tabSize + kerf / 2.0 else -(tabSize - kerf / 2.0)
  }

  /** A local coordinate system along one side of the piece's box: the
      corner the side starts at, the unit direction along the side and the
      outward unit normal. */
  datatype Frame = Frame(ox: real, oy: real, dx: real, dy: real, nx: real, ny: real)

  /** The point `along` units down the side and `out` units outward. */
  function At(f: Frame, along: real, out: real): Cmd
  {
    L(f.ox + along * f.dx + out * f.nx, f.oy + along * f.dy + out * f.ny)
  }

  /** The commands for one side of length `len`, described in the side's own
      frame: a flat side is one line to its end; a tab side runs to the tab,
      out to its reach, across the tab, back, and on to the end of the side,
      with the tab centred. */
  function SideCmds(f: Frame, len: real, e: EdgeKind, tabSize: real, kerf: real): (cmds: seq<Cmd>)
    ensures |cmds| == EdgeCmdCount(e)
    ensures cmds[|cmds| - 1] == At(f, len, 0.0)
  {
    if e.Flat? then [At(f, len, 0.0)]
    else
      var margin := (len - tabSize) / 2.0;
      var reach := TabReach(e, tabSize, kerf);
      [At(f, margin, 0.0), At(f, margin, reach), At(f, margin + tabSize, reach),
       At(f, margin + tabSize, 0.0), At(f, len, 0.0)]
  }

  /** The top-left corner of the piece in row r, column c. */
  function StartX(c: int, pieceW: real, xOff: real): real { xOff + c as real * pieceW }
  function StartY(r: int, pieceH: real, yOff: real): real { yOff + r as real * pieceH }

  /** The four sides, traversed clockwise on screen (y grows downwards). */
  function TopSide(r: int, c: int, e: PieceEdges, w: real, h: real, tabSize: real, kerf: real, xOff: real, yOff: real): seq<Cmd>
  {
    SideCmds(Frame(StartX(c, w, xOff), StartY(r, h, yOff), 1.0, 0.0, 0.0, -1.0), w, e.top, tabSize, kerf)
  }
  function RightSide(r: int, c: int, e: PieceEdges, w: real, h: real, tabSize: real, kerf: real, xOff: real, yOff: real): seq<Cmd>
  {
    SideCmds(Frame(StartX(c, w, xOff) + w, StartY(r, h, yOff), 0.0, 1.0, 1.0, 0.0), h, e.right, tabSize, kerf)
  }
  function BottomSide(r: int, c: int, e: PieceEdges, w: real, h: real, tabSize: real, kerf: real, xOff: real, yOff: real): seq<Cmd>
  {
    SideCmds(Frame(StartX(c, w, xOff) + w, StartY(r, h, yOff) + h, -1.0, 0.0, 0.0, 1.0), w, e.bottom, tabSize, kerf)
  }
  function LeftSide(r: int, c: int, e: PieceEdges, w: real, h: real, tabSize: real, kerf: real, xOff: real, yOff: real): seq<Cmd>
  {
    SideCmds(Frame(StartX(c, w, xOff), StartY(r, h, yOff) + h, 0.0, -1.0, -1.0, 0.0), h, e.left, tabSize, kerf)
  }

  /** The reference outline of piece (r, c): move to its top-left corner,
      draw the four sides, close. */
  function Outline(r: int, c: int, e: PieceEdges, w: real, h: real, tabSize: real, kerf: real, xOff: real, yOff: real): seq<Cmd>
  {
    [M(StartX(c, w, xOff), StartY(r, h, yOff))]
    + TopSide(r, c, e, w, h, tabSize, kerf, xOff, yOff)
    + RightSide(r, c, e, w, h, tabSize, kerf, xOff, yOff)
    + BottomSide(r, c, e, w, h, tabSize, kerf, xOff, yOff)
    + LeftSide(r, c, e, w, h, tabSize, kerf, xOff, yOff)
    + [Z]
  }

  /** The outline opens with a move to the piece's corner, closes with Z,
      returns to that corner with its last line, and has one line per flat
      edge and five per tab edge; each side ends on the next corner of the
      w-by-h box. */
  lemma OutlineShape(r: int, c: int, e: PieceEdges, w: real, h: real, tabSize: real, kerf: real, xOff: real, yOff: real)
    ensures var o := Outline(r, c, e, w, h, tabSize, kerf, xOff, yOff);
            var sx, sy := StartX(c, w, xOff), StartY(r, h, yOff);
            var t, rt, b := EdgeCmdCount(e.top), EdgeCmdCount(e.right), EdgeCmdCount(e.bottom);
            && |o| == 2 + t + rt + b + EdgeCmdCount(e.left)
            && o[0] == M(sx, sy)
            && o[|o| - 1] == Z
            && o[t] == L(sx + w, sy)
            && o[t + rt] == L(sx + w, sy + h)
            && o[t + rt + b] == L(sx, sy + h)
            && o[|o| - 2] == L(sx, sy)
  {
    var top := TopSide(r, c, e, w, h, tabSize, kerf, xOff, yOff);
    var right := RightSide(r, c, e, w, h, tabSize, kerf, xOff, yOff);
    var bottom := BottomSide(r, c, e, w, h, tabSize, kerf, xOff, yOff);
    var left := LeftSide(r, c, e, w, h, tabSize, kerf, xOff, yOff);
    var o := Outline(r, c, e, w, h, tabSize, kerf, xOff, yOff);
    assert o == [M(StartX(c, w, xOff), StartY(r, h, yOff))] + top + right + bottom + left + [Z];
    assert o[|top|] == top[|top| - 1];
    assert o[|top| + |right|] == right[|right| - 1];
    assert o[|top| + |right| + |bottom|] == bottom[|bottom| - 1];
    assert o[|o| - 2] == left[|left| - 1];
  }

  /** A tab side's tab is centred on the side, exactly `tabSize` wide, and
      its far side lies `TabReach` outside the box: `tabSize + kerf/2` beyond
      it for 'out', `tabSize - kerf/2` inside it for any other tab kind. */
  lemma TabCentred(f: Frame, len: real, e: EdgeKind, tabSize: real, kerf: real)
    requires !e.Flat?
    ensures var s := SideCmds(f, len, e, tabSize, kerf);
            var margin := (len - tabSize) / 2.0;
            && s[0] == At(f, margin, 0.0)
            && s[3] == At(f, len - margin, 0.0)
            && len - margin - margin == tabSize
            && s[1] == At(f, margin, TabReach(e, tabSize, kerf))
            && s[2] == At(f, len - margin, TabReach(e, tabSize, kerf))
            && (e.Out? ==> TabReach(e, tabSize, kerf) == tabSize + kerf / 2.0)
            && (!e.Out? ==> TabReach(e, tabSize, kerf) == -(tabSize - kerf / 2.0))
  {
    var margin := (len - tabSize) / 2.0;
    assert margin + tabSize == len - margin;
  }

  /** Horizontal neighbours interlock: when piece (r, c+1)'s left edge is the
      complement of piece (r, c)'s right tab, the two tabs cover the same
      stretch of the shared side, in opposite directions of travel, and their
      far sides differ by exactly the kerf (so they coincide when kerf = 0). */
  lemma RightLeftInterlock(r: int, c: int, e1: PieceEdges, e2: PieceEdges, w: real, h: real, tabSize: real, kerf: real, xOff: real, yOff: real)
    requires IsTab(e1.right) && e2.left == Opposite(e1.right)
    ensures var a := RightSide(r, c, e1, w, h, tabSize, kerf, xOff, yOff);
            var b := LeftSide(r, c + 1, e2, w, h, tabSize, kerf, xOff, yOff);
            && a[0] == b[3] && a[3] == b[0]
            && a[1].y == b[2].y && a[2].y == b[1].y
            && a[1].x == b[2].x + kerf && a[2].x == b[1].x + kerf
  {
    var sx := StartX(c, w, xOff);
    assert StartX(c + 1, w, xOff) == sx + w by {
      assert (c + 1) as real * w == c as real * w + w;
    }
  }

  /** Vertical neighbours interlock in the same way across the shared
      horizontal side of pieces (r, c) and (r+1, c). */
  lemma BottomTopInterlock(r: int, c: int, e1: PieceEdges, e2: PieceEdges, w: real, h: real, tabSize: real, kerf: real, xOff: real, yOff: real)
    requires IsTab(e1.bottom) && e2.top == Opposite(e1.bottom)
    ensures var a := BottomSide(r, c, e1, w, h, tabSize, kerf, xOff, yOff);
            var b := TopSide(r + 1, c, e2, w, h, tabSize, kerf, xOff, yOff);
            && a[0] == b[3] && a[3] == b[0]
            && a[1].x == b[2].x && a[2].x == b[1].x
            && a[1].y == b[2].y + kerf && a[2].y == b[1].y + kerf
  {
    var sy := StartY(r, h, yOff);
    assert StartY(r + 1, h, yOff) == sy + h by {
      assert (r + 1) as real * h == r as real * h + h;
    }
  }

  // Each side of the reference outline, written out in the piece's own
  // coordinates as both `piece_path` variants compute them.

  lemma TopSideCoordinates(r: int, c: int, e: PieceEdges, w: real, h: real, tabSize: real, kerf: real, xOff: real, yOff: real)
    ensures var sx, sy := StartX(c, w, xOff), StartY(r, h, yOff);
            var midLeft := sx + (w - tabSize) / 2.0;
            var midRight := midLeft + tabSize;
            TopSide(r, c, e, w, h, tabSize, kerf, xOff, yOff) ==
              if e.top.Flat? then [L(sx + w, sy)]
              else if e.top.Out? then
                [L(midLeft, sy), L(midLeft, sy - (tabSize + kerf / 2.0)),
                 L(midRight, sy - (tabSize + kerf / 2.0)), L(midRight, sy), L(sx + w, sy)]
              else
                [L(midLeft, sy), L(midLeft, sy + (tabSize - kerf / 2.0)),
                 L(midRight, sy + (tabSize - kerf / 2.0)), L(midRight, sy), L(sx + w, sy)]
  {
    var s := TopSide(r, c, e, w, h, tabSize, kerf, xOff, yOff);
    var sx, sy := StartX(c, w, xOff), StartY(r, h, yOff);
    var midLeft := sx + (w - tabSize) / 2.0;
    var midRight := midLeft + tabSize;
    if !e.top.Flat? {
      var d := TabReach(e.top, tabSize, kerf);
      assert s[0] == L(midLeft, sy) && s[3] == L(midRight, sy) && s[4] == L(sx + w, sy);
      assert s[1] == L(midLeft, sy - d) && s[2] == L(midRight, sy - d);
    }
  }

  lemma RightSideCoordinates(r: int, c: int, e: PieceEdges, w: real, h: real, tabSize: real, kerf: real, xOff: real, yOff: real)
    ensures var sx, sy := StartX(c, w, xOff), StartY(r, h, yOff);
            var midTop := sy + (h - tabSize) / 2.0;
            var midBottom := midTop + tabSize;
            RightSide(r, c, e, w, h, tabSize, kerf, xOff, yOff) ==
              if e.right.Flat? then [L(sx + w, sy + h)]
              else if e.right.Out? then
                [L(sx + w, midTop), L(sx + w + (tabSize + kerf / 2.0), midTop),
                 L(sx + w + (tabSize + kerf / 2.0), midBottom), L(sx + w, midBottom), L(sx + w, sy + h)]
              else
                [L(sx + w, midTop), L(sx + w - (tabSize - kerf / 2.0), midTop),
                 L(sx + w - (tabSize - kerf / 2.0), midBottom), L(sx + w, midBottom), L(sx + w, sy + h)]
  {
    var s := RightSide(r, c, e, w, h, tabSize, kerf, xOff, yOff);
    var sx, sy := StartX(c, w, xOff), StartY(r, h, yOff);
    var midTop := sy + (h - tabSize) / 2.0;
    var midBottom := midTop + tabSize;
    if !e.right.Flat? {
      var d := TabReach(e.right, tabSize, kerf);
      assert s[0] == L(sx + w, midTop) && s[3] == L(sx + w, midBottom) && s[4] == L(sx + w, sy + h);
      assert s[1] == L(sx + w + d, midTop) && s[2] == L(sx + w + d, midBottom);
    }
  }

  lemma BottomSideCoordinates(r: int, c: int, e: PieceEdges, w: real, h: real, tabSize: real, kerf: real, xOff: real, yOff: real)
    ensures var sx, sy := StartX(c, w, xOff), StartY(r, h, yOff);
            var midRight := sx + w - (w - tabSize) / 2.0;
            var midLeft := midRight - tabSize;
            BottomSide(r, c, e, w, h, tabSize, kerf, xOff, yOff) ==
              if e.bottom.Flat? then [L(sx, sy + h)]
              else if e.bottom.Out? then
                [L(midRight, sy + h), L(midRight, sy + h + (tabSize + kerf / 2.0)),
                 L(midLeft, sy + h + (tabSize + kerf / 2.0)), L(midLeft, sy + h), L(sx, sy + h)]
              else
                [L(midRight, sy + h), L(midRight, sy + h - (tabSize - kerf / 2.0)),
                 L(midLeft, sy + h - (tabSize - kerf / 2.0)), L(midLeft, sy + h), L(sx, sy + h)]
  {
    var s := BottomSide(r, c, e, w, h, tabSize, kerf, xOff, yOff);
    var sx, sy := StartX(c, w, xOff), StartY(r, h, yOff);
    var midRight := sx + w - (w - tabSize) / 2.0;
    var midLeft := midRight - tabSize;
    if !e.bottom.Flat? {
      var d := TabReach(e.bottom, tabSize, kerf);
      assert s[0] == L(midRight, sy + h) && s[3] == L(midLeft, sy + h) && s[4] == L(sx, sy + h);
      assert s[1] == L(midRight, sy + h + d) && s[2] == L(midLeft, sy + h + d);
    }
  }

  lemma LeftSideCoordinates(r: int, c: int, e: PieceEdges, w: real, h: real, tabSize: real, kerf: real, xOff: real, yOff: real)
    ensures var sx, sy := StartX(c, w, xOff), StartY(r, h, yOff);
            var midBottom := sy + h - (h - tabSize) / 2.0;
            var midTop := midBottom - tabSize;
            LeftSide(r, c, e, w, h, tabSize, kerf, xOff, yOff) ==
              if e.left.Flat? then [L(sx, sy)]
              else if e.left.Out? then
                [L(sx, midBottom), L(sx - (tabSize + kerf / 2.0), midBottom),
                 L(sx - (tabSize + kerf / 2.0), midTop), L(sx, midTop), L(sx, sy)]
              else
                [L(sx, midBottom), L(sx + (tabSize - kerf / 2.0), midBottom),
                 L(sx + (tabSize - kerf / 2.0), midTop), L(sx, midTop), L(sx, sy)]
  {
    var s := LeftSide(r, c, e, w, h, tabSize, kerf, xOff, yOff);
    var sx, sy := StartX(c, w, xOff), StartY(r, h, yOff);
    var midBottom := sy + h - (h - tabSize) / 2.0;
    var midTop := midBottom - tabSize;
    if !e.left.Flat? {
      var d := TabReach(e.left, tabSize, kerf);
      assert s[0] == L(sx, midBottom) && s[3] == L(sx, midTop) && s[4] == L(sx, sy);
      assert s[1] == L(sx - d, midBottom) && s[2] == L(sx - d, midTop);
    }
  }
}

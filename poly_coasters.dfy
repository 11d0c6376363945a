/** Regular n-gon ring coasters (puzzleshape.py): the placement check, the
    staggered grid placement, and the colouring of overlaps in the
    separated drawing together with the decision to draw a mirrored copy. */
module PolyCoasters {
  import opened Oracle
  import opened Geometry
  import opened Constraints
  import opened Layout

  /** `check_coaster_constraints(cand, existing, n_sides, outer_r, inner_r,
      tol, overlap_thr)` for n-gon rings: admissibility with the ring's
      outer vertices and the vertices of the separately built inner
      polygon. */
  method CheckCoasterConstraints(g: Shapes, cand: Placement, existing: seq<Placement>, tol: real, thr: real)
    returns (ok: bool)
    ensures ok <==> Admissible(g, cand, existing, g.ringExterior(cand), g.holeExterior(cand), tol, thr)
  {
    var outerPts := g.ringExterior(cand);
    var innerPts := g.holeExterior(cand);
    ok := Check(g, cand, existing, outerPts, innerPts, tol, thr);
  }

  /** The rotations a random shared angle is chosen from, in degrees. */
  const RotatedAngles: seq<int> := [15, 30, 45, 60, 75]

  /** How much neighbouring coasters overlap at their corners. */
  const OverlapRatio: real := 0.37

  /** The grid step as a multiple of the coaster's size: 1.5 for squares,
      1.8 for every other number of sides. */
  function StepFactor(nSides: int): real
  {
    if nSides == 4 then 1.5 else 1.8
  }

  /** The angle every coaster gets: the first random draw among the rotated
      angles when rotation is asked for with "y", otherwise none. */
  function SharedAngle(rotationFlag: string, rng: Random): (a: int)
    ensures rotationFlag != "y" ==> a == 0
    ensures rotationFlag == "y" ==> a in RotatedAngles
  {
    if rotationFlag == "y" then Choice(rng, 0, RotatedAngles) else 0
  }

  /** The centre of the grid cell at row r, column c: one step per column,
      one step per row, odd rows shifted right by half a step. */
  function CellCentre(r: nat, c: nat, margin: real, stepX: real, stepY: real, angle: int): Placement
  {
    Placement(margin + c as real * stepX + (if r % 2 == 1 then stepX / 2.0 else 0.0),
              margin + r as real * stepY,
              angle)
  }

  /** Entry k of the staggered grid: the cell at row k / cols, column
      k % cols. */
  function StaggeredAt(k: nat, cols: nat, margin: real, stepX: real, stepY: real, angle: int): Placement
    requires cols > 0
  {
    CellCentre(k / cols, k % cols, margin, stepX, stepY, angle)
  }

  /** `calculate_coaster_centers(n_sides, num_coasters, rotation_flag,
      outer_w, outer_h, margin, max_retries)`: `num_coasters` placements on
      the staggered grid in row-major order, all with one angle (the
      retry bound is not used). */
  method CalculateCoasterCenters(nSides: int, numCoasters: int, rotationFlag: string, outerW: real, outerH: real,
                                 margin: real, maxRetries: int, rng: Random)
    returns (res: Result<seq<Placement>>)
    ensures numCoasters < 0 ==> res == Err(DomainError)
    ensures numCoasters == 0 ==> res == Err(ZeroDivision)
    ensures numCoasters > 0 ==>
              && res.Ok? && |res.value| == numCoasters
              && forall k :: 0 <= k < numCoasters ==>
                   res.value[k] == StaggeredAt(k, CeilSqrt(numCoasters), margin,
                                               StepFactor(nSides) * outerW * (1.0 - OverlapRatio),
                                               StepFactor(nSides) * outerH * (1.0 - OverlapRatio),
                                               SharedAngle(rotationFlag, rng))
  {
    var centers: seq<Placement> := [];
    var stepX: real, stepY: real;
    if nSides < 5 {
      stepX := 1.7 * outerW * (1.0 - OverlapRatio);
      stepY := 1.7 * outerH * (1.0 - OverlapRatio);
    }
    if nSides == 4 {
      stepX := 1.5 * outerW * (1.0 - OverlapRatio);
      stepY := 1.5 * outerH * (1.0 - OverlapRatio);
    } else {
      stepX := 1.8 * outerW * (1.0 - OverlapRatio);
      stepY := 1.8 * outerH * (1.0 - OverlapRatio);
    }

    var grid := GridFor(numCoasters);
    if grid.Err? {
      return Err(grid.error);
    }
    var rows, cols := grid.value.rows, grid.value.cols;
    var n: nat := numCoasters;

    var angle: int;
    if rotationFlag == "y" {
      angle := Choice(rng, 0, RotatedAngles);
    } else {
      angle := 0;
    }

    var idx := 0;
    for r := 0 to rows
      invariant idx == |centers| == if r * cols < n then r * cols else n
      invariant forall k :: 0 <= k < |centers| ==> centers[k] == StaggeredAt(k, cols, margin, stepX, stepY, angle)
    {
      centers, idx := StaggeredRow(n, cols, r, margin, stepX, stepY, angle, centers, idx);
    }
    return Ok(centers);
  }

  /** Row r of the grid loop: one placement per cell of the row, unless
      `num_coasters` are placed already. */
  method StaggeredRow(n: nat, cols: nat, r: nat, margin: real, stepX: real, stepY: real, angle: int,
                      centers0: seq<Placement>, idx0: nat)
    returns (centers: seq<Placement>, idx: nat)
    requires cols > 0
    requires idx0 == |centers0| == if r * cols < n then r * cols else n
    requires forall k :: 0 <= k < |centers0| ==> centers0[k] == StaggeredAt(k, cols, margin, stepX, stepY, angle)
    ensures idx == |centers| == if (r + 1) * cols < n then (r + 1) * cols else n
    ensures forall k :: 0 <= k < |centers| ==> centers[k] == StaggeredAt(k, cols, margin, stepX, stepY, angle)
    ensures |centers0| <= |centers| && centers[..|centers0|] == centers0
  {
    centers, idx := centers0, idx0;
    for c := 0 to cols
      invariant idx == |centers| == if r * cols + c < n then r * cols + c else n
      invariant |centers0| <= |centers| && centers[..|centers0|] == centers0
      invariant forall k :: 0 <= k < |centers| ==> centers[k] == StaggeredAt(k, cols, margin, stepX, stepY, angle)
    {
      if idx >= n {
        break;
      }
      var offsetX := if r % 2 == 1 then stepX / 2.0 else 0.0;
      var cx := margin + c as real * stepX + offsetX;
      var cy := margin + r as real * stepY;
      assert idx == r * cols + c;
      StaggeredCell(r, c, cols, margin, stepX, stepY, angle);
      centers := centers + [Placement(cx, cy, angle)];
      idx := idx + 1;
    }
    assert (r + 1) * cols == r * cols + cols;
  }

  /** The entry visited at row r, column c is that cell's centre. */
  lemma StaggeredCell(r: nat, c: nat, cols: nat, margin: real, stepX: real, stepY: real, angle: int)
    requires c < cols
    ensures StaggeredAt(r * cols + c, cols, margin, stepX, stepY, angle) == CellCentre(r, c, margin, stepX, stepY, angle)
  {
    RowMajor(r, c, cols);
  }

  /** The entry one row below lies one step lower and half a step to the
      side: to the right below an even row, to the left below an odd one. */
  lemma StaggeredBelow(r: nat, c: nat, cols: nat, margin: real, stepX: real, stepY: real, angle: int)
    requires c < cols
    ensures var here := StaggeredAt(r * cols + c, cols, margin, stepX, stepY, angle);
            var below := StaggeredAt((r + 1) * cols + c, cols, margin, stepX, stepY, angle);
            && below.cy == here.cy + stepY
            && below.cx == here.cx + (if r % 2 == 1 then -stepX / 2.0 else stepX / 2.0)
  {
    StaggeredCell(r, c, cols, margin, stepX, stepY, angle);
    StaggeredCell(r + 1, c, cols, margin, stepX, stepY, angle);
    CellBelow(r, c, margin, stepX, stepY, angle);
  }

  /** The cell below a cell is one step lower and half a step to the side. */
  lemma CellBelow(r: nat, c: nat, margin: real, stepX: real, stepY: real, angle: int)
    ensures CellCentre(r + 1, c, margin, stepX, stepY, angle).cy == CellCentre(r, c, margin, stepX, stepY, angle).cy + stepY
    ensures CellCentre(r + 1, c, margin, stepX, stepY, angle).cx
            == CellCentre(r, c, margin, stepX, stepY, angle).cx + (if r % 2 == 1 then -stepX / 2.0 else stepX / 2.0)
  {
    var y: real := r as real;
    assert (r + 1) as real == y + 1.0;
    assert (y + 1.0) * stepY == y * stepY + stepY;
    assert (r + 1) % 2 == 1 <==> r % 2 == 0;
  }

  /** The next entry of a row lies one step to the right at the same
      height. */
  lemma StaggeredNext(r: nat, c: nat, cols: nat, margin: real, stepX: real, stepY: real, angle: int)
    requires c + 1 < cols
    ensures var here := StaggeredAt(r * cols + c, cols, margin, stepX, stepY, angle);
            var next := StaggeredAt(r * cols + (c + 1), cols, margin, stepX, stepY, angle);
            next.cx == here.cx + stepX && next.cy == here.cy
  {
    StaggeredCell(r, c, cols, margin, stepX, stepY, angle);
    StaggeredCell(r, c + 1, cols, margin, stepX, stepY, angle);
    CellNext(r, c, margin, stepX, stepY, angle);
  }

  /** The cell to the right of a cell is one step further right. */
  lemma CellNext(r: nat, c: nat, margin: real, stepX: real, stepY: real, angle: int)
    ensures CellCentre(r, c + 1, margin, stepX, stepY, angle).cx == CellCentre(r, c, margin, stepX, stepY, angle).cx + stepX
    ensures CellCentre(r, c + 1, margin, stepX, stepY, angle).cy == CellCentre(r, c, margin, stepX, stepY, angle).cy
  {
    var x: real := c as real;
    assert (c + 1) as real == x + 1.0;
    assert (x + 1.0) * stepX == x * stepX + stepX;
  }

  /** The colour an overlap is drawn in, in the separated drawing. */
  datatype Colour = Blue | Red

  /** Piece `other` overlaps the piece being drawn, in the given colour. */
  datatype Overlap = Overlap(other: nat, colour: Colour)

  /** `ov` is the overlap list of piece idx among n pieces: one entry for
      every other piece whose ring meets it, in index order, blue exactly
      when the other piece comes earlier. `meets(i, j)` says whether the
      intersection of ring j with ring i, both moved into ring i's drawing
      position, is non-empty. */
  predicate IsOverlapList(n: nat, idx: nat, meets: (nat, nat) -> bool, ov: seq<Overlap>)
  {
    && (forall i :: 0 <= i < |ov| ==>
          ov[i].other < n && ov[i].other != idx && meets(idx, ov[i].other)
          && (ov[i].colour == Blue <==> idx > ov[i].other))
    && (forall i, j :: 0 <= i < j < |ov| ==> ov[i].other < ov[j].other)
    && (forall j :: 0 <= j < n && j != idx && meets(idx, j) ==> exists i :: 0 <= i < |ov| && ov[i].other == j)
  }

  /** The overlap loop of `generate_individual_svg`: for every piece, every
      other piece whose ring meets it, coloured blue when its own index is
      the greater, red otherwise. */
  method ClassifyOverlaps(n: nat, meets: (nat, nat) -> bool) returns (overlapsList: seq<seq<Overlap>>)
    ensures |overlapsList| == n
    ensures forall idx :: 0 <= idx < n ==> IsOverlapList(n, idx, meets, overlapsList[idx])
  {
    overlapsList := [];
    for idx := 0 to n
      invariant |overlapsList| == idx
      invariant forall i :: 0 <= i < idx ==> IsOverlapList(n, i, meets, overlapsList[i])
    {
      var overlaps := OverlapsOf(n, idx, meets);
      overlapsList := overlapsList + [overlaps];
    }
  }

  /** The inner loop over the other pieces, for piece idx. */
  method OverlapsOf(n: nat, idx: nat, meets: (nat, nat) -> bool) returns (overlaps: seq<Overlap>)
    ensures IsOverlapList(n, idx, meets, overlaps)
  {
    overlaps := [];
    for jdx := 0 to n
      invariant forall i :: 0 <= i < |overlaps| ==>
                  overlaps[i].other < jdx && overlaps[i].other != idx && meets(idx, overlaps[i].other)
                  && (overlaps[i].colour == Blue <==> idx > overlaps[i].other)
      invariant forall i, j :: 0 <= i < j < |overlaps| ==> overlaps[i].other < overlaps[j].other
      invariant forall j :: 0 <= j < jdx && j != idx && meets(idx, j) ==>
                  exists i :: 0 <= i < |overlaps| && overlaps[i].other == j
    {
      if jdx == idx {
        continue;
      }
      if !meets(idx, jdx) {
        continue;
      }
      var colour := if idx > jdx then Blue else Red;
      ghost var before := overlaps;
      overlaps := overlaps + [Overlap(jdx, colour)];
      assert forall i :: 0 <= i < |before| ==> overlaps[i] == before[i];
      assert overlaps[|overlaps| - 1].other == jdx;
    }
  }

  /** `any(color == "blue" ...)`: whether the mirrored copy is drawn. */
  predicate DrawsMirror(ov: seq<Overlap>)
  {
    exists i :: 0 <= i < |ov| && ov[i].colour == Blue
  }

  /** A piece's mirrored copy is drawn exactly when its ring meets the ring
      of some earlier piece; in particular never for the first piece. */
  lemma MirrorIffEarlierOverlap(n: nat, idx: nat, meets: (nat, nat) -> bool, ov: seq<Overlap>)
    requires IsOverlapList(n, idx, meets, ov)
    ensures DrawsMirror(ov) <==> exists j :: 0 <= j < idx && j < n && meets(idx, j)
  {
    if DrawsMirror(ov) {
      var i :| 0 <= i < |ov| && ov[i].colour == Blue;
      assert ov[i].other < idx && meets(idx, ov[i].other);
    }
    if j :| 0 <= j < idx && j < n && meets(idx, j) {
      var i :| 0 <= i < |ov| && ov[i].other == j;
      assert ov[i].colour == Blue;
    }
  }

  /** Of two distinct pieces whose rings meet each other, exactly one draws
      the shared overlap in blue: the later one. */
  lemma PairColouredOnce(n: nat, meets: (nat, nat) -> bool, ovI: seq<Overlap>, ovJ: seq<Overlap>, i: nat, j: nat)
    requires i < n && j < n && i != j && meets(i, j) && meets(j, i)
    requires IsOverlapList(n, i, meets, ovI) && IsOverlapList(n, j, meets, ovJ)
    ensures exists a, b :: 0 <= a < |ovI| && 0 <= b < |ovJ| && ovI[a].other == j && ovJ[b].other == i
              && (ovI[a].colour == Blue <==> ovJ[b].colour == Red)
              && (ovI[a].colour == Blue <==> i > j)
  {
    var a :| 0 <= a < |ovI| && ovI[a].other == j;
    var b :| 0 <= b < |ovJ| && ovJ[b].other == i;
  }
}

/** Rectangular ring coasters (new_puzzle_costers.py): the placement check
    and the jittered grid placement with retries and a fallback. */
module RectCoasters {
  import opened Oracle
  import opened Geometry
  import opened Constraints
  import opened Layout

  /** The rotations a coaster may take, in degrees. */
  const AllowedAngles: seq<int> := [0, 15, 30, 45]

  /** The check's default tolerance and significant-overlap area, which is
      also the threshold of the placement's own extra overlap count. */
  const Tol: real := 0.5
  const OverlapThreshold: real := 1.0

  /** The candidate's inner vertices: the coordinates of the ring's first
      hole when the ring has one, none otherwise. */
  function InnerPts(g: Shapes, cand: Placement): seq<Point>
  {
    if |g.ringInteriors(cand)| > 0 then g.ringInteriors(cand)[0] else []
  }

  /** `check_coaster_constraints(candidate_spec, existing_specs, ...)` for
      rectangular rings: admissibility with the ring's outer vertices and
      its hole's vertices. */
  method CheckCoasterConstraints(g: Shapes, cand: Placement, existing: seq<Placement>, tol: real, thr: real)
    returns (ok: bool)
    ensures ok <==> Admissible(g, cand, existing, g.ringExterior(cand), InnerPts(g, cand), tol, thr)
  {
    var outerPts := g.ringExterior(cand);
    var innerPts: seq<Point> := [];
    if |g.ringInteriors(cand)| > 0 {
      innerPts := g.ringInteriors(cand)[0];
    }
    ok := Check(g, cand, existing, outerPts, innerPts, tol, thr);
  }

  /** A ring without a hole is never accepted: it has no inner vertex to
      share a gap with. */
  lemma HolelessRejected(g: Shapes, cand: Placement, existing: seq<Placement>, tol: real, thr: real)
    requires |g.ringInteriors(cand)| == 0
    ensures !Admissible(g, cand, existing, g.ringExterior(cand), InnerPts(g, cand), tol, thr)
  {
    NoInnerVerticesRejects(g, cand, existing, g.ringExterior(cand), tol, thr);
  }

  /** What the placement loop accepts: anything as the first coaster,
      afterwards only candidates passing the check with its defaults. */
  predicate Accepts(g: Shapes, cand: Placement, placed: seq<Placement>)
  {
    |placed| == 0 || Admissible(g, cand, placed, g.ringExterior(cand), InnerPts(g, cand), Tol, OverlapThreshold)
  }

  /** The extra overlap count the placement loop makes after a passing
      check never rejects: the check already bounds the same count, of the
      same rings, at the same threshold. */
  lemma ExtraCountRedundant(g: Shapes, cand: Placement, placed: seq<Placement>, e: nat)
    requires e <= |placed|
    requires Admissible(g, cand, placed, g.ringExterior(cand), InnerPts(g, cand), Tol, OverlapThreshold)
    ensures OverlapCount(g, cand, placed[..e], OverlapThreshold) < 2
  {
    CountOfPrefix(g, cand, placed, OverlapThreshold, e);
  }

  /** Attempt a of a slot whose first draw is `first`: three draws, the x
      and y offsets within the jitter bounds and an allowed angle. */
  function Attempt(rng: Random, first: nat, a: nat, idealX: real, idealY: real, maxOffX: real, maxOffY: real): Placement
  {
    var d := first + 3 * a;
    Placement(idealX + Uniform(rng, d, -maxOffX, maxOffX),
              idealY + Uniform(rng, d + 1, -maxOffY, maxOffY),
              Choice(rng, d + 2, AllowedAngles))
  }

  /** How one slot was filled: the index of its first draw, the number of
      attempts made, and whether an attempt was accepted. */
  datatype Slot = Slot(first: nat, tries: nat, accepted: bool)

  /** The index of the next unused draw after a slot: three per attempt,
      one more for the fallback angle. */
  function End(t: Slot): nat
  {
    t.first + 3 * t.tries + (if t.accepted then 0 else 1)
  }

  function MaxZero(x: int): nat { if x > 0 then x else 0 }

  /** Placement p filled a slot as `t` records: every attempt before the
      last was rejected against the coasters already placed; either the
      last attempt was accepted and p is it, or all `max_retries` attempts
      were rejected and p is the cell's ideal centre with a freshly drawn
      angle. */
  predicate SlotFilled(g: Shapes, rng: Random, placed: seq<Placement>, p: Placement, t: Slot,
                       idealX: real, idealY: real, maxOffX: real, maxOffY: real, maxRetries: int)
  {
    && t.tries <= MaxZero(maxRetries)
    && (forall a: nat :: a < t.tries - (if t.accepted then 1 else 0) ==>
          !Accepts(g, Attempt(rng, t.first, a, idealX, idealY, maxOffX, maxOffY), placed))
    && (t.accepted ==>
          t.tries >= 1 && p == Attempt(rng, t.first, t.tries - 1, idealX, idealY, maxOffX, maxOffY)
          && Accepts(g, p, placed))
    && (!t.accepted ==>
          t.tries == MaxZero(maxRetries) && p == Placement(idealX, idealY, Choice(rng, End(t) - 1, AllowedAngles)))
  }

  /** The centre of grid cell k (row-major, `cols` columns) of size
      cellW by cellH, the grid starting at (margin, margin). */
  function IdealX(k: nat, cols: nat, margin: real, cellW: real): real
    requires cols > 0
  {
    margin + (k % cols) as real * cellW + cellW / 2.0
  }
  function IdealY(k: nat, cols: nat, margin: real, cellH: real): real
    requires cols > 0
  {
    margin + (k / cols) as real * cellH + cellH / 2.0
  }

  /** Entry k of a run filled grid cell k as slot k records, against
      entries 0..k-1, and slot k started drawing where slot k-1 stopped. */
  predicate SlotAt(g: Shapes, rng: Random, cs: seq<Placement>, trace: seq<Slot>, k: nat,
                   cols: nat, margin: real, cellW: real, cellH: real, maxRetries: int)
    requires cols > 0 && k < |cs| && |trace| == |cs|
  {
    && SlotFilled(g, rng, cs[..k], cs[k], trace[k], IdealX(k, cols, margin, cellW), IdealY(k, cols, margin, cellH),
                  cellW * 0.5, cellH * 0.5, maxRetries)
    && trace[k].first == if k == 0 then 0 else End(trace[k - 1])
  }

  /** A run of the placement: every entry is as its slot records. */
  predicate Placed(g: Shapes, rng: Random, cs: seq<Placement>, trace: seq<Slot>,
                   cols: nat, margin: real, cellW: real, cellH: real, maxRetries: int)
    requires cols > 0
  {
    && |trace| == |cs|
    && forall k: nat :: k < |cs| ==> SlotAt(g, rng, cs, trace, k, cols, margin, cellW, cellH, maxRetries)
  }

  /** The retry loop for one grid cell: up to `max_retries` jittered
      candidates, the first accepted one kept, else the ideal centre. */
  method PlaceOne(g: Shapes, rng: Random, placed: seq<Placement>, idealX: real, idealY: real,
                  maxOffX: real, maxOffY: real, maxRetries: int, d0: nat)
    returns (p: Placement, t: Slot, d: nat)
    ensures SlotFilled(g, rng, placed, p, t, idealX, idealY, maxOffX, maxOffY, maxRetries)
    ensures t.first == d0 && d == End(t)
  {
    var valid := false;
    var retries: nat := 0;
    var cand := Placement(idealX, idealY, 0);
    d := d0;
    while !valid && retries < maxRetries
      invariant retries <= MaxZero(maxRetries)
      invariant d == d0 + 3 * retries
      invariant valid ==> retries >= 1 && cand == Attempt(rng, d0, retries - 1, idealX, idealY, maxOffX, maxOffY)
                          && Accepts(g, cand, placed)
      invariant forall a: nat :: a < retries - (if valid then 1 else 0) ==>
                  !Accepts(g, Attempt(rng, d0, a, idealX, idealY, maxOffX, maxOffY), placed)
      decreases maxRetries - retries
    {
      var offsetX := Uniform(rng, d, -maxOffX, maxOffX);
      var offsetY := Uniform(rng, d + 1, -maxOffY, maxOffY);
      var cx := idealX + offsetX;
      var cy := idealY + offsetY;
      var angle := Choice(rng, d + 2, AllowedAngles);
      d := d + 3;
      cand := Placement(cx, cy, angle);
      assert cand == Attempt(rng, d0, retries, idealX, idealY, maxOffX, maxOffY);
      if |placed| == 0 {
        valid := true;
      } else {
        var passes := CheckCoasterConstraints(g, cand, placed, Tol, OverlapThreshold);
        if passes {
          // the extra overlap count, at the check's own threshold
          var overlapCount := 0;
          for e := 0 to |placed|
            invariant overlapCount == OverlapCount(g, cand, placed[..e], OverlapThreshold)
          {
            assert placed[..e + 1][..e] == placed[..e];
            if g.interArea(cand, placed[e]) > 1.0 {
              overlapCount := overlapCount + 1;
            }
            ExtraCountRedundant(g, cand, placed, e + 1);
            if overlapCount >= 2 {
              break;
            }
          }
          ExtraCountRedundant(g, cand, placed, |placed|);
          assert placed[..|placed|] == placed;
          if overlapCount < 2 {
            valid := true;
          }
        }
      }
      retries := retries + 1;
    }
    if valid {
      p := cand;
    } else {
      p := Placement(idealX, idealY, Choice(rng, d, AllowedAngles));
      d := d + 1;
    }
    t := Slot(d0, retries, valid);
  }

  /** `calculate_coaster_centers(num_coasters, outer_w, outer_h, margin,
      max_retries)`: one placement per grid cell in row-major order until
      there are `num_coasters` of them; the grid computation fails for a
      count of 0 or less. The ghost `trace` records how each slot was
      filled. */
  method CalculateCoasterCenters(g: Shapes, rng: Random, numCoasters: int, outerW: real, outerH: real,
                                 margin: real, maxRetries: int)
    returns (res: Result<seq<Placement>>, ghost trace: seq<Slot>)
    ensures numCoasters < 0 ==> res == Err(DomainError)
    ensures numCoasters == 0 ==> res == Err(ZeroDivision)
    ensures numCoasters > 0 ==>
              && res.Ok? && |res.value| == numCoasters
              && Placed(g, rng, res.value, trace, CeilSqrt(numCoasters), margin, outerW * 0.9, outerH * 0.9, maxRetries)
  {
    var grid := GridFor(numCoasters);
    if grid.Err? {
      return Err(grid.error), [];
    }
    var rows, cols := grid.value.rows, grid.value.cols;
    var n: nat := numCoasters;
    var centers: seq<Placement> := [];
    trace := [];
    var cellW := outerW * 0.9;
    var cellH := outerH * 0.9;
    var maxOffsetX := cellW * 0.5;
    var maxOffsetY := cellH * 0.5;
    var d: nat := 0;
    for r := 0 to rows
      invariant |centers| == if r * cols < n then r * cols else n
      invariant Placed(g, rng, centers, trace, cols, margin, cellW, cellH, maxRetries)
      invariant d == if |trace| == 0 then 0 else End(trace[|trace| - 1])
    {
      centers, trace, d := PlaceRow(g, rng, n, cols, r, margin, cellW, cellH, maxOffsetX, maxOffsetY,
                                    maxRetries, centers, trace, d);
    }
    return Ok(centers), trace;
  }

  /** Row r of the grid loop: each cell of the row places one coaster,
      unless `num_coasters` are placed already. */
  method PlaceRow(g: Shapes, rng: Random, n: nat, cols: nat, r: nat, margin: real,
                  cellW: real, cellH: real, maxOffsetX: real, maxOffsetY: real, maxRetries: int,
                  centers0: seq<Placement>, ghost trace0: seq<Slot>, d0: nat)
    returns (centers: seq<Placement>, ghost trace: seq<Slot>, d: nat)
    requires cols > 0 && maxOffsetX == cellW * 0.5 && maxOffsetY == cellH * 0.5
    requires |centers0| == if r * cols < n then r * cols else n
    requires Placed(g, rng, centers0, trace0, cols, margin, cellW, cellH, maxRetries)
    requires d0 == if |trace0| == 0 then 0 else End(trace0[|trace0| - 1])
    ensures |centers| == if (r + 1) * cols < n then (r + 1) * cols else n
    ensures Placed(g, rng, centers, trace, cols, margin, cellW, cellH, maxRetries)
    ensures d == if |trace| == 0 then 0 else End(trace[|trace| - 1])
    ensures |centers0| <= |centers| && centers[..|centers0|] == centers0
    ensures |trace0| <= |trace| && trace[..|trace0|] == trace0
  {
    centers, trace, d := centers0, trace0, d0;
    var startX, startY := margin, margin;
    for c := 0 to cols
      invariant |centers| == if r * cols + c < n then r * cols + c else n
      invariant |centers0| <= |centers| && centers[..|centers0|] == centers0
      invariant |trace0| <= |trace| && trace[..|trace0|] == trace0
      invariant Placed(g, rng, centers, trace, cols, margin, cellW, cellH, maxRetries)
      invariant d == if |trace| == 0 then 0 else End(trace[|trace| - 1])
    {
      if |centers| >= n {
        break;
      }
      var cellX := startX + c as real * cellW;
      var cellY := startY + r as real * cellH;
      var idealCx := cellX + cellW / 2.0;
      var idealCy := cellY + cellH / 2.0;
      var k := |centers|;
      RowMajor(r, c, cols);
      assert idealCx == IdealX(k, cols, margin, cellW) && idealCy == IdealY(k, cols, margin, cellH);
      var p, t, d' := PlaceOne(g, rng, centers, idealCx, idealCy, maxOffsetX, maxOffsetY, maxRetries, d);
      AppendSlot(g, rng, centers, trace, p, t, cols, margin, cellW, cellH, maxRetries);
      centers := centers + [p];
      trace := trace + [t];
      d := d';
    }
    assert (r + 1) * cols == r * cols + cols;
  }

  /** Extending a run by one slot filled at the next cell, starting where
      the run's draws stopped, is again a run. */
  lemma AppendSlot(g: Shapes, rng: Random, cs: seq<Placement>, trace: seq<Slot>, p: Placement, t: Slot,
                   cols: nat, margin: real, cellW: real, cellH: real, maxRetries: int)
    requires cols > 0
    requires Placed(g, rng, cs, trace, cols, margin, cellW, cellH, maxRetries)
    requires SlotFilled(g, rng, cs, p, t, IdealX(|cs|, cols, margin, cellW), IdealY(|cs|, cols, margin, cellH),
                        cellW * 0.5, cellH * 0.5, maxRetries)
    requires t.first == if |trace| == 0 then 0 else End(trace[|trace| - 1])
    ensures Placed(g, rng, cs + [p], trace + [t], cols, margin, cellW, cellH, maxRetries)
  {
    var cs', trace' := cs + [p], trace + [t];
    forall k: nat | k < |cs'|
      ensures SlotAt(g, rng, cs', trace', k, cols, margin, cellW, cellH, maxRetries)
    {
      if k < |cs| {
        assert SlotAt(g, rng, cs, trace, k, cols, margin, cellW, cellH, maxRetries);
        assert cs'[..k] == cs[..k];
      } else {
        assert cs'[..k] == cs;
      }
    }
  }

  /** The first coaster is kept on its first try (when any try is allowed):
      it is the first jittered candidate, drawn from the first three
      draws. */
  lemma FirstAcceptedAtOnce(g: Shapes, rng: Random, cs: seq<Placement>, trace: seq<Slot>,
                            cols: nat, margin: real, cellW: real, cellH: real, maxRetries: int)
    requires cols > 0 && |cs| > 0 && maxRetries >= 1
    requires Placed(g, rng, cs, trace, cols, margin, cellW, cellH, maxRetries)
    ensures trace[0] == Slot(0, 1, true)
    ensures cs[0] == Attempt(rng, 0, 0, IdealX(0, cols, margin, cellW), IdealY(0, cols, margin, cellH), cellW * 0.5, cellH * 0.5)
  {
    var t := trace[0];
    assert SlotAt(g, rng, cs, trace, 0, cols, margin, cellW, cellH, maxRetries);
    assert cs[..0] == [];
    if !t.accepted {
      assert t.tries >= 1;
      assert Accepts(g, Attempt(rng, t.first, 0, IdealX(0, cols, margin, cellW), IdealY(0, cols, margin, cellH),
                                cellW * 0.5, cellH * 0.5), cs[..0]);
    } else if t.tries > 1 {
      assert Accepts(g, Attempt(rng, t.first, 0, IdealX(0, cols, margin, cellW), IdealY(0, cols, margin, cellH),
                                cellW * 0.5, cellH * 0.5), cs[..0]);
    }
  }

  /** Every entry has an allowed angle and lies within half a cell (0.45
      of the coaster's size) of its cell's centre in each direction; a
      fallback entry lies exactly on it. */
  lemma EntriesNearTheirCells(g: Shapes, rng: Random, cs: seq<Placement>, trace: seq<Slot>,
                              cols: nat, margin: real, cellW: real, cellH: real, maxRetries: int, k: nat)
    requires cols > 0 && k < |cs|
    requires Placed(g, rng, cs, trace, cols, margin, cellW, cellH, maxRetries)
    ensures cs[k].angle in AllowedAngles
    ensures Abs(cs[k].cx - IdealX(k, cols, margin, cellW)) <= Abs(cellW * 0.5)
    ensures Abs(cs[k].cy - IdealY(k, cols, margin, cellH)) <= Abs(cellH * 0.5)
    ensures !trace[k].accepted ==> cs[k].cx == IdealX(k, cols, margin, cellW) && cs[k].cy == IdealY(k, cols, margin, cellH)
  {
    var t := trace[k];
    assert SlotAt(g, rng, cs, trace, k, cols, margin, cellW, cellH, maxRetries);
    if t.accepted {
      var d := t.first + 3 * (t.tries - 1);
      UniformSymmetricBound(rng, d, cellW * 0.5);
      UniformSymmetricBound(rng, d + 1, cellH * 0.5);
    }
  }
}

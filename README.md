# Puzzle coasters, modelled in Dafny

This project models the core logic of a small Python code base that lays out laser-cut coasters. There are two families of coaster:

- **Jigsaw pieces** (`puzzle_coasters-1.py`, `puzzle_coasters.py`):
  - `opposite_edge` complements an edge kind: 'in', 'out' or 'none'.
  - `define_edges` sweeps a rows × cols grid in row-major order. It decides every right and bottom edge, either at random or always 'out'. It sets every top and left edge to the complement of the edge its neighbour has already decided.
  - `piece_path` draws one piece's outline: a move, one or five lines per edge, and a close. Its tab depth is corrected for the laser's kerf in the newer variant.
- **Ring coasters**, rectangular (`new_puzzle_costers.py`) and regular n-gons (`puzzleshape.py`):
  - `check_coaster_constraints` accepts a candidate placement when three things hold:
    - it shares a gap with some placed coaster;
    - none of its vertices is in or near a placed ring;
    - fewer than two placed rings overlap it significantly.
  - `calculate_coaster_centers` places n coasters on a ⌈√n⌉-column grid:
    - the rectangular variant jitters each candidate at random, with retries and a fallback to the cell's centre;
    - the n-gon variant uses a deterministic staggered grid.
  - The separated drawing colours each overlap blue or red and decides whether to draw a mirrored copy of a piece.

Modules:

- `Oracle`: the random source as an injected oracle. Call k of the random module reads entry k.
- `Jigsaw`: edge kinds, `Opposite`, outline commands, and a reference outline described side by side in each side's own frame.
- `KerfPuzzle` and `PlainPuzzle`: the two jigsaw generators.
- `Geometry`: placements and the abstract shape operations.
- `Constraints`: the placement rule shared by both coaster programs.
- `Layout`: the grid size and its error cases.
- `RectCoasters` and `PolyCoasters`: the two coaster programs.

Geometry that the programs take from their geometry library is passed in as the function-valued fields of a `Shapes` value. This covers vertex lists, containment, distance to a boundary and intersection area.

In the n-gon placement, the 1.7 step factor for fewer than five sides is always overwritten by the if/else that follows it. The model keeps this as written: the step factor is 1.5 for four sides and 1.8 otherwise.

## Model

| member | source | states |
|---|---|---|
| Jigsaw.Opposite | puzzle_coasters-1.py:5-17 | the complement is a tab exactly when the edge is one; 'none' and any other value map to 'none' |
| Jigsaw.OppositeInvolution | puzzle_coasters.py:4-10 | on 'in' and 'out' the complement differs from the edge and undoes itself |
| Jigsaw.OutlineShape | puzzle_coasters-1.py:97-197 | an outline opens with M at the piece's corner and closes with Z; its length is 2 plus 1 per flat edge and 5 per tab edge; each side ends on the next corner of the box, and the last line returns to the start |
| Jigsaw.TabCentred | puzzle_coasters-1.py:109-123 | a tab is centred on its side, `tab_size` wide, and reaches `tab_size + kerf/2` out for 'out' and `tab_size - kerf/2` in for any other tab kind |
| Jigsaw.RightLeftInterlock | puzzle_coasters-1.py:127-194 | a right tab and the complementary left edge of the next piece cover the same stretch of the shared side, and their far sides differ by exactly the kerf |
| Jigsaw.BottomTopInterlock | puzzle_coasters-1.py:104-171 | the same for a bottom tab and the complementary top edge of the piece below |
| Jigsaw.TopSideCoordinates | puzzle_coasters-1.py:104-125 | the reference top side, in the piece's own coordinates: one line for 'none', otherwise the five tab points at depth `tab_size ± kerf/2` |
| Jigsaw.RightSideCoordinates | puzzle_coasters-1.py:127-148 | the same for the right side |
| Jigsaw.BottomSideCoordinates | puzzle_coasters-1.py:150-171 | the same for the bottom side, traversed right to left |
| Jigsaw.LeftSideCoordinates | puzzle_coasters-1.py:173-194 | the same for the left side, traversed bottom to top |
| KerfPuzzle.DrawsOrdered | puzzle_coasters-1.py:56-72 | every random draw a cell makes comes before any draw of a later cell, so each random edge has a draw of its own |
| KerfPuzzle.Swept | puzzle_coasters-1.py:39-72 | the map is `rows` rows of `cols` cells, and each cell's right and bottom edges are its own decisions while its top and left edges complement its neighbours' |
| KerfPuzzle.SweptInterlocks | puzzle_coasters-1.py:42-72 | every sweep is a valid jigsaw: boundary edges are 'none', interior right and bottom edges are tabs, and shared edges are complements; without randomizing, interior right and bottom edges are 'out' and interior top and left edges are 'in' |
| KerfPuzzle.DefineEdges | puzzle_coasters-1.py:20-73 | the in-place sweep over the grid returns exactly the swept map |
| KerfPuzzle.SweepRow | puzzle_coasters-1.py:43-72 | one pass over row r fills that row with its swept cells, keeps the swept rows above, leaves the rows below untouched, and leaves the draw count where the next row starts |
| KerfPuzzle.DecideCell | puzzle_coasters-1.py:44-72 | given finished neighbours above and to the left, the cell's four edges are its swept cell, and exactly its own draws are consumed |
| KerfPuzzle.PiecePath | puzzle_coasters-1.py:76-198 | the appended commands are exactly the reference outline with the given kerf |
| PlainPuzzle.Fixed | puzzle_coasters.py:19-43 | the fixed map has `rows` rows of `cols` cells, tabs pointing right and down |
| PlainPuzzle.DefineEdges | puzzle_coasters.py:13-45 | the in-place sweep returns exactly the fixed map |
| PlainPuzzle.FixedIsUnrandomizedSweep | puzzle_coasters.py:22-43 | the fixed map is what the randomizing sweep produces when not randomizing, for any random source, so it is a valid jigsaw |
| PlainPuzzle.PiecePath | puzzle_coasters.py:48-153 | the outline is the reference outline with kerf 0, so tabs reach exactly `tab_size` |
| Oracle.Choice | new_puzzle_costers.py:367 | a random choice is always an element of the list it chooses from |
| Oracle.UniformSymmetricBound | new_puzzle_costers.py:363-364 | a draw of `uniform(-m, m)` lies within \|m\| of zero |
| Constraints.Check | new_puzzle_costers.py:140-192 | the three flag loops, with their early exits, answer true exactly when the candidate shares a gap, keeps its vertices clear, and has fewer than two significant overlaps |
| Constraints.CountOfPrefix | new_puzzle_costers.py:180-190 | the overlap count of a prefix of the placed coasters never exceeds the whole list's |
| Constraints.CountOrderIndependent | new_puzzle_costers.py:182-187 | the overlap count depends only on the multiset of placed coasters |
| Constraints.AdmissibleOrderIndependent | new_puzzle_costers.py:141-192 | admissibility does not depend on the order of the placed coasters |
| Constraints.NothingPlacedRejects | new_puzzle_costers.py:141-156 | with nothing placed, no candidate is admissible |
| Constraints.NoInnerVerticesRejects | new_puzzle_costers.py:145-152 | a candidate without inner vertices never shares a gap |
| Constraints.TwoOverlapsReject | new_puzzle_costers.py:180-190 | two placed coasters that both overlap the candidate by more than the threshold make it inadmissible |
| Constraints.CloseVertexRejects | new_puzzle_costers.py:160-175 | a candidate vertex inside a placed ring, or nearer than `tol` to its boundary, makes the candidate inadmissible |
| Layout.CeilSqrt | new_puzzle_costers.py:343 | the result is the least r with r·r ≥ n |
| Layout.GridFor | new_puzzle_costers.py:343-344 | a negative count is a domain error and a count of 0 a division by zero; otherwise there is at least one column, ⌈√n⌉ of them, room for every coaster, and at most one partly filled row |
| Layout.RowMajor | new_puzzle_costers.py:352-357 | cell (r, c) is entry r·cols + c of the row-major order, and the entry's row and column are recovered by division and remainder |
| RectCoasters.CheckCoasterConstraints | new_puzzle_costers.py:114-192 | the rectangle check answers exactly admissibility, with the ring's outer vertices and the vertices of its first hole, or none when it has no hole |
| RectCoasters.HolelessRejected | new_puzzle_costers.py:131-138 | a ring without a hole is never accepted |
| RectCoasters.ExtraCountRedundant | new_puzzle_costers.py:375-386 | after a passing check, the extra overlap count stays below two on every prefix, so it never rejects a candidate |
| RectCoasters.PlaceOne | new_puzzle_costers.py:358-391 | the retry loop makes at most `max_retries` attempts and rejects every attempt but the last; it keeps the first accepted one, or else falls back to the cell centre with a fresh angle, consuming three draws per attempt and one for the fallback |
| RectCoasters.CalculateCoasterCenters | new_puzzle_costers.py:331-392 | errors for a count of 0 or less; otherwise exactly n placements in row-major cell order, each filled by its slot's retry loop against the entries before it, with every slot's draws continuing where the previous slot's stopped |
| RectCoasters.PlaceRow | new_puzzle_costers.py:353-391 | one row of the grid appends one placement per cell until n are placed, keeping the run's invariant; the entries and slots already there stay unchanged as a prefix |
| RectCoasters.AppendSlot | new_puzzle_costers.py:388-391 | appending a slot filled at the next cell extends a valid run without changing earlier entries |
| RectCoasters.FirstAcceptedAtOnce | new_puzzle_costers.py:369-370 | the first coaster is the first jittered candidate, accepted on its first try |
| RectCoasters.EntriesNearTheirCells | new_puzzle_costers.py:345-391 | every entry has an allowed angle and lies within half a cell of its cell's centre in each direction; a fallback entry lies exactly on the centre |
| PolyCoasters.CheckCoasterConstraints | puzzleshape.py:91-136 | the n-gon check answers exactly admissibility, with the ring's outer vertices and the inner polygon's vertices |
| PolyCoasters.SharedAngle | puzzleshape.py:169-173 | the shared angle is 0 unless the flag is "y", and then one of 15, 30, 45, 60, 75 |
| PolyCoasters.CalculateCoasterCenters | puzzleshape.py:138-191 | errors for a count of 0 or less; otherwise exactly n placements, where entry k is the staggered cell at row k div cols, column k mod cols, with step factor 1.5 for squares and 1.8 otherwise, and one shared angle |
| PolyCoasters.StaggeredRow | puzzleshape.py:177-189 | one row of the grid appends the row's staggered cells until n are placed, leaving the earlier entries unchanged as a prefix |
| PolyCoasters.StaggeredCell | puzzleshape.py:182-186 | entry r·cols + c is placed at `margin + c·step_x` (plus half a step in odd rows), `margin + r·step_y` |
| PolyCoasters.StaggeredBelow | puzzleshape.py:182-186 | the entry one row below is one step lower and half a step to the right below an even row, or to the left below an odd one |
| PolyCoasters.StaggeredNext | puzzleshape.py:185-186 | the next entry of a row is one step to the right at the same height |
| PolyCoasters.ClassifyOverlaps | puzzleshape.py:243-266 | every piece gets its overlap list |
| PolyCoasters.OverlapsOf | puzzleshape.py:256-264 | the list has one entry for each other piece whose ring meets this one, in index order, and no entry for itself; each entry is blue exactly when this piece's index is the greater |
| PolyCoasters.MirrorIffEarlierOverlap | puzzleshape.py:290 | a mirrored copy is drawn exactly when the piece's ring meets an earlier piece's ring |
| PolyCoasters.PairColouredOnce | puzzleshape.py:263 | of two pieces whose rings meet, the later one colours the shared overlap blue and the earlier one red |

## Left out

- Geometry library: ring, hole and polygon construction, containment, distance, intersection, union, scaling and translation are the abstract fields of `Geometry.Shapes`. No property here depends on how they are computed. The dimensions that build the shapes (`outer_w`, `inner_w`, `n_sides`, `outer_r`, …) live inside the `Shapes` value, including the module-level `inner_w`/`inner_h` that the rectangle placement reads.
- Regular polygon vertices (sine and cosine) are left out; the vertex lists are abstract.
- SVG output is left out: text formatting of paths, canvas sizing and the drawing calls. `piece_path` yields a sequence of `M`/`L`/`Z` commands instead of the joined string.
- Input and printing in the script entry points are left out, as is the `print(n_sides)` in the n-gon placement.
- Floating point: coordinates and offsets are exact reals. `math.ceil(math.sqrt(n))` and `math.ceil(n / cols)` are computed exactly on integers. They could differ from the float computation only for counts far beyond any practical number of coasters.
- The random module is replaced by an oracle. Every call reads the next entry, so the model fixes which draw each edge and each attempt uses, but not the generator's distribution.
- KerfPuzzle.DefineEdges: the list of per-cell dictionaries is a local two-dimensional array of `PieceEdges` values. The four keys are the record's fields. Rows and columns are natural numbers; Python's empty result for negative sizes is not modelled.
- Constraints.Check: the rectangle variant's two separate `if`s for the vertex test (inside, or too near) are one disjunction. They break out of the loop identically.
- PolyCoasters.ClassifyOverlaps: each overlap records the other piece's index instead of the translated intersection region. `meets(i, j)` abstracts the test that the intersection of ring j with ring i, both moved to ring i's drawing position, is non-empty.
- PolyCoasters.CalculateCoasterCenters: `max_retries` is accepted and not used, as in the source.

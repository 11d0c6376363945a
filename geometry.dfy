/** The planar geometry the coaster programs take from their geometry
    library, kept abstract. A coaster placement is a centre and a rotation;
    everything the programs ask of the shapes placed there (vertex lists,
    containment, distance to a boundary, intersection area) is a field of a
    `Shapes` value, so no property proved here depends on how the library
    computes it. */
module Geometry {

  datatype Point = Point(x: real, y: real)

  /** A coaster specification `(cx, cy, angle)`: centre and rotation in
      whole degrees. */
  datatype Placement = Placement(cx: real, cy: real, angle: int)

  /** The shapes of one kind of coaster (its dimensions, and for n-gons its
      number of sides, are fixed inside), placed at a given placement:
      - `ringExterior(s)`, `ringInteriors(s)`: the coordinate lists of the
        ring's outer boundary and of its holes;
      - `holeExterior(s)`: the coordinate list of the separately built inner
        polygon (the hole as a solid shape);
      - `holeContains`, `holeBoundaryDist`: strict containment in that inner
        polygon and distance to its boundary;
      - `ringContains`, `ringBoundaryDist`: the same for the ring;
      - `interArea(s, t)`: the area of the intersection of the rings at s
        and t. */
  datatype Shapes = Shapes(
    ringExterior: Placement -> seq<Point>,
    ringInteriors: Placement -> seq<seq<Point>>,
    holeExterior: Placement -> seq<Point>,
    holeContains: (Placement, Point) -> bool,
    holeBoundaryDist: (Placement, Point) -> real,
    ringContains: (Placement, Point) -> bool,
    ringBoundaryDist: (Placement, Point) -> real,
    interArea: (Placement, Placement) -> real)
}

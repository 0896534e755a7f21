/**
 * The conversion of a position into integer cell coordinates. The source
 * computes a float and assigns it to an `int`, which truncates toward
 * zero; floats are modelled as exact reals.
 *
 * `recomputeParticleIndex` divides the offset coordinate by the cell size
 * 2 * r. `populateGrid` writes `(x + Width / 2) / 2 * r`, which C++ reads
 * as ((x + Width / 2) / 2) * r: it multiplies by r instead of dividing by
 * it. Both conversions are given here with what each does to a position.
 */
module CellCoords {
  import opened Geometry
  import opened CellIndex
  import opened Particles

  /** Float-to-int conversion in C++: truncation toward zero. */
  function Trunc(x: real): (r: int)
    ensures x >= 0.0 ==> 0 <= r && r as real <= x < r as real + 1.0
    ensures x < 0.0 ==> r <= 0 && r as real - 1.0 < x <= r as real
  {
    if x >= 0.0 then x.Floor else -((-x).Floor)
  }

  /** The cell along one axis of a coordinate shifted by `offset`, for cells of width `size`. */
  function AxisCell(p: real, offset: real, size: real): int
    requires size > 0.0
  {
    Trunc((p + offset) / size)
  }

  /**
   * The coordinates `recomputeParticleIndex` computes before clamping: x and
   * z shifted by half the domain's width and depth, cells of size 2 * r.
   */
  function CellOfPosition(position: Vec3, width: real, depth: real, r: real): Coord
    requires r > 0.0
  {
    Coord(AxisCell(position.x, width / 2.0, 2.0 * r),
          AxisCell(position.y, 0.0, 2.0 * r),
          AxisCell(position.z, depth / 2.0, 2.0 * r))
  }

  /** One axis of the conversion `populateGrid` performs, as written: divide by 2, then multiply by r. */
  function PopulateAxisAsWritten(p: real, offset: real, r: real): int
  {
    Trunc((p + offset) / 2.0 * r)
  }

  /** The coordinates `populateGrid` computes, as written. */
  function PopulateCellOfAsWritten(position: Vec3, width: real, depth: real, r: real): Coord
  {
    Coord(PopulateAxisAsWritten(position.x, width / 2.0, r),
          PopulateAxisAsWritten(position.y, 0.0, r),
          PopulateAxisAsWritten(position.z, depth / 2.0, r))
  }

  /**
   * A shifted coordinate in [0, n * size) falls into a cell 0 .. n-1 whose
   * extent contains it.
   */
  lemma AxisCellContains(p: real, offset: real, size: real, n: int)
    requires size > 0.0 && 0.0 <= p + offset < n as real * size
    ensures var c := AxisCell(p, offset, size);
      0 <= c < n && (c as real) * size <= p + offset < ((c + 1) as real) * size
  {
    var q := (p + offset) / size;
    var c := Trunc(q);
    assert p + offset == q * size;
    assert c as real <= q < c as real + 1.0;
    assert c as real * size <= q * size;
    var d := (c + 1) as real;
    assert d == c as real + 1.0;
    assert q < d;
    assert q * size < d * size;
    assert q < n as real;
    assert c == AxisCell(p, offset, size);
    assert p + offset < d * size;
  }

  /**
   * With the intended conversion, a position inside the domain maps to a
   * cell of the grid that contains it, on every axis.
   */
  lemma CellOfPositionInGrid(position: Vec3, width: real, depth: real, r: real, nx: int, ny: int, nz: int)
    requires r > 0.0
    requires 0.0 <= position.x + width / 2.0 < nx as real * (2.0 * r)
    requires 0.0 <= position.y < ny as real * (2.0 * r)
    requires 0.0 <= position.z + depth / 2.0 < nz as real * (2.0 * r)
    ensures InBounds(CellOfPosition(position, width, depth, r), nx, ny, nz)
  {
    AxisCellContains(position.x, width / 2.0, 2.0 * r, nx);
    AxisCellContains(position.y, 0.0, 2.0 * r, ny);
    AxisCellContains(position.z, depth / 2.0, 2.0 * r, nz);
  }

  /**
   * As written, any shifted coordinate below 2 / r gives cell 0: every
   * position of a domain narrower than 2 / r along an axis lands in the
   * first cell of that axis.
   */
  lemma PopulateAxisCollapses(p: real, offset: real, r: real)
    requires r > 0.0 && 0.0 <= p + offset && (p + offset) * r < 2.0
    ensures PopulateAxisAsWritten(p, offset, r) == 0
  {
    var q := (p + offset) / 2.0 * r;
    assert q == (p + offset) * r / 2.0;
    assert 0.0 <= q < 1.0;
  }

  /**
   * The solver's domain (width 4, depth 2, r = `Particle::Radius()`): a
   * particle at (0, 1, 0) belongs to cell (10, 5, 5), and the conversion
   * as written puts it into cell (0, 0, 0).
   */
  lemma PopulateAsWrittenMisplaces()
    ensures CellOfPosition(Vec3(0.0, 1.0, 0.0), 4.0, 2.0, Radius()) == Coord(10, 5, 5)
    ensures PopulateCellOfAsWritten(Vec3(0.0, 1.0, 0.0), 4.0, 2.0, Radius()) == Coord(0, 0, 0)
  {
    assert (0.0 + 4.0 / 2.0) / (2.0 * 0.1) == 10.0;
    assert (1.0 + 0.0) / (2.0 * 0.1) == 5.0;
    assert (0.0 + 2.0 / 2.0) / (2.0 * 0.1) == 5.0;
    PopulateAxisCollapses(0.0, 4.0 / 2.0, 0.1);
    PopulateAxisCollapses(1.0, 0.0, 0.1);
    PopulateAxisCollapses(0.0, 2.0 / 2.0, 0.1);
  }
}

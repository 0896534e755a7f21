/**
 * Integer index arithmetic of the uniform spatial grid: encoding a cell
 * coordinate (i, j, k) as a flat index, decoding it back with C++'s
 * truncating division, bounds checks, per-axis clamping and the 26-entry
 * neighbour table with -1 as the "outside the grid" sentinel.
 */
module CellIndex {

  /** A cell coordinate along the x, y and z axes. */
  datatype Coord = Coord(i: int, j: int, k: int)

  /** The axis a coordinate belongs to. */
  datatype Direction = X | Y | Z

  /** Marks a neighbour slot whose cell lies outside the grid. */
  const Outside: int := -1

  /** Number of neighbours of a cell (the 3x3x3 block minus the cell itself). */
  const NeighbourCount: int := 26

  // ---------------------------------------------------------------------
  // C++ integer division

  /**
   * Integer division as C++ performs it on `int`: the quotient is truncated
   * toward zero, so the remainder has the sign of the dividend.
   */
  function TDiv(a: int, b: int): (q: int)
    requires b > 0
    ensures a >= 0 ==> 0 <= a - q * b < b
    ensures a < 0 ==> -b < a - q * b <= 0
  {
    if a >= 0 then a / b else -((-a) / b)
  }

  /** A product of non-negative factors is non-negative. */
  lemma MulNonNegative(x: int, y: int)
    requires 0 <= x && 0 <= y
    ensures 0 <= x * y
  {
  }

  /** Multiplying by a positive factor preserves a strict order. */
  lemma MulStrict(x: int, y: int, b: int)
    requires x < y && b > 0
    ensures x * b + b <= y * b
  {
    MulNonNegative(y - x - 1, b);
    assert y * b == x * b + b + (y - x - 1) * b;
  }

  /** The quotient of a division is determined by the remainder's range. */
  lemma QuotientUnique(a: int, b: int, q: int, q': int)
    requires b > 0
    requires 0 <= a - q * b < b && 0 <= a - q' * b < b
    ensures q == q'
  {
    if q < q' {
      MulStrict(q, q', b);
    } else if q' < q {
      MulStrict(q', q, b);
    }
  }

  // ---------------------------------------------------------------------
  // Encoding and decoding

  /** Flat index of cell (i, j, k) in a grid with nx cells per row and ny rows per layer. */
  function IndexInGrid(i: int, j: int, k: int, nx: int, ny: int): int
  {
    i + j * nx + k * nx * ny
  }

  /** Decodes a flat index into (i, j, k), dividing as C++ does. */
  function GridFromIndex(index: int, nx: int, ny: int): Coord
    requires nx > 0 && ny > 0
  {
    var k := TDiv(index, nx * ny);
    var j := TDiv(index - k * nx * ny, nx);
    var i := index - j * nx - k * nx * ny;
    Coord(i, j, k)
  }

  /** Whether the coordinate lies inside an nx by ny by nz grid. */
  predicate InBounds(c: Coord, nx: int, ny: int, nz: int)
  {
    0 <= c.i < nx && 0 <= c.j < ny && 0 <= c.k < nz
  }

  /** `validIndex`: the decoded coordinate of `index` lies inside the grid. */
  predicate ValidIndex(index: int, nx: int, ny: int, nz: int)
    requires nx > 0 && ny > 0
  {
    InBounds(GridFromIndex(index, nx, ny), nx, ny, nz)
  }

  /** Decoding an encoded coordinate with column and row in range and a non-negative layer gives it back. */
  lemma DecodeEncode(i: int, j: int, k: int, nx: int, ny: int)
    requires nx > 0 && ny > 0
    requires 0 <= i < nx && 0 <= j < ny && 0 <= k
    ensures GridFromIndex(IndexInGrid(i, j, k, nx, ny), nx, ny) == Coord(i, j, k)
  {
    var index := IndexInGrid(i, j, k, nx, ny);
    var layer := nx * ny;
    assert 0 <= j * nx <= (ny - 1) * nx;
    assert 0 <= i + j * nx < layer;
    assert index - k * layer == i + j * nx;
    QuotientUnique(index, layer, k, TDiv(index, layer));
    assert TDiv(index - k * layer, nx) == j by {
      QuotientUnique(i + j * nx, nx, j, TDiv(i + j * nx, nx));
    }
  }

  /** Encoding the decoded coordinate of any index gives the index back. */
  lemma EncodeDecode(index: int, nx: int, ny: int)
    requires nx > 0 && ny > 0
    ensures var c := GridFromIndex(index, nx, ny); IndexInGrid(c.i, c.j, c.k, nx, ny) == index
  {
  }

  /** An in-bounds coordinate encodes to an index in [0, nx*ny*nz). */
  lemma EncodeInRange(i: int, j: int, k: int, nx: int, ny: int, nz: int)
    requires 0 <= i < nx && 0 <= j < ny && 0 <= k < nz
    ensures 0 <= IndexInGrid(i, j, k, nx, ny) < nx * ny * nz
  {
    assert 0 <= j * nx <= (ny - 1) * nx;
    assert 0 <= k * nx * ny <= (nz - 1) * (nx * ny);
    assert (nz - 1) * (nx * ny) + nx * ny == nx * ny * nz;
  }

  /**
   * `validIndex` holds exactly for the indices 0 .. nx*ny*nz-1, given C++'s
   * truncating division (negative indices decode to a negative coordinate).
   */
  lemma ValidIndexIff(index: int, nx: int, ny: int, nz: int)
    requires nx > 0 && ny > 0 && nz > 0
    ensures ValidIndex(index, nx, ny, nz) <==> 0 <= index < nx * ny * nz
  {
    var c := GridFromIndex(index, nx, ny);
    if 0 <= index < nx * ny * nz {
      InRangeIndexValid(index, nx, ny, nz);
    } else if index >= nx * ny * nz {
      EncodeInRangeConverse(c, index, nx, ny, nz);
    } else {
      NegativeIndexInvalid(index, nx, ny, nz);
    }
  }

  /** Quotient bounds: a quotient q with remainder in [0, b) of a value in [0, n*b) lies in [0, n). */
  lemma QuotientInRange(a: int, b: int, n: int, q: int)
    requires b > 0 && 0 <= a < n * b
    requires 0 <= a - q * b < b
    ensures 0 <= q < n
  {
    if q < 0 {
      MulStrict(q, 0, b);
    }
    if q >= n {
      if q > n { MulStrict(n, q, b); }
    }
  }

  /** A non-negative index decodes to a row and a column inside the layer. */
  lemma RowColumnInRange(index: int, nx: int, ny: int)
    requires nx > 0 && ny > 0 && index >= 0
    ensures 0 <= GridFromIndex(index, nx, ny).i < nx
    ensures 0 <= GridFromIndex(index, nx, ny).j < ny
  {
    var c := GridFromIndex(index, nx, ny);
    var layer := nx * ny;
    assert c.k * nx * ny == c.k * layer;
    var rest := index - c.k * layer;
    assert 0 <= rest < ny * nx;
    QuotientInRange(rest, nx, ny, c.j);
  }

  /** An index in [0, nx*ny*nz) decodes to a layer inside the grid. */
  lemma LayerInRange(index: int, nx: int, ny: int, nz: int)
    requires nx > 0 && ny > 0 && nz > 0
    requires 0 <= index < nx * ny * nz
    ensures 0 <= GridFromIndex(index, nx, ny).k < nz
  {
    var layer := nx * ny;
    assert nx * ny * nz == nz * layer;
    QuotientInRange(index, layer, nz, GridFromIndex(index, nx, ny).k);
  }

  /** Every index in [0, nx*ny*nz) decodes inside the grid. */
  lemma InRangeIndexValid(index: int, nx: int, ny: int, nz: int)
    requires nx > 0 && ny > 0 && nz > 0
    requires 0 <= index < nx * ny * nz
    ensures ValidIndex(index, nx, ny, nz)
  {
    RowColumnInRange(index, nx, ny);
    LayerInRange(index, nx, ny, nz);
  }

  /** An index at or past nx*ny*nz never decodes inside the grid. */
  lemma EncodeInRangeConverse(c: Coord, index: int, nx: int, ny: int, nz: int)
    requires nx > 0 && ny > 0
    requires c == GridFromIndex(index, nx, ny)
    requires index >= nx * ny * nz
    ensures !InBounds(c, nx, ny, nz)
  {
    EncodeDecode(index, nx, ny);
    if InBounds(c, nx, ny, nz) {
      EncodeInRange(c.i, c.j, c.k, nx, ny, nz);
    }
  }

  /** A negative index decodes to a coordinate with a negative component. */
  lemma NegativeIndexInvalid(index: int, nx: int, ny: int, nz: int)
    requires nx > 0 && ny > 0
    requires index < 0
    ensures !ValidIndex(index, nx, ny, nz)
  {
    var c := GridFromIndex(index, nx, ny);
    var layer := nx * ny;
    assert c.k <= 0;
    if c.k == 0 {
      assert index - c.k * layer == index;
      assert c.j <= 0;
      if c.j == 0 {
        assert c.i == index;
      }
    }
  }

  /** In particular the sentinel -1 is never a valid index. */
  lemma SentinelInvalid(nx: int, ny: int, nz: int)
    requires nx > 0 && ny > 0 && nz > 0
    ensures !ValidIndex(Outside, nx, ny, nz)
  {
    NegativeIndexInvalid(Outside, nx, ny, nz);
  }

  /**
   * `getValidIndexInGrid`: the flat index of (i, j, k) when it lies inside
   * the grid, the sentinel otherwise.
   */
  function ValidIndexInGrid(i: int, j: int, k: int, nx: int, ny: int, nz: int): (r: int)
    ensures r == Outside <==> !InBounds(Coord(i, j, k), nx, ny, nz)
    ensures r != Outside ==> 0 <= r < nx * ny * nz && r == IndexInGrid(i, j, k, nx, ny)
  {
    if i < 0 || i >= nx || j < 0 || j >= ny || k < 0 || k >= nz then
      Outside
    else
      EncodeInRange(i, j, k, nx, ny, nz);
      IndexInGrid(i, j, k, nx, ny)
  }

  // ---------------------------------------------------------------------
  // Clamping

  /** The number of cells along an axis. */
  function Extent(dir: Direction, nx: int, ny: int, nz: int): int
  {
    match dir
    case X => nx
    case Y => ny
    case Z => nz
  }

  /**
   * `fixIndex` on a value: first raise a negative coordinate to 0, then
   * lower one at or past the extent n to n - 1.
   */
  function Clamp(v: int, n: int): (r: int)
    ensures n > 0 ==> 0 <= r < n
    ensures 0 <= v < n ==> r == v
    ensures n > 0 && v < 0 ==> r == 0
    ensures n > 0 && v >= n ==> r == n - 1
  {
    var raised := if v < 0 then 0 else v;
    if raised >= n then n - 1 else raised
  }

  /** Clamping twice is clamping once. */
  lemma ClampIdempotent(v: int, n: int)
    requires n > 0
    ensures Clamp(Clamp(v, n), n) == Clamp(v, n)
  {
  }

  /** The flat index of a coordinate after clamping each axis into the grid. */
  function ClampedIndex(c: Coord, nx: int, ny: int, nz: int): (r: int)
    requires nx > 0 && ny > 0 && nz > 0
    ensures 0 <= r < nx * ny * nz
    ensures GridFromIndex(r, nx, ny) == Coord(Clamp(c.i, nx), Clamp(c.j, ny), Clamp(c.k, nz))
  {
    var i, j, k := Clamp(c.i, nx), Clamp(c.j, ny), Clamp(c.k, nz);
    EncodeInRange(i, j, k, nx, ny, nz);
    DecodeEncode(i, j, k, nx, ny);
    IndexInGrid(i, j, k, nx, ny)
  }

  // ---------------------------------------------------------------------
  // Neighbour offsets

  /**
   * The neighbour loop walks dx, dy, dz over -1, 0, 1 (dz fastest) and
   * skips (0, 0, 0). `Slot` is the table position the loop's counter has
   * reached when it arrives at (dx, dy, dz).
   */
  function Slot(dx: int, dy: int, dz: int): int
  {
    var p := 9 * (dx + 1) + 3 * (dy + 1) + (dz + 1);
    if p <= 13 then p else p - 1
  }

  /** Position in the 27-cell block of table slot n (slot 13 onwards skip the centre). */
  function Place(n: int): int
  {
    if n < 13 then n else n + 1
  }

  function OffX(n: int): int { Place(n) / 9 - 1 }
  function OffY(n: int): int { (Place(n) / 3) % 3 - 1 }
  function OffZ(n: int): int { Place(n) % 3 - 1 }

  /** Each slot holds a unit offset that is not (0, 0, 0), and `Slot` finds it again. */
  lemma OffsetOfSlot(n: int)
    requires 0 <= n < NeighbourCount
    ensures -1 <= OffX(n) <= 1 && -1 <= OffY(n) <= 1 && -1 <= OffZ(n) <= 1
    ensures !(OffX(n) == 0 && OffY(n) == 0 && OffZ(n) == 0)
    ensures Slot(OffX(n), OffY(n), OffZ(n)) == n
  {
    var p := Place(n);
    assert 0 <= p < 27 && p != 13;
    assert p == 9 * (p / 9) + 3 * ((p / 3) % 3) + p % 3;
  }

  /** The slot of a non-zero unit offset is in range and holds that offset. */
  lemma SlotOfOffset(dx: int, dy: int, dz: int)
    requires -1 <= dx <= 1 && -1 <= dy <= 1 && -1 <= dz <= 1
    requires !(dx == 0 && dy == 0 && dz == 0)
    ensures 0 <= Slot(dx, dy, dz) < NeighbourCount
    ensures OffX(Slot(dx, dy, dz)) == dx && OffY(Slot(dx, dy, dz)) == dy && OffZ(Slot(dx, dy, dz)) == dz
  {
    var p := 9 * (dx + 1) + 3 * (dy + 1) + (dz + 1);
    assert Place(Slot(dx, dy, dz)) == p;
    assert p / 9 == dx + 1;
    assert p / 3 == 3 * (dx + 1) + (dy + 1);
    assert p % 3 == dz + 1;
  }

  /** The coordinate reached from c through table slot n. */
  function Shifted(c: Coord, n: int): Coord
  {
    Coord(c.i + OffX(n), c.j + OffY(n), c.k + OffZ(n))
  }

  /** Slot n holds the valid index of the n-th coordinate around c, or the sentinel. */
  function TableAround(c: Coord, nx: int, ny: int, nz: int): (t: seq<int>)
    ensures |t| == NeighbourCount
  {
    seq(NeighbourCount, n => var s := Shifted(c, n); ValidIndexInGrid(s.i, s.j, s.k, nx, ny, nz))
  }

  /** The slot the neighbour loop fills at offset (dx, dy, dz) holds the index of c + (dx, dy, dz). */
  lemma TableAroundAt(c: Coord, nx: int, ny: int, nz: int, dx: int, dy: int, dz: int)
    requires -1 <= dx <= 1 && -1 <= dy <= 1 && -1 <= dz <= 1
    requires !(dx == 0 && dy == 0 && dz == 0)
    ensures 0 <= Slot(dx, dy, dz) < NeighbourCount
    ensures TableAround(c, nx, ny, nz)[Slot(dx, dy, dz)] == ValidIndexInGrid(c.i + dx, c.j + dy, c.k + dz, nx, ny, nz)
  {
    SlotOfOffset(dx, dy, dz);
    assert Shifted(c, Slot(dx, dy, dz)) == Coord(c.i + dx, c.j + dy, c.k + dz);
  }

  /**
   * `getIndexOfNeighbouringGrids` as a value: all sentinels for an index
   * outside [0, nx*ny*nz), otherwise slot n holds the valid index of the
   * n-th neighbouring coordinate or the sentinel.
   */
  function NeighbourTable(index: int, nx: int, ny: int, nz: int): (t: seq<int>)
    requires nx > 0 && ny > 0 && nz > 0
    ensures |t| == NeighbourCount
  {
    if index < 0 || index >= nx * ny * nz then
      seq(NeighbourCount, _ => Outside)
    else
      TableAround(GridFromIndex(index, nx, ny), nx, ny, nz)
  }

  /** The 26 tables `precomputeNeighbours` caches, one per cell. */
  function NeighbourTables(nx: int, ny: int, nz: int): (ts: seq<seq<int>>)
    requires nx > 0 && ny > 0 && nz > 0
    ensures |ts| == nx * ny * nz
    ensures forall index :: 0 <= index < nx * ny * nz ==> ts[index] == NeighbourTable(index, nx, ny, nz)
  {
    seq(nx * ny * nz, index => NeighbourTable(index, nx, ny, nz))
  }

  // ---------------------------------------------------------------------
  // Properties of the neighbour table

  /** An index outside the grid has only sentinels as neighbours. */
  lemma NeighboursOfOutsideIndex(index: int, nx: int, ny: int, nz: int)
    requires nx > 0 && ny > 0 && nz > 0
    requires index < 0 || index >= nx * ny * nz
    ensures forall n :: 0 <= n < NeighbourCount ==> NeighbourTable(index, nx, ny, nz)[n] == Outside
  {
  }

  /** The coordinate of an index inside the grid is in bounds. */
  lemma CoordOfValid(index: int, nx: int, ny: int, nz: int)
    requires nx > 0 && ny > 0 && nz > 0
    requires 0 <= index < nx * ny * nz
    ensures InBounds(GridFromIndex(index, nx, ny), nx, ny, nz)
  {
    ValidIndexIff(index, nx, ny, nz);
  }

  /** Two in-bounds coordinates with the same flat index are the same coordinate. */
  lemma EncodeInjective(a: Coord, b: Coord, nx: int, ny: int, nz: int)
    requires nx > 0 && ny > 0
    requires InBounds(a, nx, ny, nz) && InBounds(b, nx, ny, nz)
    requires IndexInGrid(a.i, a.j, a.k, nx, ny) == IndexInGrid(b.i, b.j, b.k, nx, ny)
    ensures a == b
  {
    DecodeEncode(a.i, a.j, a.k, nx, ny);
    DecodeEncode(b.i, b.j, b.k, nx, ny);
  }

  /**
   * Every slot of the table of a cell inside the grid is either the sentinel
   * or a valid index other than the cell itself.
   */
  lemma NeighbourEntry(index: int, nx: int, ny: int, nz: int, n: int)
    requires nx > 0 && ny > 0 && nz > 0
    requires 0 <= n < NeighbourCount
    ensures var e := NeighbourTable(index, nx, ny, nz)[n];
      e == Outside || (0 <= e < nx * ny * nz && e != index)
  {
    var e := NeighbourTable(index, nx, ny, nz)[n];
    if 0 <= index < nx * ny * nz && e != Outside {
      var c := GridFromIndex(index, nx, ny);
      var s := Shifted(c, n);
      CoordOfValid(index, nx, ny, nz);
      OffsetOfSlot(n);
      EncodeDecode(index, nx, ny);
      if e == index {
        EncodeInjective(s, c, nx, ny, nz);
      }
    }
  }

  /** Two different slots never name the same cell (sentinels aside). */
  lemma NeighboursDistinct(index: int, nx: int, ny: int, nz: int, n: int, m: int)
    requires nx > 0 && ny > 0 && nz > 0
    requires 0 <= n < NeighbourCount && 0 <= m < NeighbourCount && n != m
    ensures var t := NeighbourTable(index, nx, ny, nz);
      t[n] == Outside || t[n] != t[m]
  {
    var t := NeighbourTable(index, nx, ny, nz);
    if 0 <= index < nx * ny * nz && t[n] != Outside && t[n] == t[m] {
      var c := GridFromIndex(index, nx, ny);
      EncodeInjective(Shifted(c, n), Shifted(c, m), nx, ny, nz);
      OffsetOfSlot(n);
      OffsetOfSlot(m);
    }
  }

  /** A cell with room on every side has 26 valid, pairwise distinct neighbours. */
  lemma InteriorNeighbours(index: int, nx: int, ny: int, nz: int)
    requires nx > 0 && ny > 0 && nz > 0
    requires 0 <= index < nx * ny * nz
    requires var c := GridFromIndex(index, nx, ny);
      1 <= c.i < nx - 1 && 1 <= c.j < ny - 1 && 1 <= c.k < nz - 1
    ensures var t := NeighbourTable(index, nx, ny, nz);
      forall n :: 0 <= n < NeighbourCount ==> 0 <= t[n] < nx * ny * nz && t[n] != index
    ensures var t := NeighbourTable(index, nx, ny, nz);
      forall n, m :: 0 <= n < m < NeighbourCount ==> t[n] != t[m]
  {
    var t := NeighbourTable(index, nx, ny, nz);
    forall n | 0 <= n < NeighbourCount
      ensures 0 <= t[n] < nx * ny * nz && t[n] != index
    {
      OffsetOfSlot(n);
      NeighbourEntry(index, nx, ny, nz, n);
    }
    forall n, m | 0 <= n < m < NeighbourCount
      ensures t[n] != t[m]
    {
      NeighboursDistinct(index, nx, ny, nz, n, m);
    }
  }

  /**
   * Completeness: every other valid cell within one step of the cell along
   * each axis appears in its table.
   */
  lemma NeighboursComplete(index: int, other: int, nx: int, ny: int, nz: int)
    requires nx > 0 && ny > 0 && nz > 0
    requires 0 <= index < nx * ny * nz && 0 <= other < nx * ny * nz && other != index
    requires var a, b := GridFromIndex(index, nx, ny), GridFromIndex(other, nx, ny);
      -1 <= b.i - a.i <= 1 && -1 <= b.j - a.j <= 1 && -1 <= b.k - a.k <= 1
    ensures other in NeighbourTable(index, nx, ny, nz)
  {
    var a, b := GridFromIndex(index, nx, ny), GridFromIndex(other, nx, ny);
    var dx, dy, dz := b.i - a.i, b.j - a.j, b.k - a.k;
    EncodeDecode(index, nx, ny);
    EncodeDecode(other, nx, ny);
    SlotOfOffset(dx, dy, dz);
    CoordOfValid(other, nx, ny, nz);
    var n := Slot(dx, dy, dz);
    assert Shifted(a, n) == b;
    assert NeighbourTable(index, nx, ny, nz)[n] == other;
  }
}

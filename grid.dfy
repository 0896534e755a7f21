/**
 * The uniform spatial grid: nx * ny * nz cells, each a list of particle
 * ids, the cached neighbour tables, and the operations that place
 * particles into cells and move them between cells.
 *
 * The conversion of a particle's float position into truncated integer
 * cell coordinates is not modelled: `cellOf` is the conversion
 * `recomputeParticleIndex` performs ((x + Width/2)/size, y/size,
 * (z + Depth/2)/size truncated) and `populateCellOf` the one
 * `populateGrid` performs; both are supplied when the grid is built, as
 * are the cell counts derived from the domain's size.
 */
module Grids {
  import opened Geometry
  import opened CellIndex
  import opened CellLists
  import opened Particles

  /** The flat index of each particle's cell under a coordinate conversion, by slot. */
  function PlacementsOf(ps: seq<ParticleState>, cellOf: Vec3 -> Coord, nx: int, ny: int): (idx: seq<int>)
    ensures |idx| == |ps|
    ensures forall p :: 0 <= p < |ps| ==>
      idx[p] == IndexInGrid(cellOf(ps[p].position).i, cellOf(ps[p].position).j, cellOf(ps[p].position).k, nx, ny)
  {
    seq(|ps|, p requires 0 <= p < |ps| =>
      IndexInGrid(cellOf(ps[p].position).i, cellOf(ps[p].position).j, cellOf(ps[p].position).k, nx, ny))
  }

  /**
   * A neighbour table names existing cells or the sentinel, never the same
   * cell twice and, for a cell of the grid, never the cell itself: what
   * makes a candidate list free of repeated ids.
   */
  lemma TableSuitsCandidates(index: int, nx: int, ny: int, nz: int)
    requires nx > 0 && ny > 0 && nz > 0
    ensures EntriesFit(NeighbourTable(index, nx, ny, nz), nx * ny * nz)
    ensures EntriesDistinct(NeighbourTable(index, nx, ny, nz))
    ensures 0 <= index < nx * ny * nz ==> index !in NeighbourTable(index, nx, ny, nz)
  {
    var t := NeighbourTable(index, nx, ny, nz);
    forall n | 0 <= n < |t|
      ensures t[n] == Outside || (0 <= t[n] < nx * ny * nz && t[n] != index)
    {
      NeighbourEntry(index, nx, ny, nz, n);
    }
    forall n, m | 0 <= n < m < |t| && t[n] != Outside
      ensures t[n] != t[m]
    {
      NeighboursDistinct(index, nx, ny, nz, n, m);
    }
  }

  class Grid {
    var cells: seq<seq<int>>
    const nx: int
    const ny: int
    const nz: int
    const store: ParticleStore
    var neighbours: seq<seq<int>>
    const cellOf: Vec3 -> Coord
    const populateCellOf: Vec3 -> Coord

    /** The grid has at least one cell per axis and one list per cell. */
    ghost predicate Valid()
      reads this
    {
      nx > 0 && ny > 0 && nz > 0 && |cells| == nx * ny * nz
    }

    /** The first nx*ny*nz cached tables are the neighbour tables of the cells. */
    ghost predicate NeighboursCached()
      reads this
      requires nx > 0 && ny > 0 && nz > 0
    {
      |neighbours| >= nx * ny * nz &&
      forall index :: 0 <= index < nx * ny * nz ==> neighbours[index] == NeighbourTable(index, nx, ny, nz)
    }

    /** The cell `recomputeParticleIndex` assigns to a particle at `position`. */
    function TargetCell(position: Vec3): (r: int)
      requires nx > 0 && ny > 0 && nz > 0
      ensures 0 <= r < nx * ny * nz
    {
      ClampedIndex(cellOf(position), nx, ny, nz)
    }

    /** The cell `recomputeParticleIndex` assigns to each particle, by slot. */
    function TargetCells(ps: seq<ParticleState>): (t: seq<int>)
      requires nx > 0 && ny > 0 && nz > 0
      ensures |t| == |ps|
      ensures forall p :: 0 <= p < |ps| ==> t[p] == TargetCell(ps[p].position) && 0 <= t[p] < nx * ny * nz
    {
      seq(|ps|, p requires 0 <= p < |ps| => TargetCell(ps[p].position))
    }

    /** The cell `populateGrid` assigns to each particle, by slot. */
    function Placements(): seq<int>
      reads this, store
    {
      PlacementsOf(store.particles, populateCellOf, nx, ny)
    }

    /**
     * Builds the grid over the shared particles: the cell lists are sized
     * and populated, then the neighbour tables are cached.
     */
    constructor (nx: int, ny: int, nz: int, store: ParticleStore,
                 cellOf: Vec3 -> Coord, populateCellOf: Vec3 -> Coord)
      requires nx > 0 && ny > 0 && nz > 0
      requires PlacementsFit(PlacementsOf(store.particles, populateCellOf, nx, ny), nx * ny * nz)
      modifies store`particles
      ensures this.nx == nx && this.ny == ny && this.nz == nz && this.store == store
      ensures this.cellOf == cellOf && this.populateCellOf == populateCellOf
      ensures Valid() && neighbours == NeighbourTables(nx, ny, nz) && NeighboursCached()
      ensures var idx := old(PlacementsOf(store.particles, populateCellOf, nx, ny));
        cells == Populated(EmptyCells(nx * ny * nz), old(IdsOf(store.particles)), idx, |idx|) &&
        store.particles == WithGridIndices(old(store.particles), idx)
    {
      this.nx, this.ny, this.nz := nx, ny, nz;
      this.store := store;
      this.cellOf, this.populateCellOf := cellOf, populateCellOf;
      cells := [];
      neighbours := [];
      new;
      assert Resize([], nx * ny * nz) == EmptyCells(nx * ny * nz);
      PopulateGrid();
      PrecomputeNeighbours();
    }

    /** `precomputeNeighbours`: appends the table of every cell, in index order. */
    method PrecomputeNeighbours()
      requires nx > 0 && ny > 0 && nz > 0
      modifies this`neighbours
      ensures neighbours == old(neighbours) + NeighbourTables(nx, ny, nz)
      ensures old(neighbours) == [] ==> NeighboursCached()
    {
      var total := nx * ny * nz;
      var i := 0;
      while i < total
        invariant 0 <= i <= total
        invariant neighbours == old(neighbours) + NeighbourTables(nx, ny, nz)[..i]
      {
        var table := IndexOfNeighbouringGrids(i);
        neighbours := neighbours + [table];
        assert NeighbourTables(nx, ny, nz)[..i + 1] == NeighbourTables(nx, ny, nz)[..i] + [table];
        i := i + 1;
      }
      assert NeighbourTables(nx, ny, nz)[..total] == NeighbourTables(nx, ny, nz);
    }

    /** `getNeighbours`: a lookup in the cached tables, never a recomputation. */
    method GetNeighbours(index: int) returns (nb: seq<int>)
      requires nx > 0 && ny > 0 && nz > 0
      requires 0 <= index < |neighbours|
      ensures nb == neighbours[index]
      ensures NeighboursCached() && index < nx * ny * nz ==> nb == NeighbourTable(index, nx, ny, nz)
    {
      nb := neighbours[index];
    }

    /**
     * `fixIndex`: raises a negative coordinate to 0, then lowers one past
     * the axis's extent to the last cell.
     */
    method FixIndex(index: int, dir: Direction) returns (fixed: int)
      requires nx > 0 && ny > 0 && nz > 0
      ensures 0 <= fixed < Extent(dir, nx, ny, nz)
      ensures 0 <= index < Extent(dir, nx, ny, nz) ==> fixed == index
      ensures fixed == Clamp(index, Extent(dir, nx, ny, nz))
    {
      fixed := index;
      if fixed < 0 {
        fixed := 0;
      }
      if dir == X && fixed >= nx {
        fixed := nx - 1;
      }
      if dir == Y && fixed >= ny {
        fixed := ny - 1;
      }
      if dir == Z && fixed >= nz {
        fixed := nz - 1;
      }
    }

    /**
     * `recomputeParticleIndex`: computes the particle's clamped cell; when it
     * is `index`, nothing changes; otherwise the id leaves cell `index` (when
     * that is a valid cell), is appended to the new cell, and the particle's
     * cached index becomes the new cell. No other cell or particle changes.
     */
    method RecomputeParticleIndex(particleId: int, index: int)
      requires Valid()
      requires 0 <= particleId < |store.particles|
      modifies this`cells, store`particles
      ensures var newIndex := TargetCell(old(store.particles[particleId].position));
        if index == newIndex then
          cells == old(cells) && store.particles == old(store.particles)
        else
          cells == RecomputeCells(old(cells), particleId, index, newIndex) &&
          store.particles == old(store.particles)[particleId := old(store.particles[particleId]).(gridIndex := newIndex)]
      ensures var newIndex := TargetCell(old(store.particles[particleId].position));
        cells == RecomputeCells(old(cells), particleId, index, newIndex) &&
        (index == old(store.particles[particleId].gridIndex) ==>
          store.particles == old(store.particles)[particleId := old(store.particles[particleId]).(gridIndex := newIndex)])
    {
      var particle := store.particles[particleId];
      var c := cellOf(particle.position);
      var i := FixIndex(c.i, X);
      var j := FixIndex(c.j, Y);
      var k := FixIndex(c.k, Z);
      var newIndex := IndexInGrid(i, j, k, nx, ny);
      assert newIndex == TargetCell(particle.position);
      if index == newIndex {
        return;
      }
      ghost var before := cells;
      ValidIndexIff(index, nx, ny, nz);
      if ValidIndex(index, nx, ny, nz) {
        RemoveParticleFromGrid(particleId, index);
      }
      assert cells == if 0 <= index < |before| then before[index := RemoveFirst(before[index], particleId)] else before;
      cells := cells[newIndex := cells[newIndex] + [particleId]];
      assert cells == RecomputeCells(before, particleId, index, newIndex);
      var moved := new Particle.FromState(particle);
      moved.SetGridIndex(newIndex);
      store.particles := store.particles[particleId := moved.State()];
    }

    /**
     * `removeParticleFromGrid`: erases the first occurrence of the id from
     * one cell, keeping the order of the rest; absent ids change nothing.
     */
    method RemoveParticleFromGrid(particleId: int, index: int)
      requires 0 <= index < |cells|
      modifies this`cells
      ensures cells == old(cells)[index := RemoveFirst(old(cells[index]), particleId)]
      ensures particleId !in old(cells[index]) ==> cells == old(cells)
    {
      var list := cells[index];
      var i := 0;
      while i < |list|
        invariant 0 <= i <= |list|
        invariant forall m :: 0 <= m < i ==> list[m] != particleId
        invariant cells == old(cells)
      {
        if list[i] == particleId {
          RemoveFirstAt(list, particleId, i);
          cells := cells[index := list[..i] + list[i + 1..]];
          return;
        }
        i := i + 1;
      }
      assert cells == cells[index := list];
    }

    /** `inGrid`: whether the id is in the cell's list. */
    method InGrid(particleId: int, index: int) returns (found: bool)
      requires 0 <= index < |cells|
      ensures found <==> particleId in cells[index]
    {
      var i := 0;
      while i < |cells[index]|
        invariant 0 <= i <= |cells[index]|
        invariant particleId !in cells[index][..i]
      {
        if cells[index][i] == particleId {
          return true;
        }
        i := i + 1;
      }
      assert cells[index][..i] == cells[index];
      return false;
    }

    /**
     * `populateGrid`: resizes the lists to one per cell WITHOUT clearing
     * them, then for each particle appends its id to the cell its
     * `populateCellOf` coordinate encodes to (not clamped) and caches that
     * cell on the particle. Each computed cell must exist: the source
     * writes out of range otherwise.
     */
    method PopulateGrid()
      requires nx > 0 && ny > 0 && nz > 0
      requires PlacementsFit(Placements(), nx * ny * nz)
      modifies this`cells, store`particles
      ensures store.particles == WithGridIndices(old(store.particles), old(Placements()))
      ensures cells == Populated(Resize(old(cells), nx * ny * nz), old(IdsOf(store.particles)), old(Placements()), |store.particles|)
    {
      ghost var ps, ids, idx := store.particles, IdsOf(store.particles), Placements();
      var numCells := nx * ny * nz;
      cells := Resize(cells, numCells);
      var p := 0;
      while p < |store.particles|
        invariant 0 <= p <= |ps| && |store.particles| == |ps|
        invariant cells == Populated(Resize(old(cells), numCells), ids, idx, p)
        invariant store.particles == Progress(WithGridIndices(ps, idx), ps, p)
      {
        var particle := store.particles[p];
        var c := populateCellOf(particle.position);
        var index := IndexInGrid(c.i, c.j, c.k, nx, ny);
        assert index == idx[p] && particle.id == ids[p];
        cells := cells[index := cells[index] + [particle.id]];
        var placed := new Particle.FromState(particle);
        placed.SetGridIndex(index);
        store.particles := store.particles[p := placed.State()];
        assert store.particles == Progress(WithGridIndices(ps, idx), ps, p + 1);
        p := p + 1;
      }
      ProgressComplete(WithGridIndices(ps, idx), ps);
    }

    /**
     * `getIndexOfNeighbouringGrids`: all sentinels for an index outside the
     * grid, otherwise the table around the cell's coordinates.
     */
    method IndexOfNeighbouringGrids(index: int) returns (nb: seq<int>)
      requires nx > 0 && ny > 0 && nz > 0
      ensures nb == NeighbourTable(index, nx, ny, nz)
    {
      if index < 0 || index >= nx * ny * nz {
        nb := seq(NeighbourCount, _ => Outside);
        return;
      }
      var c := GridFromIndex(index, nx, ny);
      nb := NeighboursAround(c);
    }

    /**
     * The loop of `getIndexOfNeighbouringGrids`: starting from all
     * sentinels, slot by slot as dx, dy, dz run over -1, 0, 1 (dz fastest),
     * skipping the cell itself, the valid index of c + (dx, dy, dz).
     */
    method NeighboursAround(c: Coord) returns (nb: seq<int>)
      ensures nb == TableAround(c, nx, ny, nz)
    {
      nb := seq(NeighbourCount, _ => Outside);
      ghost var expected := TableAround(c, nx, ny, nz);
      var count := 0;
      var dx := -1;
      while dx <= 1
        invariant -1 <= dx <= 2
        invariant count == Slot(dx, -1, -1)
        invariant |nb| == NeighbourCount
        invariant forall n :: 0 <= n < count ==> nb[n] == expected[n]
      {
        var dy := -1;
        while dy <= 1
          invariant -1 <= dy <= 2
          invariant count == Slot(dx, dy, -1)
          invariant |nb| == NeighbourCount
          invariant forall n :: 0 <= n < count ==> nb[n] == expected[n]
        {
          var dz := -1;
          while dz <= 1
            invariant -1 <= dz <= 2
            invariant count == Slot(dx, dy, dz)
            invariant |nb| == NeighbourCount
            invariant forall n :: 0 <= n < count ==> nb[n] == expected[n]
          {
            if !(dx == 0 && dy == 0 && dz == 0) {
              TableAroundAt(c, nx, ny, nz, dx, dy, dz);
              nb := nb[count := ValidIndexInGrid(c.i + dx, c.j + dy, c.k + dz, nx, ny, nz)];
              count := count + 1;
            }
            dz := dz + 1;
          }
          dy := dy + 1;
        }
        dx := dx + 1;
      }
    }
  }
}

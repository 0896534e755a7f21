/**
 * The solver's orchestration: the pause state machine, id assignment when
 * particles are spawned or added, the re-bucketing pass of `update`, and
 * the candidate lists and pair loop of the particle-collision pass. The
 * float physics (plane and pair collision responses) is not modelled: the
 * collision pass yields the id pairs it would hand to the response.
 */
module Solver {
  import opened Geometry
  import opened CellIndex
  import opened CellLists
  import opened Particles
  import opened Grids

  /** Particles created per `spawnParticles` call. */
  const SpawnBatch: int := 100

  /** The radius given to every spawned particle. */
  const SpawnRadius: real := 0.05

  /** A batch of fresh particles at the given positions, numbered on from `first`. */
  function Spawned(positions: seq<Vec3>, first: int): (r: seq<ParticleState>)
    ensures |r| == |positions|
    ensures forall k :: 0 <= k < |positions| ==> r[k] == Initial(positions[k], SpawnRadius, first + k)
  {
    seq(|positions|, k requires 0 <= k < |positions| => Initial(positions[k], SpawnRadius, first + k))
  }

  /**
   * The cell lists after the loop of `update` has handled the first n
   * particles: particle p leaves the cell its cached index names (as
   * `render` left it) for cell targets[p].
   */
  function Rebucketed(cells: seq<seq<int>>, ps: seq<ParticleState>, targets: seq<int>, n: nat): (r: seq<seq<int>>)
    requires n <= |ps| == |targets|
    ensures |r| == |cells|
  {
    if n == 0 then cells
    else
      var before := Rebucketed(cells, ps, targets, n - 1);
      if 0 <= targets[n - 1] < |before| then RecomputeCells(before, ps[n - 1].id, ps[n - 1].gridIndex, targets[n - 1])
      else before
  }

  /**
   * Re-bucketing keeps the membership invariant: if every particle sat in
   * the cell its cached index names, then after n rounds the first n sit
   * in their target cells and the rest where they were, each once.
   */
  lemma {:induction false} RebucketedMembership(cells: seq<seq<int>>, ps: seq<ParticleState>, targets: seq<int>, n: nat)
    requires n <= |ps| == |targets|
    requires forall p :: 0 <= p < |targets| ==> 0 <= targets[p] < |cells|
    requires forall p :: 0 <= p < |ps| ==> ps[p].id == p
    requires Membership(cells, GridIndicesOf(ps))
    ensures Membership(Rebucketed(cells, ps, targets, n), targets[..n] + GridIndicesOf(ps)[n..])
  {
    if n == 0 {
      assert targets[..0] + GridIndicesOf(ps)[0..] == GridIndicesOf(ps);
    } else {
      var home := targets[..n - 1] + GridIndicesOf(ps)[n - 1..];
      RebucketedMembership(cells, ps, targets, n - 1);
      assert home[n - 1] == ps[n - 1].gridIndex;
      RecomputePreservesMembership(Rebucketed(cells, ps, targets, n - 1), home, n - 1, targets[n - 1]);
      assert home[n - 1 := targets[n - 1]] == targets[..n] + GridIndicesOf(ps)[n..];
    }
  }

  /**
   * The loop of `update` keeps the membership invariant: over particles
   * whose ids are their slots, once every particle has been re-bucketed,
   * each sits once in its target cell and in no other.
   */
  lemma UpdateKeepsMembership(cells: seq<seq<int>>, ps: seq<ParticleState>, targets: seq<int>)
    requires |ps| == |targets|
    requires forall p :: 0 <= p < |targets| ==> 0 <= targets[p] < |cells|
    requires forall p :: 0 <= p < |ps| ==> ps[p].id == p
    requires Membership(cells, GridIndicesOf(ps))
    ensures Membership(Rebucketed(cells, ps, targets, |ps|), targets)
  {
    RebucketedMembership(cells, ps, targets, |ps|);
    assert targets[..|ps|] + GridIndicesOf(ps)[|ps|..] == targets[..|ps|] + [] == targets;
  }

  /**
   * What the collision pass of `update` may do to the particles: the plane
   * and pair responses rewrite positions and velocities, of paused
   * particles too, and leave every other field and the order as they are.
   */
  predicate CollisionOutcome(before: seq<ParticleState>, after: seq<ParticleState>)
  {
    && |after| == |before|
    && forall p :: 0 <= p < |before| ==>
         after[p] == before[p].(position := after[p].position, velocity := after[p].velocity)
  }

  /** The ids of the position pairs of a candidate list, in the order given. */
  function PairIds(candidates: seq<int>, pairs: seq<(int, int)>): (ids: seq<(int, int)>)
    requires forall k :: 0 <= k < |pairs| ==> 0 <= pairs[k].0 < |candidates| && 0 <= pairs[k].1 < |candidates|
    ensures |ids| == |pairs|
    ensures forall k :: 0 <= k < |pairs| ==> ids[k] == (candidates[pairs[k].0], candidates[pairs[k].1])
  {
    seq(|pairs|, k requires 0 <= k < |pairs| => (candidates[pairs[k].0], candidates[pairs[k].1]))
  }

  /** The candidate list the collision pass builds for one cell. */
  function CellCandidates(cells: seq<seq<int>>, nx: int, ny: int, nz: int, index: int): seq<int>
    requires nx > 0 && ny > 0 && nz > 0 && |cells| == nx * ny * nz
    requires 0 <= index < |cells|
  {
    TableSuitsCandidates(index, nx, ny, nz);
    Candidates(cells, index, NeighbourTable(index, nx, ny, nz))
  }

  /** The id pairs the pair loop has examined when it reaches position pair (i, j). */
  function PairsUpTo(candidates: seq<int>, i: int, j: int): seq<(int, int)>
    requires 0 <= i <= |candidates| && j <= |candidates|
  {
    PairsBelowBounds(|candidates|, i);
    RowShape(i, j);
    PairIds(candidates, PairsBelow(|candidates|, i) + Row(i, j))
  }

  /** The id pairs the pair loop examines in one candidate list. */
  function CellPairs(candidates: seq<int>): seq<(int, int)>
  {
    PairsBelowBounds(|candidates|, |candidates|);
    PairIds(candidates, PairsBelow(|candidates|, |candidates|))
  }

  /** Appending one position pair appends its id pair. */
  lemma PairIdsSnoc(candidates: seq<int>, pairs: seq<(int, int)>, x: (int, int))
    requires forall k :: 0 <= k < |pairs| ==> 0 <= pairs[k].0 < |candidates| && 0 <= pairs[k].1 < |candidates|
    requires 0 <= x.0 < |candidates| && 0 <= x.1 < |candidates|
    ensures PairIds(candidates, pairs + [x]) == PairIds(candidates, pairs) + [(candidates[x.0], candidates[x.1])]
  {
  }

  /** One step of the inner loop: position pair (i, j) is examined next. */
  lemma PairsUpToStep(candidates: seq<int>, i: int, j: int)
    requires 0 <= i < |candidates| && i + 1 <= j < |candidates|
    ensures PairsUpTo(candidates, i, j + 1) == PairsUpTo(candidates, i, j) + [(candidates[i], candidates[j])]
  {
    var n := |candidates|;
    PairsBelowBounds(n, i);
    RowShape(i, j);
    RowShape(i, j + 1);
    assert PairsBelow(n, i) + Row(i, j + 1) == (PairsBelow(n, i) + Row(i, j)) + [(i, j)];
    PairIdsSnoc(candidates, PairsBelow(n, i) + Row(i, j), (i, j));
  }

  /** When the inner loop ends, the outer loop moves on to the next row. */
  lemma PairsUpToNextRow(candidates: seq<int>, i: int)
    requires 0 <= i < |candidates|
    ensures PairsUpTo(candidates, i, |candidates|) == PairsUpTo(candidates, i + 1, i + 1)
  {
    var n := |candidates|;
    assert PairsBelow(n, i + 1) + Row(i + 1, i + 1) == PairsBelow(n, i) + Row(i, n);
  }

  /**
   * The pairs of one candidate list: every pair of positions a < b, as id
   * pairs, and n(n-1)/2 of them for n candidates.
   */
  lemma CellPairsComplete(candidates: seq<int>)
    ensures 2 * |CellPairs(candidates)| == |candidates| * (|candidates| - 1)
    ensures forall a, b :: 0 <= a < b < |candidates| ==> (candidates[a], candidates[b]) in CellPairs(candidates)
  {
    var n := |candidates|;
    PairsBelowLength(n, n);
    PairsBelowComplete(n, n);
    PairsBelowBounds(n, n);
    var pairs := CellPairs(candidates);
    forall a, b | 0 <= a < b < n
      ensures (candidates[a], candidates[b]) in pairs
    {
      var u :| 0 <= u < |PairsBelow(n, n)| && PairsBelow(n, n)[u] == (a, b);
      assert pairs[u] == (candidates[a], candidates[b]);
    }
  }

  /** The id pairs the collision pass examines in the first n cells, cell by cell. */
  function Examined(cells: seq<seq<int>>, nx: int, ny: int, nz: int, n: int): seq<(int, int)>
    requires nx > 0 && ny > 0 && nz > 0 && |cells| == nx * ny * nz
    requires 0 <= n <= |cells|
  {
    if n == 0 then []
    else Examined(cells, nx, ny, nz, n - 1) + CellPairs(CellCandidates(cells, nx, ny, nz, n - 1))
  }

  /** Under the membership invariant a candidate list holds no id twice. */
  lemma CandidatesDistinct(cells: seq<seq<int>>, home: seq<int>, nx: int, ny: int, nz: int, index: int)
    requires nx > 0 && ny > 0 && nz > 0 && |cells| == nx * ny * nz
    requires 0 <= index < |cells|
    requires Membership(cells, home)
    ensures var c := CellCandidates(cells, nx, ny, nz, index);
      forall a, b :: 0 <= a < b < |c| ==> c[a] != c[b]
  {
    var nb := NeighbourTable(index, nx, ny, nz);
    TableSuitsCandidates(index, nx, ny, nz);
    var c := Candidates(cells, index, nb);
    forall x
      ensures multiset(c)[x] <= 1
    {
      CandidatesUnique(cells, home, index, nb, x);
    }
    forall a, b | 0 <= a < b < |c|
      ensures c[a] != c[b]
    {
      DistinctPositions(c, a, b);
    }
  }

  /**
   * Under the membership invariant the collision pass never pairs a
   * particle with itself.
   */
  lemma {:induction false} ExaminedNoSelfPairs(cells: seq<seq<int>>, home: seq<int>, nx: int, ny: int, nz: int, n: int)
    requires nx > 0 && ny > 0 && nz > 0 && |cells| == nx * ny * nz
    requires 0 <= n <= |cells|
    requires Membership(cells, home)
    ensures forall k :: 0 <= k < |Examined(cells, nx, ny, nz, n)| ==>
      Examined(cells, nx, ny, nz, n)[k].0 != Examined(cells, nx, ny, nz, n)[k].1
  {
    if n > 0 {
      ExaminedNoSelfPairs(cells, home, nx, ny, nz, n - 1);
      var c := CellCandidates(cells, nx, ny, nz, n - 1);
      CandidatesDistinct(cells, home, nx, ny, nz, n - 1);
      PairsBelowBounds(|c|, |c|);
      var pairs := CellPairs(c);
      assert forall k :: 0 <= k < |pairs| ==> pairs[k].0 != pairs[k].1;
    }
  }

  /**
   * What populating an empty grid twice over the same particles leaves: the
   * invariant when there are no particles, a broken one as soon as there is
   * one and the ids are the slots.
   */
  lemma DoublePopulation(size: nat, ids: seq<int>, idx: seq<int>)
    requires |ids| == |idx| && PlacementsFit(idx, size)
    ensures var cells := Populated(Populated(EmptyCells(size), ids, idx, |idx|), ids, idx, |idx|);
      (|idx| == 0 ==> Membership(cells, idx)) &&
      (|idx| > 0 && (forall p :: 0 <= p < |ids| ==> ids[p] == p) ==> !Membership(cells, idx))
  {
    if |idx| == 0 {
      EmptyMembership(size, idx);
    } else if forall p :: 0 <= p < |ids| ==> ids[p] == p {
      PopulateTwiceBreaksMembership(size, ids, idx);
    }
  }

  /**
   * The gathering loop of `handleParticleCollision`: the cell's own ids,
   * then, for each table entry that is not the sentinel, that cell's ids.
   */
  method GatherCandidates(cells: seq<seq<int>>, index: int, nb: seq<int>) returns (candidates: seq<int>)
    requires 0 <= index < |cells| && EntriesFit(nb, |cells|)
    ensures candidates == Candidates(cells, index, nb)
  {
    candidates := cells[index];
    var n := 0;
    while n < |nb|
      invariant 0 <= n <= |nb|
      invariant candidates == cells[index] + Gathered(cells, nb[..n])
    {
      assert nb[..n + 1][..n] == nb[..n];
      if nb[n] != Outside {
        candidates := candidates + cells[nb[n]];
      }
      n := n + 1;
    }
    assert nb[..|nb|] == nb;
  }

  class SPHSolver {
    const store: ParticleStore
    const grid: Grid
    var paused: bool
    var particleCount: int

    /**
     * The solver's invariant: the grid works on the solver's particles,
     * slot p holds particle p, the counter is the number of particles, and
     * every particle id sits in exactly the cell its `gridIndex` names (or
     * in none while unplaced).
     */
    ghost predicate Valid()
      reads this, grid, store
    {
      && grid.store == store
      && grid.Valid()
      && store.IdsMatch()
      && particleCount == |store.particles|
      && Membership(grid.cells, GridIndicesOf(store.particles))
    }

    /**
     * Builds the grid (which populates it) and then populates it a second
     * time. On an empty particle vector this yields the invariant; on a
     * non-empty one every id ends up in its cell twice.
     */
    constructor (store: ParticleStore, nx: int, ny: int, nz: int,
                 cellOf: Vec3 -> Coord, populateCellOf: Vec3 -> Coord)
      requires nx > 0 && ny > 0 && nz > 0
      requires PlacementsFit(PlacementsOf(store.particles, populateCellOf, nx, ny), nx * ny * nz)
      modifies store`particles
      ensures this.store == store && !paused && particleCount == 0
      ensures grid.store == store && grid.nx == nx && grid.ny == ny && grid.nz == nz
      ensures grid.cellOf == cellOf && grid.populateCellOf == populateCellOf
      ensures grid.Valid() && grid.neighbours == NeighbourTables(nx, ny, nz)
      ensures var ids, idx := old(IdsOf(store.particles)), old(PlacementsOf(store.particles, populateCellOf, nx, ny));
        grid.cells == Populated(Populated(EmptyCells(nx * ny * nz), ids, idx, |idx|), ids, idx, |idx|) &&
        store.particles == WithGridIndices(old(store.particles), idx)
      ensures old(store.particles) == [] ==> Valid()
      ensures old(store.IdsMatch()) && store.particles != [] ==> !Membership(grid.cells, GridIndicesOf(store.particles))
    {
      ghost var ps := store.particles;
      ghost var ids, idx := IdsOf(ps), PlacementsOf(ps, populateCellOf, nx, ny);
      this.store := store;
      var g := new Grid(nx, ny, nz, store, cellOf, populateCellOf);
      this.grid := g;
      paused := false;
      particleCount := 0;
      new;
      ghost var first := g.cells;
      assert IdsOf(store.particles) == ids;
      assert g.Placements() == idx;
      g.PopulateGrid();
      assert Resize(first, |first|) == first;
      assert WithGridIndices(WithGridIndices(ps, idx), idx) == WithGridIndices(ps, idx);
      DoublePopulation(nx * ny * nz, ids, idx);
      assert GridIndicesOf(store.particles) == idx;
    }

    /**
     * `pause`: when already paused, nothing changes; otherwise every
     * particle's flag and then the solver's are set, and nothing else.
     */
    method Pause()
      modifies this`paused, store`particles
      ensures paused
      ensures store.particles == if old(paused) then old(store.particles) else WithPaused(old(store.particles), true)
      ensures old(Valid()) ==> Valid()
    {
      if paused {
        return;
      }
      var i := 0;
      while i < |store.particles|
        invariant 0 <= i <= |store.particles| && |store.particles| == old(|store.particles|)
        invariant forall q :: 0 <= q < i ==> store.particles[q] == old(store.particles[q]).(paused := true)
        invariant forall q :: i <= q < |store.particles| ==> store.particles[q] == old(store.particles[q])
      {
        var particle := new Particle.FromState(store.particles[i]);
        particle.Pause();
        store.particles := store.particles[i := particle.State()];
        i := i + 1;
      }
      paused := true;
      assert store.particles == WithPaused(old(store.particles), true);
      assert GridIndicesOf(store.particles) == old(GridIndicesOf(store.particles));
    }

    /**
     * `unpause`: when already running, nothing changes; otherwise every
     * particle's flag and then the solver's are cleared, and nothing else.
     */
    method Unpause()
      modifies this`paused, store`particles
      ensures !paused
      ensures store.particles == if !old(paused) then old(store.particles) else WithPaused(old(store.particles), false)
      ensures old(Valid()) ==> Valid()
    {
      if !paused {
        return;
      }
      var i := 0;
      while i < |store.particles|
        invariant 0 <= i <= |store.particles| && |store.particles| == old(|store.particles|)
        invariant forall q :: 0 <= q < i ==> store.particles[q] == old(store.particles[q]).(paused := false)
        invariant forall q :: i <= q < |store.particles| ==> store.particles[q] == old(store.particles[q])
      {
        var particle := new Particle.FromState(store.particles[i]);
        particle.Unpause();
        store.particles := store.particles[i := particle.State()];
        i := i + 1;
      }
      paused := false;
      assert store.particles == WithPaused(old(store.particles), false);
      assert GridIndicesOf(store.particles) == old(GridIndicesOf(store.particles));
    }

    /**
     * `spawnParticles`: appends one batch of fresh particles at the given
     * positions, numbered on from the counter, running and unplaced; the
     * counter advances by the batch size and existing particles are not
     * touched. The spawn positions are a parameter (the source draws them
     * at random).
     */
    method SpawnParticles(positions: seq<Vec3>)
      requires |positions| == SpawnBatch
      modifies this`particleCount, store`particles
      ensures particleCount == old(particleCount) + SpawnBatch
      ensures store.particles == old(store.particles) + Spawned(positions, old(particleCount))
      ensures old(Valid()) ==> Valid()
    {
      var i := 0;
      while i < SpawnBatch
        invariant 0 <= i <= SpawnBatch
        invariant particleCount == old(particleCount) + i
        invariant store.particles == old(store.particles) + Spawned(positions[..i], old(particleCount))
        invariant old(Valid()) ==> Valid()
      {
        var particle := new Particle(positions[i], SpawnRadius, particleCount);
        ghost var home := GridIndicesOf(store.particles);
        particleCount := particleCount + 1;
        store.particles := store.particles + [particle.State()];
        assert Spawned(positions[..i + 1], old(particleCount)) ==
          Spawned(positions[..i], old(particleCount)) + [particle.State()];
        if old(Valid()) {
          assert GridIndicesOf(store.particles) == home + seq(1, _ => Outside);
          AppendUnplacedMembership(grid.cells, home, 1);
        }
        i := i + 1;
      }
      assert positions[..SpawnBatch] == positions;
    }

    /**
     * `addParticle`: appends the particle as given, whatever its id and
     * cached cell. The counter is not advanced, so a valid solver stops
     * being valid: the vector now holds one particle more than the counter.
     */
    method AddParticle(particle: ParticleState)
      modifies store`particles
      ensures store.particles == old(store.particles) + [particle]
      ensures old(Valid()) ==> particleCount == |store.particles| - 1 && !Valid()
    {
      store.particles := store.particles + [particle];
    }

    /**
     * `handleCollisions`: the plane responses, then the pair loop over the
     * cells. The responses are floating-point physics outside the model, so
     * the particles they leave are the parameter `collided`, which may
     * differ from the current ones in positions and velocities only. The
     * cell lists are not touched; the result is the pairs the pair loop
     * examines.
     */
    method HandleCollisions(collided: seq<ParticleState>) returns (visited: seq<(int, int)>)
      requires grid.Valid() && CollisionOutcome(store.particles, collided)
      modifies store`particles
      ensures store.particles == collided
      ensures visited == Examined(grid.cells, grid.nx, grid.ny, grid.nz, |grid.cells|)
      ensures GridIndicesOf(store.particles) == old(GridIndicesOf(store.particles))
      ensures IdsOf(store.particles) == old(IdsOf(store.particles))
      ensures old(Valid()) ==> Valid()
    {
      visited := HandleParticleCollision();
      store.particles := collided;
      assert GridIndicesOf(store.particles) == old(GridIndicesOf(store.particles));
      assert IdsOf(store.particles) == old(IdsOf(store.particles));
      if old(Valid()) {
        assert store.IdsMatch() by {
          forall p | 0 <= p < |collided| ensures collided[p].id == p {
            assert collided[p].id == IdsOf(collided)[p];
          }
        }
      }
    }

    /**
     * `update`: the collision pass, then the loop in which each particle in
     * turn is rendered (moved, unless paused) and moved to the cell its new
     * position maps to. Afterwards every particle caches the cell its
     * rendered position maps to, and the cell lists are those the
     * successive `recomputeParticleIndex` calls leave; the invariant is
     * kept. Slot p must hold particle p, since the grid looks particles up
     * by id.
     */
    method Update(dt: real, normalize: Vec3 -> Vec3, collided: seq<ParticleState>)
      requires grid.store == store && grid.Valid() && store.IdsMatch()
      requires CollisionOutcome(store.particles, collided)
      modifies grid`cells, store`particles
      ensures store.particles == SettledAll(collided, dt, normalize)
      ensures grid.cells == Rebucketed(old(grid.cells), collided, TargetsOf(collided, dt, normalize), |collided|)
      ensures old(Valid()) ==> Valid()
    {
      ghost var start := grid.cells;
      var visited := HandleCollisions(collided);
      assert store.IdsMatch() by {
        forall p | 0 <= p < |collided| ensures collided[p].id == p {
          assert collided[p].id == IdsOf(collided)[p];
        }
      }
      ghost var targets := TargetsOf(collided, dt, normalize);
      RenderAndRebucketAll(dt, normalize, SettledAll(collided, dt, normalize), targets);
      if old(Valid()) {
        UpdateKeepsMembership(start, collided, targets);
        assert GridIndicesOf(store.particles) == targets;
      }
    }

    /**
     * The loop of `update` over given outcomes: with `settled` and `targets`
     * the rendered particles with their new cells and those cells, slot by
     * slot, the loop leaves exactly `settled` in the vector and the lists of
     * the successive `recomputeParticleIndex` calls.
     */
    method RenderAndRebucketAll(dt: real, normalize: Vec3 -> Vec3, ghost settled: seq<ParticleState>, ghost targets: seq<int>)
      requires grid.store == store && grid.Valid() && store.IdsMatch()
      requires |settled| == |targets| == |store.particles|
      requires forall p {:trigger Rendered(store.particles[p], dt, normalize)} :: 0 <= p < |settled| ==>
        targets[p] == grid.TargetCell(Rendered(store.particles[p], dt, normalize).position) &&
        settled[p] == Rendered(store.particles[p], dt, normalize).(gridIndex := targets[p])
      modifies grid`cells, store`particles
      ensures grid.Valid()
      ensures store.particles == settled
      ensures grid.cells == Rebucketed(old(grid.cells), old(store.particles), targets, |settled|)
    {
      ghost var ps := store.particles;
      var i := 0;
      while i < |store.particles|
        invariant 0 <= i <= |ps|
        invariant store.particles == Progress(settled, ps, i)
        invariant grid.Valid()
        invariant grid.cells == Rebucketed(old(grid.cells), ps, targets, i)
      {
        RenderAndRebucket(i, dt, normalize, old(grid.cells), ps, settled, targets);
        i := i + 1;
      }
      ProgressComplete(settled, ps);
    }

    /** The cell each particle's rendered position maps to, by slot. */
    function TargetsOf(ps: seq<ParticleState>, dt: real, normalize: Vec3 -> Vec3): (t: seq<int>)
      requires grid.nx > 0 && grid.ny > 0 && grid.nz > 0
    {
      grid.TargetCells(RenderedAll(ps, dt, normalize))
    }

    /** Every particle as the loop of `update` leaves it, by slot: rendered, caching its target cell. */
    function SettledAll(ps: seq<ParticleState>, dt: real, normalize: Vec3 -> Vec3): (r: seq<ParticleState>)
      requires grid.nx > 0 && grid.ny > 0 && grid.nz > 0
    {
      WithGridIndices(RenderedAll(ps, dt, normalize), TargetsOf(ps, dt, normalize))
    }

    /**
     * One round of the loop of `update`: the particle in slot i is rendered
     * through its reference into the vector, then handed to
     * `recomputeParticleIndex` with its id and cached cell. Over the loop's
     * starting lists `start` and particles `ps`, the vector and the lists
     * go from the first i rounds of the pass to the first i + 1.
     */
    method RenderAndRebucket(i: int, dt: real, normalize: Vec3 -> Vec3, ghost start: seq<seq<int>>, ghost ps: seq<ParticleState>,
                             ghost settled: seq<ParticleState>, ghost targets: seq<int>)
      requires grid.store == store && grid.Valid()
      requires 0 <= i < |ps| && forall p :: 0 <= p < |ps| ==> ps[p].id == p
      requires |settled| == |targets| == |ps|
      requires targets[i] == grid.TargetCell(Rendered(ps[i], dt, normalize).position)
      requires settled[i] == Rendered(ps[i], dt, normalize).(gridIndex := targets[i])
      requires store.particles == Progress(settled, ps, i)
      requires grid.cells == Rebucketed(start, ps, targets, i)
      modifies grid`cells, store`particles
      ensures grid.Valid()
      ensures store.particles == Progress(settled, ps, i + 1)
      ensures grid.cells == Rebucketed(start, ps, targets, i + 1)
    {
      var particle := new Particle.FromState(store.particles[i]);
      particle.Render(dt, normalize);
      store.particles := store.particles[i := particle.State()];
      grid.RecomputeParticleIndex(particle.id, particle.GetGridIndex());
      assert store.particles == Progress(settled, ps, i + 1);
    }

    /**
     * The candidate list of one cell (the first half of the loop body of
     * `handleParticleCollision`): the cell's own ids, then the ids of each
     * existing neighbour cell in table order. Under the invariant it holds
     * no id twice.
     */
    method CandidateList(index: int) returns (candidates: seq<int>)
      requires grid.Valid() && 0 <= index < |grid.cells|
      ensures candidates == CellCandidates(grid.cells, grid.nx, grid.ny, grid.nz, index)
      ensures |candidates| == |grid.cells[index]| + SizeSum(grid.cells, NeighbourTable(index, grid.nx, grid.ny, grid.nz))
      ensures Valid() ==> forall a, b :: 0 <= a < b < |candidates| ==> candidates[a] != candidates[b]
    {
      var nb := grid.IndexOfNeighbouringGrids(index);
      TableSuitsCandidates(index, grid.nx, grid.ny, grid.nz);
      candidates := GatherCandidates(grid.cells, index, nb);
      CandidatesLength(grid.cells, index, nb);
      if Valid() {
        CandidatesDistinct(grid.cells, GridIndicesOf(store.particles), grid.nx, grid.ny, grid.nz, index);
      }
    }

    /**
     * The pair loop of `handleParticleCollision`: every pair of positions
     * i < j of the candidate list, i ascending and then j ascending, as id
     * pairs. Each unordered pair of positions is examined exactly once.
     */
    method CandidatePairs(candidates: seq<int>) returns (pairs: seq<(int, int)>)
      ensures pairs == CellPairs(candidates)
      ensures 2 * |pairs| == |candidates| * (|candidates| - 1)
      ensures forall a, b :: 0 <= a < b < |candidates| ==> (candidates[a], candidates[b]) in pairs
    {
      var n := |candidates|;
      pairs := [];
      var i := 0;
      while i < n
        invariant 0 <= i <= n
        invariant pairs == PairsUpTo(candidates, i, i)
      {
        var j := i + 1;
        while j < n
          invariant i + 1 <= j <= n
          invariant pairs == PairsUpTo(candidates, i, j)
        {
          PairsUpToStep(candidates, i, j);
          pairs := pairs + [(candidates[i], candidates[j])];
          j := j + 1;
        }
        PairsUpToNextRow(candidates, i);
        i := i + 1;
      }
      assert PairsBelow(n, n) + Row(n, n) == PairsBelow(n, n);
      CellPairsComplete(candidates);
    }

    /**
     * `handleParticleCollision` without the collision response: for every
     * cell in index order, the pairs of its candidate list. Under the
     * invariant no particle is paired with itself.
     */
    method HandleParticleCollision() returns (visited: seq<(int, int)>)
      requires grid.Valid()
      ensures visited == Examined(grid.cells, grid.nx, grid.ny, grid.nz, |grid.cells|)
      ensures Valid() ==> forall k :: 0 <= k < |visited| ==> visited[k].0 != visited[k].1
    {
      visited := [];
      var index := 0;
      while index < |grid.cells|
        invariant 0 <= index <= |grid.cells|
        invariant visited == Examined(grid.cells, grid.nx, grid.ny, grid.nz, index)
      {
        var candidates := CandidateList(index);
        var pairs := CandidatePairs(candidates);
        visited := visited + pairs;
        index := index + 1;
      }
      if Valid() {
        ExaminedNoSelfPairs(grid.cells, GridIndicesOf(store.particles), grid.nx, grid.ny, grid.nz, |grid.cells|);
      }
    }
  }
}

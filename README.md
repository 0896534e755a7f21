# SPH fluid simulation: spatial grid, solver bookkeeping and mesh generation

This project is a Dafny model of the bookkeeping core of a small
smoothed-particle-hydrodynamics (SPH) fluid simulator written in C++ with
OpenGL. The particles live in a box. A uniform grid of cubic cells, each
as wide as one particle diameter, speeds up neighbour search. Each cell
keeps the ids of the particles in it. Each particle remembers the index of
its cell. A precomputed table lists the up to 26 neighbouring cells of
every cell. The solver spawns, pauses and unpauses particles, moves them
into new cells after each step, and builds the candidate pairs for the
particle-particle collision test. The meshes for spheres, cubes and planes
are generated as vertex and triangle-index lists.

The modules follow the program's structure:

- `Geometry` (geometry.dfy): `glm::vec3` and `glm::vec4` over reals, and
  the vector operations the model needs.
- `CellIndex` (cell_index.dfy): the pure index arithmetic of `src/grid.h`.
  This covers `getIndexInGrid` and its inverse `getGridfromIndex`,
  `validIndex`, `getValidIndexInGrid` and the clamping of `fixIndex`. It
  also covers the 26-slot neighbour table and C++ truncating division.
- `CellCoords` (cell_coords.dfy): how a position becomes cell coordinates
  in `recomputeParticleIndex` and in `populateGrid`, with float-to-int
  truncation.
- `CellLists` (cell_lists.dfy): pure specifications of the per-cell id
  lists. These are the `Membership` invariant (every particle id is
  listed exactly once, in the cell its `gridIndex` names), the list
  updates of `recomputeParticleIndex` and `populateGrid`, the candidate
  list and the pair enumeration of `handleParticleCollision`.
- `Particles` (particle.dfy): the `Particle` class of `src/Particle.h`,
  its state as a `ParticleState` value, and the shared particle vector
  (`ParticleStore`).
- `Grids` (grid.dfy): the `Grid` struct of `src/grid.h` as a class whose
  methods update `cells` (the source's `grid`) and the particles' grid
  indices.
- `Solver` (solver.dfy): `SPHSolver` from `src/sphSolver.cpp`. It models
  the constructor, `pause`, `unpause`, `spawnParticles`, `addParticle`,
  the re-bucketing loop of `update` and the candidate and pair loops of
  `handleParticleCollision`.
- `Meshes` (mesh.dfy): the vertex and index generation of `makeSphere`,
  `makeCube` and `makePlane` in `src/mesh.cpp`.

Modelling choices:

- Floats are reals.
- `glm::normalize`, `sin` and `cos`, and the random positions of
  `spawnParticles` are passed in as parameters. The speed test
  `glm::length(v) > maxVelocity` is stated on squared lengths
  (`Particles.TooFast`), which needs no square root.
- The outcome of the collision responses (plane and particle-particle)
  is a parameter of `update`: particles that may differ from the current
  ones in position and velocity only.
- The conversion from a position to a cell is a function field of the
  grid. `cellOf` is the conversion `recomputeParticleIndex` uses.
  `populateCellOf` is the one `populateGrid` uses. `CellCoords` states
  what each conversion computes.
- `std::vector<Particle>` has value semantics, so it is modelled as a
  sequence of `ParticleState` values that the methods reassign.
- The source's declaration of `SPHSolver` is not part of this model. The
  constructor is taken to start with `paused` false and `particleCount` 0.

## Model

| member | source | states |
|---|---|---|
| CellIndex.TDiv | src/grid.h:131-136 | the quotient truncates toward zero: the remainder lies in [0, b) for a non-negative dividend and in (-b, 0] for a negative one |
| CellIndex.IndexInGrid | src/grid.h:127-129 | `getIndexInGrid`: i + j*nx + k*nx*ny (its inverse is stated by `CellIndex.DecodeEncode` and `CellIndex.EncodeDecode`) |
| CellIndex.GridFromIndex | src/grid.h:131-136 | `getGridfromIndex` with truncating division: layer, then row, then column |
| CellIndex.ValidIndex | src/grid.h:84-89 | `validIndex`: the decoded coordinate lies inside the grid (characterised by `CellIndex.ValidIndexIff`) |
| CellIndex.DecodeEncode | src/grid.h:127-136 | decoding the index of a coordinate that is inside the grid's x and y range and has a non-negative layer gives back that coordinate (a negative layer does not round-trip, because the division truncates toward zero) |
| CellIndex.EncodeDecode | src/grid.h:127-136 | encoding the decoded coordinate of any index gives back the index, negative ones included |
| CellIndex.EncodeInRange | src/grid.h:127-129 | the index of a coordinate inside the grid lies in [0, nx*ny*nz) |
| CellIndex.ValidIndexIff | src/grid.h:84-89 | `validIndex` holds exactly for the indices in [0, nx*ny*nz) |
| CellIndex.RowColumnInRange | src/grid.h:131-136 | a non-negative index decodes to a column in [0, nx) and a row in [0, ny) |
| CellIndex.LayerInRange | src/grid.h:131-136 | an index below nx*ny*nz decodes to a layer in [0, nz) |
| CellIndex.InRangeIndexValid | src/grid.h:84-89 | every index in [0, nx*ny*nz) passes `validIndex` |
| CellIndex.EncodeInRangeConverse | src/grid.h:84-89 | an index at or beyond nx*ny*nz decodes to a coordinate outside the grid |
| CellIndex.NegativeIndexInvalid | src/grid.h:84-89 | a negative index fails `validIndex` |
| CellIndex.SentinelInvalid | src/grid.h:84-89 | the sentinel -1 used for "no cell" never passes `validIndex` |
| CellIndex.ValidIndexInGrid | src/grid.h:188-197 | the result is -1 exactly when the coordinate is outside the grid; otherwise it is the coordinate's index, inside [0, nx*ny*nz) |
| CellIndex.Clamp | src/grid.h:91-104 | the result lies in [0, n), keeps in-range values, and maps values below to 0 and values above to n-1 |
| CellIndex.ClampIdempotent | src/grid.h:91-104 | clamping twice is clamping once |
| CellIndex.ClampedIndex | src/grid.h:64-73 | the clamped cell index lies in the grid and decodes to the clamped coordinate |
| CellIndex.OffsetOfSlot | src/grid.h:156-186 | each of the 26 table slots holds a unit offset other than (0,0,0), and the slot numbering finds it again |
| CellIndex.SlotOfOffset | src/grid.h:156-186 | each non-zero unit offset has a slot in [0, 26) that holds exactly that offset |
| CellIndex.TableAroundAt | src/grid.h:156-186 | the slot of offset (dx,dy,dz) holds `getValidIndexInGrid` of the shifted coordinate |
| CellIndex.NeighbourTables | src/grid.h:53-58 | the precomputed table has one row per cell, and row `index` is that cell's neighbour table |
| CellIndex.NeighbourTable | src/grid.h:156-186 | the 26 entries `getIndexOfNeighbouringGrids` returns: all -1 outside the grid, otherwise the table around the cell's coordinates (its properties are the lemmas below) |
| CellIndex.NeighboursOfOutsideIndex | src/grid.h:156-186 | an index outside the grid has no neighbours: every slot is -1 |
| CellIndex.CoordOfValid | src/grid.h:131-136 | an index in range decodes to a coordinate inside the grid |
| CellIndex.EncodeInjective | src/grid.h:127-129 | two coordinates inside the grid with the same index are equal |
| CellIndex.NeighbourEntry | src/grid.h:156-186 | each table entry is -1 or a cell of the grid other than the cell itself |
| CellIndex.NeighboursDistinct | src/grid.h:156-186 | two slots never name the same cell unless the entry is -1 |
| CellIndex.InteriorNeighbours | src/grid.h:156-186 | an interior cell has 26 distinct real neighbours, none of them itself |
| CellIndex.NeighboursComplete | src/grid.h:156-186 | every other cell whose coordinates differ by at most one on each axis appears in the table |
| CellCoords.Trunc | src/grid.h:66-68 | the float-to-int conversion truncates toward zero: the result is within one of the argument, on the side of zero |
| CellCoords.AxisCellContains | src/grid.h:66-68 | a shifted coordinate in [0, n*size) lands in a cell 0..n-1 whose extent contains it |
| CellCoords.CellOfPosition | src/grid.h:66-68 | the unclamped coordinates `recomputeParticleIndex` computes, with cells of size 2r |
| CellCoords.PopulateCellOfAsWritten | src/grid.h:118-120 | the coordinates `populateGrid` computes, evaluated left to right as C++ does |
| CellCoords.CellOfPositionInGrid | src/grid.h:64-68 | with cells of size 2r, a position inside the domain maps to a coordinate inside the grid |
| CellCoords.PopulateAxisCollapses | src/grid.h:118-120 | as written, every shifted coordinate below 2/r truncates to cell 0 |
| CellCoords.PopulateAsWrittenMisplaces | src/grid.h:114-120 | in the solver's 4 by 2 by 2 domain, position (0,1,0) belongs to cell (10,5,5), but the formula as written gives (0,0,0) |
| CellLists.RemoveFirst | src/grid.h:138-145 | removing an absent id changes nothing; removing a present id shortens the list by one |
| CellLists.RemoveFirstMultiset | src/grid.h:138-145 | removal takes exactly one occurrence of the id out of the list's multiset |
| CellLists.RemoveFirstAt | src/grid.h:138-145 | the occurrence removed is the first one, and the rest keep their order |
| CellLists.Membership | src/grid.h:14 | the invariant: every cached `gridIndex` is -1 or a cell, cell lists hold only particle ids, and particle p is listed exactly once, in the cell its `gridIndex` names, or nowhere while that is -1 |
| CellLists.MembershipLocates | src/grid.h:14 | under the membership invariant, an id listed in cell c is a particle whose grid index is c |
| CellLists.EmptyCells | src/grid.h:108-109 | n cells, all empty |
| CellLists.EmptyMembership | src/grid.h:108-113 | empty cells satisfy the invariant when no particle is placed yet |
| CellLists.AppendUnplacedMembership | src/sphSolver.cpp:115-126 | appending particles not yet placed keeps the invariant |
| CellLists.RecomputeCells | src/grid.h:74-81 | if the cell is unchanged, nothing changes; otherwise the id is appended to the new cell, its first occurrence leaves the old cell and all other cells stay |
| CellLists.RecomputedCell | src/grid.h:74-81 | per cell as multisets: the new cell gains the id and the old cell loses one occurrence of it |
| CellLists.RecomputedCellIds | src/grid.h:74-81 | after a move, every id in a cell is still a particle |
| CellLists.RecomputedCellCounts | src/grid.h:74-81 | after a move, each particle appears once in the cell its updated grid index names and nowhere else |
| CellLists.RecomputePreservesMembership | src/grid.h:64-82 | moving one particle to a cell of the grid keeps the invariant, with that particle's grid index updated |
| CellLists.Resize | src/grid.h:108-109 | `resize` keeps the existing lists and adds empty ones up to the new size |
| CellLists.PopulatedCount | src/grid.h:115-124 | populating adds each id once to the cell of its placement, on top of what the cell already held |
| CellLists.PlacedIdentity | src/grid.h:115-124 | when particle p has id p, particle x is added to cell c exactly when its placement is c |
| CellLists.PopulateEmptyMembership | src/grid.h:107-125 | populating empty cells establishes the invariant for the new placements |
| CellLists.PopulatedEmptyCount | src/grid.h:107-125 | populating empty cells lists each particle once, in its own cell |
| CellLists.RepopulateBreaksMembership | src/grid.h:107-125 | populating cells that already satisfy the invariant, without clearing them, lists some particle twice |
| CellLists.PopulateTwiceBreaksMembership | src/grid.h:107-125 | populating twice from empty breaks the invariant as soon as there is a particle |
| CellLists.CandidatesLength | src/sphSolver.cpp:76-84 | the candidate list is as long as the cell's list plus the lists of its real neighbours |
| CellLists.Candidates | src/sphSolver.cpp:76-84 | a cell's own list followed by the lists of its neighbours that exist, in table order |
| CellLists.GatheredLength | src/sphSolver.cpp:79-84 | the gathered neighbour ids are as many as the neighbour lists hold together |
| CellLists.GatheredCount | src/sphSolver.cpp:79-84 | under the invariant, each particle occurs once among the gathered ids if its cell is a listed neighbour, and otherwise not at all |
| CellLists.CandidatesUnique | src/sphSolver.cpp:76-84 | under the invariant, no particle occurs twice among a cell's candidates |
| CellLists.RowShape | src/sphSolver.cpp:87 | the inner loop for a fixed i visits j = i+1 .. n-1 in order |
| CellLists.PairsBelowBounds | src/sphSolver.cpp:86-87 | every visited position pair (a, b) has a < b < n |
| CellLists.PairsBelowSorted | src/sphSolver.cpp:86-87 | position pairs are visited in strictly increasing lexicographic order |
| CellLists.PairInLastRow | src/sphSolver.cpp:86-87 | the last outer iteration visits each of its pairs |
| CellLists.PairBelow | src/sphSolver.cpp:86-87 | each pair with a below the outer bound is visited |
| CellLists.PairsBelowComplete | src/sphSolver.cpp:86-87 | all pairs with a below the outer bound are visited |
| CellLists.PairsBelowLength | src/sphSolver.cpp:86-87 | after i outer iterations, i*(2n-i-1)/2 pairs have been visited |
| CellLists.AllPairsOnce | src/sphSolver.cpp:86-87 | the double loop visits exactly the pairs a < b < n, each once, n(n-1)/2 in total |
| Particles.Initial | src/Particle.h:26-37 | a new particle keeps the given position, radius and id, is at rest with zero density and pressure, is not placed in any cell and is not paused |
| Particles.Radius | src/Particle.h:22-24 | the fixed radius 0.1 that the grid's cell size and the populate formula use |
| Particles.TooFast | src/Particle.h:58 | the speed exceeds the bound, compared as squared lengths |
| Particles.Integrated | src/Particle.h:56-65 | a particle faster than the maximum speed gets velocity `normalize(velocity)` scaled by MaxVelocity and no acceleration; otherwise acceleration is applied; then the position advances by the new velocity; nothing else changes |
| Particles.Rendered | src/Particle.h:47-54 | a paused particle is left unchanged; render changes only position and velocity |
| Particles.Particle.constructor | src/Particle.h:26-37 | the new object's state is the initial state |
| Particles.Particle.FromState | src/sphSolver.cpp:22-24 | a particle holding a given value; the owners of the vector load an element into one, call its methods, and store it back, standing for a reference into the vector |
| Particles.Particle.SetGridIndex | src/Particle.h:39-45 | only the grid index changes, and `getGridIndex` then returns it |
| Particles.Particle.GetGridIndex | src/Particle.h:43-45 | the cached cell |
| Particles.Particle.GetRadius | src/Particle.h:67-69 | the particle's own radius |
| Particles.Particle.Pause | src/Particle.h:71-73 | only the paused flag changes, to true |
| Particles.Particle.Unpause | src/Particle.h:75-77 | only the paused flag changes, to false |
| Particles.Particle.Update | src/Particle.h:56-65 | the new state is the integrated old state |
| Particles.Particle.Render | src/Particle.h:47-54 | the new state is the rendered old state; a paused particle does not change |
| Particles.GridIndicesOf | src/Particle.h:43-45 | the grid index of every particle, slot by slot |
| Particles.IdsOf | src/Particle.h:16 | the id of every particle, slot by slot |
| Particles.RenderedAll | src/sphSolver.cpp:22-23 | every particle rendered once, in place |
| Particles.WithPaused | src/sphSolver.cpp:132-134 | every particle with its paused flag set to the given value, all else unchanged |
| Particles.WithGridIndices | src/grid.h:115-124 | every particle with the given grid index, all else unchanged |
| Particles.Progress | src/sphSolver.cpp:22-25 | during the loop, the slots before i hold their final value and the rest their old one |
| Particles.ProgressComplete | src/sphSolver.cpp:22-25 | when the loop is done, every slot holds its final value |
| Particles.ParticleStore.constructor | src/sphSolver.cpp:3-4 | a convenience for building a store, which starts empty; the store stands for the vector the solver's caller hands in, of any size, and the solver constructor accepts any store |
| Grids.PlacementsOf | src/grid.h:115-121 | each particle's placement is the cell index of its coordinates |
| Grids.TableSuitsCandidates | src/grid.h:156-186 | a neighbour table names cells of the grid, no cell twice, and never the cell itself |
| Grids.Grid.TargetCell | src/grid.h:64-73 | the clamped target cell is always inside the grid |
| Grids.Grid.TargetCells | src/sphSolver.cpp:22-25 | each particle's target cell, all inside the grid |
| Grids.Grid.constructor | src/grid.h:34-51 | the grid is sized and populated from empty, every particle gets its placement as grid index, and the neighbour table is built |
| Grids.Grid.PrecomputeNeighbours | src/grid.h:53-58 | one table per cell is appended; from an empty table the cache is exactly the neighbour tables |
| Grids.Grid.GetNeighbours | src/grid.h:60-62 | returns the cached row, which is the cell's neighbour table once the cache is built |
| Grids.Grid.FixIndex | src/grid.h:91-104 | the result is the index clamped into [0, extent) of that axis |
| Grids.Grid.RecomputeParticleIndex | src/grid.h:64-82 | if the target cell is the given index, nothing changes; otherwise the id moves from that cell to the target and the particle's grid index becomes the target |
| Grids.Grid.RemoveParticleFromGrid | src/grid.h:138-145 | the first occurrence of the id leaves the cell; other cells and an absent id are untouched |
| Grids.Grid.InGrid | src/grid.h:147-154 | true exactly when the id is listed in the cell |
| Grids.Grid.PopulateGrid | src/grid.h:107-125 | the cells are resized and each particle is appended to the cell of its placement, which becomes its grid index |
| Grids.Grid.IndexOfNeighbouringGrids | src/grid.h:156-186 | the result is the cell's neighbour table |
| Grids.Grid.NeighboursAround | src/grid.h:161-185 | the 26 slots hold `getValidIndexInGrid` of each shifted coordinate |
| Solver.Spawned | src/sphSolver.cpp:115-126 | the spawned particles have the given positions, radius 0.05 and consecutive ids starting at the particle count |
| Solver.RebucketedMembership | src/sphSolver.cpp:22-25 | after the first n iterations, the invariant holds with the first n particles at their targets and the rest in their old cells |
| Solver.UpdateKeepsMembership | src/sphSolver.cpp:22-25 | after a whole `update` loop the invariant holds with every particle's home its target cell |
| Solver.CollisionOutcome | src/sphSolver.cpp:39-72 | what the collision responses may change: positions and velocities of any particle, paused or not, and nothing else |
| Solver.SPHSolver.HandleCollisions | src/sphSolver.cpp:34-37 | the particles become the collision outcome, cells and cached cells and ids are untouched, the result is the pairs the pair loop examines, and the invariant is kept |
| Solver.PairIds | src/sphSolver.cpp:86-89 | visiting pairs of positions visits the pairs of ids at those positions |
| Solver.PairIdsSnoc | src/sphSolver.cpp:86-89 | one more visited position pair adds one id pair at the end |
| Solver.PairsUpToStep | src/sphSolver.cpp:87-89 | one inner iteration adds the pair (candidates[i], candidates[j]) |
| Solver.PairsUpToNextRow | src/sphSolver.cpp:86-87 | the end of an inner loop is the start of the next outer iteration |
| Solver.CellPairsComplete | src/sphSolver.cpp:86-89 | one cell's pairs number n(n-1)/2, and every pair of candidates at positions a < b is visited |
| Solver.CellPairs | src/sphSolver.cpp:86-89 | the id pairs of the double loop over one candidate list (counted and shown complete by `Solver.CellPairsComplete`) |
| Solver.CandidatesDistinct | src/sphSolver.cpp:76-84 | under the invariant, the candidates of a cell are pairwise distinct ids |
| Solver.ExaminedNoSelfPairs | src/sphSolver.cpp:74-113 | under the invariant, no particle is ever paired with itself |
| Solver.DoublePopulation | src/sphSolver.cpp:3-14 | populating twice keeps the invariant only when there are no particles, and breaks it otherwise |
| Solver.GatherCandidates | src/sphSolver.cpp:76-84 | the loop builds the cell's own list followed by the lists of its real neighbours |
| Solver.SPHSolver.constructor | src/sphSolver.cpp:3-14 | the grid is built and populated a second time, so every particle is listed twice; the invariant holds only with no particles |
| Solver.SPHSolver.Pause | src/sphSolver.cpp:128-136 | the solver is paused; if it was not paused already, every particle is paused too; the invariant is kept |
| Solver.SPHSolver.Unpause | src/sphSolver.cpp:138-146 | the solver is unpaused; if it was paused, every particle is unpaused too; the invariant is kept |
| Solver.SPHSolver.SpawnParticles | src/sphSolver.cpp:115-126 | 100 particles are appended with consecutive ids and the count grows by 100; the invariant is kept |
| Solver.SPHSolver.AddParticle | src/sphSolver.cpp:30-32 | the particle is appended; the count is not advanced, so the invariant no longer holds |
| Solver.SPHSolver.Update | src/sphSolver.cpp:16-28 | after the collision pass, every particle is rendered and moved into its target cell, the cells are re-bucketed accordingly, and the invariant is kept |
| Solver.SPHSolver.RenderAndRebucketAll | src/sphSolver.cpp:22-25 | the loop leaves exactly the settled particles and the lists after the successive moves |
| Solver.SPHSolver.RenderAndRebucket | src/sphSolver.cpp:23-24 | one iteration renders particle i through `Particle::render`, moves it with `recomputeParticleIndex`, and keeps the grid's sizes (membership after each round is `Solver.RebucketedMembership`) |
| Solver.SPHSolver.CandidateList | src/sphSolver.cpp:76-84 | the candidate list of a cell, with its length; under the invariant its ids are distinct |
| Solver.SPHSolver.CandidatePairs | src/sphSolver.cpp:86-89 | the pairs of the double loop: n(n-1)/2 of them, including every pair at positions a < b |
| Solver.SPHSolver.HandleParticleCollision | src/sphSolver.cpp:74-113 | the pairs examined over all cells; under the invariant none pairs a particle with itself |
| Meshes.RingVertexAt | src/mesh.cpp:104-114 | vertex j of stack i is at direction (i,j) scaled by the radius, with its normal and colour |
| Meshes.SphereVertexRowsLength | src/mesh.cpp:99-115 | each stack contributes sectorCount+1 vertices |
| Meshes.SphereVertexRowsAt | src/mesh.cpp:99-115 | vertex i*(sectorCount+1)+j is the j-th of stack i |
| Meshes.SphereVerticesLayout | src/mesh.cpp:99-115 | the sphere has (stackCount+1)*(sectorCount+1) vertices, stack-major |
| Meshes.SphereVerticesEmpty | src/mesh.cpp:99-115 | a negative count produces no vertices |
| Meshes.SphereVertices | src/mesh.cpp:99-115 | the vertex list of `makeSphere`: stacks 0..stackCount, each with sectors 0..sectorCount (layout in `Meshes.SphereVerticesLayout`) |
| Meshes.CellTriangles | src/mesh.cpp:121-128 | the first stack skips its upper triangle and the last stack its lower one |
| Meshes.StackTrianglesLength | src/mesh.cpp:118-129 | a stack yields zero, one or two triangles per sector according to whether it is the first and/or last |
| Meshes.SphereTriangleRowsLength | src/mesh.cpp:118-129 | the first r stacks of an inner range give sectorCount*(2r-1) triangles |
| Meshes.SphereTriangleCount | src/mesh.cpp:118-129 | a sphere with stackCount >= 1 has 2*sectorCount*(stackCount-1) triangles |
| Meshes.CellTrianglesFit | src/mesh.cpp:118-128 | the triangles of one sector indexing from zero stay below the vertex count and have distinct corners |
| Meshes.StackTrianglesFit | src/mesh.cpp:118-128 | the same for one stack |
| Meshes.SphereTriangleRowsFit | src/mesh.cpp:118-129 | the same for the first rows of stacks |
| Meshes.SphereTrianglesFit | src/mesh.cpp:118-129 | every sphere triangle has corners below (stackCount+1)*(sectorCount+1), all distinct |
| Meshes.SphereTriangles | src/mesh.cpp:118-129 | the index list of `makeSphere`, stack by stack and sector by sector (count in `Meshes.SphereTriangleCount`, range in `Meshes.SphereTrianglesFit`) |
| Meshes.CubePositions | src/mesh.cpp:39-48 | the cube has 8 corner positions |
| Meshes.CubeTriangles | src/mesh.cpp:69-82 | the 12 index triples of `makeCube`, in the source's order |
| Meshes.CubeTrianglesFit | src/mesh.cpp:69-82 | the 12 triangles index below 8, have distinct corners, and use all 8 vertices |
| Meshes.CubeCornersOpposite | src/mesh.cpp:39-48 | the corners span edges of length `size` along x, y and z around the centre |
| Meshes.PlaneCorners | src/mesh.cpp:139-142 | the plane has four corners |
| Meshes.PlaneTriangles | src/mesh.cpp:153-156 | the two index triples of `makePlane` |
| Meshes.PlaneCentred | src/mesh.cpp:139-142 | opposite corners are mirror images through the centre |
| Meshes.PlaneTrianglesFit | src/mesh.cpp:153-156 | the two triangles index below 4, have distinct corners, and use all four vertices |
| Meshes.Mesh.constructor | src/mesh.cpp:5-23 | the mesh holds exactly the given vertices and triangles |
| Meshes.Mesh.Empty | src/mesh.cpp:25-36 | a mesh made by type starts with no vertices and no triangles |
| Meshes.Mesh.MakeSphere | src/mesh.cpp:98-135 | the sphere's vertices and triangles are appended to what the mesh held |
| Meshes.Mesh.AppendSphereVertices | src/mesh.cpp:99-115 | the nested vertex loops append the sphere's vertices |
| Meshes.Mesh.AppendRing | src/mesh.cpp:104-114 | the inner loop appends one stack's vertices |
| Meshes.Mesh.AppendSphereTriangles | src/mesh.cpp:118-129 | the nested index loops append the sphere's triangles |
| Meshes.Mesh.AppendStackTriangles | src/mesh.cpp:119-128 | the inner loop appends one stack's triangles |
| Meshes.Mesh.MakeCube | src/mesh.cpp:38-96 | sets the corner positions, colours, normals and triangles, and appends 8 vertices built from them |
| Meshes.Mesh.MakePlane | src/mesh.cpp:137-162 | replaces the mesh by four corner vertices with one shared normal and two triangles, all indices in range |
| Meshes.SphereOnEmptyDrawable | src/mesh.cpp:98-135 | on an empty mesh, every sphere index refers to a vertex of the mesh |
| Meshes.CubeOnEmptyDrawable | src/mesh.cpp:38-96 | on an empty mesh, every cube index refers to a vertex and every vertex has the given colour |

## Left out

- Floating point: floats are reals, so rounding is not modelled. `Particle::Radius()` is the real 0.1 rather than the nearest float.
- Physics: the collision response inside the pair loop of `handleParticleCollision` (src/sphSolver.cpp:88-109) and `handlePlaneCollision` are left out. The density, pressure and mass computation is left out too. All of these are floating-point physics; the model keeps the pairs they are applied to.
- Solver.SPHSolver.Update: the positions and velocities `handleCollisions` computes are not modelled. They are the parameter `collided`, constrained only to differ in those two fields, so the contract does not say where particles end up after a collision.
- Rendering: OpenGL (`Mesh::render`, VAO/VBO/EBO uploads, model matrices, plane rendering) is left out, because it only draws.
- Particles.Particle.constructor: does not build the particle's own sphere mesh, because that only draws. The mesh generation itself is modelled by `Meshes.Mesh.MakeSphere`.
- Randomness: `rand()` in `spawnParticles` is replaced by a parameter holding the 100 positions.
- Grid dimensions: the number of cells per axis, derived in the `Grid` constructor from the planes' positions, is a constructor parameter (at least one per axis). The default `Grid()` constructor, which leaves the grid unusable, is left out.
- Grids.Grid.constructor: takes the position-to-cell conversions as parameters. `CellCoords` states what the source's two formulas compute.
- Grids.Grid.PopulateGrid: requires every placement to be a cell of the grid. The source indexes the vector without a check, which is undefined behaviour for a particle outside the box.
- Integer width: indices are unbounded integers. Overflow of the 32-bit `int`, and the `glm::uvec3` unsigned index type of the mesh, are not modelled. All counts involved are small.
- Solver.SPHSolver.Update: requires particle slot p to hold id p, which `spawnParticles` ensures; `recomputeParticleIndex` looks a particle up by its id.
- Meshes.Mesh.MakeSphere: takes `sin`/`cos` of the stack and sector angles as a direction function, and `glm::normalize` as a parameter.
- Meshes.Mesh.MakeSphere: appends indices that start from 0 whatever the mesh already held. They are shown to be in range only on an empty mesh (`Meshes.SphereOnEmptyDrawable`).
- Camera, input handling, shaders and utility code are not part of this model.

## Findings

| source | as written | input that shows it | evidently intended | confidence | as-written member | corrected member |
|---|---|---|---|---|---|---|
| src/sphSolver.cpp:13, src/grid.h:107-125 | `populateGrid` appends ids without clearing the cells. The `Grid` constructor already calls it, and the solver constructor calls it again. | any particle present at construction: after the solver constructor, its id is listed twice in its cell | populate once, or clear the cells before appending | high, not executed | CellLists.PopulateTwiceBreaksMembership | CellLists.PopulateEmptyMembership |
| src/grid.h:118-120 | `(x + Width / 2) / 2 * r` computes ((x + Width/2) / 2) * r, which multiplies by the radius instead of dividing by the cell size 2r | Width 4, Depth 2, r = 0.1, particle at (0, 1, 0): cell (0, 0, 0) instead of (10, 5, 5) | `(x + Width / 2) / (2 * r)`, the conversion `recomputeParticleIndex` uses | high, not executed | CellCoords.PopulateAsWrittenMisplaces | CellCoords.CellOfPositionInGrid |

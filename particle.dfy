/**
 * The particle record and the shared particle vector that the solver and
 * the grid both hold. A particle is an object whose methods update its
 * fields in place; the vector holds particles by value, so it is a
 * sequence of particle values that its owners reassign, element by
 * element, where the source updates a particle through a reference into
 * the vector.
 */
module Particles {
  import opened Geometry

  /**
   * `Particle::Radius()`: the fixed radius the grid sizes its cells from
   * (cell size 2 * Radius()), whatever radius an individual particle has.
   */
  function Radius(): real
  {
    0.1
  }

  /** The speed above which an update rescales the velocity (every particle's `maxVelocity`). */
  const MaxVelocity: real := 10.0

  /** `gridIndex` of a particle that has not been placed in any cell. */
  const Unplaced: int := -1

  /** The value of a particle: every field the core reads or writes. */
  datatype ParticleState = ParticleState(
    position: Vec3,
    velocity: Vec3,
    acceleration: Vec3,
    density: real,
    pressure: real,
    id: int,
    radius: real,
    gridIndex: int,
    paused: bool)

  /** The state of a particle fresh from the constructor. */
  function Initial(position: Vec3, radius: real, id: int): (s: ParticleState)
    ensures s.velocity == Zero && s.acceleration == Zero
    ensures s.density == 0.0 && s.pressure == 0.0
    ensures s.gridIndex == Unplaced && !s.paused
    ensures s.position == position && s.radius == radius && s.id == id
  {
    ParticleState(position, Zero, Zero, 0.0, 0.0, id, radius, Unplaced, false)
  }

  /**
   * Whether |v| > m. For m >= 0 this is |v|^2 > m^2, which needs no
   * square root; a negative bound is exceeded by every vector.
   */
  predicate TooFast(v: Vec3, m: real)
  {
    m < 0.0 || SqLength(v) > m * m
  }

  /**
   * One integration step. Above the speed limit the velocity becomes the
   * limit along `normalize(velocity)` and the acceleration is not applied;
   * otherwise the acceleration is applied first. The position then moves
   * by the new velocity, and nothing else changes. `normalize` stands for
   * glm::normalize.
   */
  function Integrated(s: ParticleState, dt: real, normalize: Vec3 -> Vec3): (r: ParticleState)
    ensures r == s.(position := r.position, velocity := r.velocity)
    ensures r.position == Add(s.position, Scale(r.velocity, dt))
    ensures TooFast(s.velocity, MaxVelocity) ==> r.velocity == Scale(normalize(s.velocity), MaxVelocity)
    ensures !TooFast(s.velocity, MaxVelocity) ==> r.velocity == Add(s.velocity, Scale(s.acceleration, dt))
  {
    var v := if TooFast(s.velocity, MaxVelocity) then Scale(normalize(s.velocity), MaxVelocity)
             else Add(s.velocity, Scale(s.acceleration, dt));
    s.(velocity := v, position := Add(s.position, Scale(v, dt)))
  }

  /** The physics half of `render`: a paused particle stays as it is, a running one integrates. */
  function Rendered(s: ParticleState, dt: real, normalize: Vec3 -> Vec3): (r: ParticleState)
    ensures s.paused ==> r == s
    ensures r == s.(position := r.position, velocity := r.velocity)
  {
    if s.paused then s else Integrated(s, dt, normalize)
  }

  class Particle {
    var position: Vec3
    var velocity: Vec3
    var acceleration: Vec3
    var density: real
    var pressure: real
    var id: int
    var radius: real
    var gridIndex: int
    var paused: bool

    /** The particle's value, as the vector stores it. */
    function State(): ParticleState
      reads this
    {
      ParticleState(position, velocity, acceleration, density, pressure, id, radius, gridIndex, paused)
    }

    /** Zero velocity and acceleration, zero density and pressure, unplaced and running. */
    constructor (position: Vec3, radius: real, id: int)
      ensures State() == Initial(position, radius, id)
    {
      this.position := position;
      this.velocity := Zero;
      this.acceleration := Zero;
      this.density := 0.0;
      this.pressure := 0.0;
      this.radius := radius;
      this.id := id;
      this.gridIndex := Unplaced;
      this.paused := false;
    }

    /**
     * A particle holding the given value. The vector's owners load the
     * element they update into one, call its methods, and store its value
     * back: that stands for calling the method through a reference into
     * the vector.
     */
    constructor FromState(s: ParticleState)
      ensures State() == s
    {
      position, velocity, acceleration := s.position, s.velocity, s.acceleration;
      density, pressure, id, radius := s.density, s.pressure, s.id, s.radius;
      gridIndex, paused := s.gridIndex, s.paused;
    }

    /** `setGridIndex`: caches the cell, and nothing else changes. */
    method SetGridIndex(g: int)
      modifies this
      ensures GetGridIndex() == g
      ensures State() == old(State()).(gridIndex := g)
    {
      gridIndex := g;
    }

    function GetGridIndex(): int
      reads this
    {
      gridIndex
    }

    function GetRadius(): real
      reads this
    {
      radius
    }

    /** `pause`: only the flag changes. */
    method Pause()
      modifies this
      ensures State() == old(State()).(paused := true)
    {
      paused := true;
    }

    /** `unpause`: only the flag changes. */
    method Unpause()
      modifies this
      ensures State() == old(State()).(paused := false)
    {
      paused := false;
    }

    /** `update`: one integration step, in place. */
    method Update(dt: real, normalize: Vec3 -> Vec3)
      modifies this
      ensures State() == Integrated(old(State()), dt, normalize)
    {
      if TooFast(velocity, MaxVelocity) {
        velocity := Scale(normalize(velocity), MaxVelocity);
        position := Add(position, Scale(velocity, dt));
        return;
      }
      velocity := Add(velocity, Scale(acceleration, dt));
      position := Add(position, Scale(velocity, dt));
    }

    /** `render` without its drawing calls: a paused particle is left untouched. */
    method Render(dt: real, normalize: Vec3 -> Vec3)
      modifies this
      ensures State() == Rendered(old(State()), dt, normalize)
      ensures old(paused) ==> State() == old(State())
    {
      if paused {
        return;
      }
      Update(dt, normalize);
    }
  }

  /** The cached grid indices of a sequence of particles, by slot. */
  function GridIndicesOf(ps: seq<ParticleState>): (g: seq<int>)
    ensures |g| == |ps| && forall p :: 0 <= p < |ps| ==> g[p] == ps[p].gridIndex
  {
    seq(|ps|, p requires 0 <= p < |ps| => ps[p].gridIndex)
  }

  /** The ids of a sequence of particles, by slot. */
  function IdsOf(ps: seq<ParticleState>): (ids: seq<int>)
    ensures |ids| == |ps| && forall p :: 0 <= p < |ps| ==> ids[p] == ps[p].id
  {
    seq(|ps|, p requires 0 <= p < |ps| => ps[p].id)
  }

  /** Every particle after its `render`, by slot. */
  function RenderedAll(ps: seq<ParticleState>, dt: real, normalize: Vec3 -> Vec3): (r: seq<ParticleState>)
    ensures |r| == |ps| && forall p :: 0 <= p < |ps| ==> r[p] == Rendered(ps[p], dt, normalize)
  {
    seq(|ps|, p requires 0 <= p < |ps| => Rendered(ps[p], dt, normalize))
  }

  /** The particles with every paused flag set to `flag`, nothing else changed. */
  function WithPaused(ps: seq<ParticleState>, flag: bool): (r: seq<ParticleState>)
    ensures |r| == |ps| && forall p :: 0 <= p < |ps| ==> r[p] == ps[p].(paused := flag)
  {
    seq(|ps|, p requires 0 <= p < |ps| => ps[p].(paused := flag))
  }

  /** The particles with slot p's cached grid index set to g[p], nothing else changed. */
  function WithGridIndices(ps: seq<ParticleState>, g: seq<int>): (r: seq<ParticleState>)
    requires |g| == |ps|
    ensures |r| == |ps| && forall p :: 0 <= p < |ps| ==> r[p] == ps[p].(gridIndex := g[p])
  {
    seq(|ps|, p requires 0 <= p < |ps| => ps[p].(gridIndex := g[p]))
  }

  /** The vector after a pass over it has handled the first i slots: those are settled, the rest as they were. */
  function Progress(settled: seq<ParticleState>, ps: seq<ParticleState>, i: nat): (r: seq<ParticleState>)
    requires i <= |ps| == |settled|
    ensures |r| == |ps|
    ensures forall p :: 0 <= p < |ps| ==> r[p] == if p < i then settled[p] else ps[p]
  {
    seq(|ps|, p requires 0 <= p < |ps| => if p < i then settled[p] else ps[p])
  }

  /** Once every particle has been handled, the vector is the settled one. */
  lemma ProgressComplete(settled: seq<ParticleState>, ps: seq<ParticleState>)
    requires |ps| == |settled|
    ensures Progress(settled, ps, |ps|) == settled
  {
    assert Progress(settled, ps, |ps|) == settled;
  }

  /**
   * The `std::vector<Particle>` shared by the solver and the grid: both
   * hold the same store, and each sees the other's updates.
   */
  class ParticleStore {
    var particles: seq<ParticleState>

    constructor ()
      ensures particles == []
    {
      particles := [];
    }

    /** Slot p holds the particle with id p (the grid indexes the vector by id). */
    ghost predicate IdsMatch()
      reads this
    {
      forall p :: 0 <= p < |particles| ==> particles[p].id == p
    }
  }
}

/** The point mass of the engine (include/gabbyphysics/particle.h,
    src/particle.cpp). Every mutator of the class returns the particle it
    leaves behind. */
module Particles {
  import opened Precision
  import opened Core

  /** A particle: kinematic state, the force accumulated for the next step,
      the damping factor and the inverse mass (0 meaning immovable). */
  datatype Particle = Particle(
    position: Vector3,
    velocity: Vector3,
    acceleration: Vector3,
    forceAccum: Vector3,
    damping: real,
    inverseMass: real)

  /** `integrate`: one explicit Euler step of length `dt`. A zero step is a
      no-op. Otherwise the position advances by the velocity held before the
      step, the velocity gains the acceleration plus the accumulated force
      weighted by the inverse mass and is then damped by `damping^dt`; no
      other field changes, so in particular the accumulator is not cleared. */
  function Integrate(lib: MathLib, p: Particle, dt: real): (r: Particle)
    ensures dt == 0.0 ==> r == p
    ensures r.acceleration == p.acceleration && r.forceAccum == p.forceAccum
    ensures r.damping == p.damping && r.inverseMass == p.inverseMass
    ensures dt != 0.0 ==> Minus(r.position, p.position) == Scale(p.velocity, dt)
    ensures dt != 0.0 ==>
      r.velocity == Scale(Plus(p.velocity, Scale(Plus(p.acceleration, Scale(p.forceAccum, p.inverseMass)), dt)),
                          lib.pow(p.damping, dt))
  {
    if dt == 0.0 then
      p
    else
      var position := AddScaledVector(p.position, p.velocity, dt);
      var resultingAccel := AddScaledVector(p.acceleration, p.forceAccum, p.inverseMass);
      var velocity := AddScaledVector(p.velocity, resultingAccel, dt);
      p.(position := position, velocity := ScaleAssign(velocity, lib.pow(p.damping, dt)))
  }

  /** An immovable particle ignores its accumulated force when integrated:
      whatever the accumulator holds, the step moves it the same way, and the
      acceleration still applies. */
  lemma InfiniteMassIgnoresForce(lib: MathLib, p: Particle, f: Vector3, dt: real)
    requires p.inverseMass == 0.0
    ensures Integrate(lib, p, dt).position == Integrate(lib, p.(forceAccum := f), dt).position
    ensures Integrate(lib, p, dt).velocity == Integrate(lib, p.(forceAccum := f), dt).velocity
    ensures dt != 0.0 ==>
      Integrate(lib, p, dt).velocity
        == Scale(AddScaledVector(p.velocity, p.acceleration, dt), lib.pow(p.damping, dt))
  {
  }

  /** `set_position`: only the position changes. */
  function SetPosition(p: Particle, position: Vector3): (r: Particle)
    ensures r.position == position && r.(position := p.position) == p
  {
    p.(position := position)
  }

  /** `get_position`. */
  function GetPosition(p: Particle): (r: Vector3)
    ensures SetPosition(p, r) == p
  {
    p.position
  }

  /** `set_velocity(const Vector3&)`: only the velocity changes. */
  function SetVelocity(p: Particle, velocity: Vector3): (r: Particle)
    ensures r.velocity == velocity && r.(velocity := p.velocity) == p
  {
    p.(velocity := velocity)
  }

  /** `set_velocity(x, y, z)`: the same as setting the assembled vector. */
  function SetVelocityComponents(p: Particle, x: real, y: real, z: real): (r: Particle)
    ensures r == SetVelocity(p, Vector3(x, y, z))
  {
    p.(velocity := p.velocity.(x := x, y := y, z := z))
  }

  /** `get_velocity`. */
  function GetVelocity(p: Particle): (r: Vector3)
    ensures SetVelocity(p, r) == p
  {
    p.velocity
  }

  /** `set_acceleration`: only the acceleration changes. */
  function SetAcceleration(p: Particle, acceleration: Vector3): (r: Particle)
    ensures r.acceleration == acceleration && r.(acceleration := p.acceleration) == p
  {
    p.(acceleration := acceleration)
  }

  /** `get_acceleration`. */
  function GetAcceleration(p: Particle): (r: Vector3)
    ensures SetAcceleration(p, r) == p
  {
    p.acceleration
  }

  /** `set_damping`: only the damping changes. */
  function SetDamping(p: Particle, damping: real): (r: Particle)
    ensures r.damping == damping && r.(damping := p.damping) == p
  {
    p.(damping := damping)
  }

  /** `get_damping`. */
  function GetDamping(p: Particle): (r: real)
    ensures SetDamping(p, r) == p
  {
    p.damping
  }

  /** `set_mass`: stores the reciprocal of a non-zero mass; nothing else
      changes. */
  function SetMass(p: Particle, mass: real): (r: Particle)
    requires mass != 0.0
    ensures r.inverseMass * mass == 1.0 && r.(inverseMass := p.inverseMass) == p
  {
    p.(inverseMass := 1.0 / mass)
  }

  /** `get_mass`: an inverse mass of 0 reads back as REAL_MAX, any other as
      its reciprocal. */
  function GetMass(p: Particle): (r: real)
    ensures p.inverseMass == 0.0 ==> r == REAL_MAX
    ensures p.inverseMass != 0.0 ==> r * p.inverseMass == 1.0
  {
    if p.inverseMass == 0.0 then REAL_MAX else 1.0 / p.inverseMass
  }

  /** `set_inverse_mass`: only the inverse mass changes. */
  function SetInverseMass(p: Particle, inverseMass: real): (r: Particle)
    ensures r.inverseMass == inverseMass && r.(inverseMass := p.inverseMass) == p
  {
    p.(inverseMass := inverseMass)
  }

  /** `get_inverse_mass`. */
  function GetInverseMass(p: Particle): (r: real)
    ensures SetInverseMass(p, r) == p
  {
    p.inverseMass
  }

  /** `has_finite_mass` is declared but has no definition in the engine; the
      meaning its one caller relies on is a non-zero inverse mass. */
  predicate HasFiniteMass(p: Particle) {
    p.inverseMass != 0.0
  }

  /** Every setter is undone by its getter: setting a field then reading it
      returns the value set, and setting a field to what it already holds is
      a no-op. */
  lemma SetterGetterRoundTrip(p: Particle, v: Vector3, d: real, m: real)
    ensures GetPosition(SetPosition(p, v)) == v && SetPosition(p, GetPosition(p)) == p
    ensures GetVelocity(SetVelocity(p, v)) == v && SetVelocity(p, GetVelocity(p)) == p
    ensures GetAcceleration(SetAcceleration(p, v)) == v && SetAcceleration(p, GetAcceleration(p)) == p
    ensures GetDamping(SetDamping(p, d)) == d && SetDamping(p, GetDamping(p)) == p
    ensures GetInverseMass(SetInverseMass(p, m)) == m && SetInverseMass(p, GetInverseMass(p)) == p
  {
  }

  /** `set_mass(m)` followed by `get_mass()` returns `m`, and the particle then
      has finite mass. */
  lemma SetMassGetMass(p: Particle, mass: real)
    requires mass != 0.0
    ensures GetMass(SetMass(p, mass)) == mass
    ensures HasFiniteMass(SetMass(p, mass))
  {
    var q := SetMass(p, mass);
    assert q.inverseMass * mass == 1.0;
    assert q.inverseMass != 0.0;
    assert GetMass(q) * q.inverseMass == 1.0;
    ReciprocalUnique(q.inverseMass, GetMass(q), mass);
  }

  lemma ReciprocalUnique(a: real, b: real, c: real)
    requires b * a == 1.0 && a * c == 1.0
    ensures b == c
  {
    calc {
      b;
      b * (a * c);
      (b * a) * c;
      c;
    }
  }

  /** `clear_accumulator`: the accumulator becomes the zero vector and
      nothing else changes. */
  function ClearAccumulator(p: Particle): (r: Particle)
    ensures forall f :: Plus(r.forceAccum, f) == f
    ensures r.(forceAccum := p.forceAccum) == p
  {
    p.(forceAccum := Clear(p.forceAccum))
  }

  /** `add_force`: the accumulator grows by `force` and nothing else changes. */
  function AddForce(p: Particle, force: Vector3): (r: Particle)
    ensures Minus(r.forceAccum, p.forceAccum) == force
    ensures r.(forceAccum := p.forceAccum) == p
  {
    p.(forceAccum := PlusAssign(p.forceAccum, force))
  }

  /** After clearing, the accumulator holds exactly the forces added since,
      summed in order. */
  lemma AccumulatorSums(p: Particle, f: Vector3, g: Vector3)
    ensures AddForce(ClearAccumulator(p), f).forceAccum == f
    ensures AddForce(AddForce(ClearAccumulator(p), f), g).forceAccum == Plus(f, g)
    ensures AddForce(AddForce(p, f), g) == AddForce(p, Plus(f, g))
  {
  }
}

/** Force generators and the registry that applies them
    (include/gabbyphysics/pfgen.h, src/pfgen.cpp). Particles live in an arena
    (`seq<Particle>`) and are named by index; a generator that refers to a
    second particle holds that particle's index. Every generator ignores the
    frame duration it is handed, so the model does not take one. */
module ForceGenerators {
  import opened Wrappers
  import opened Precision
  import opened Core
  import opened Particles

  /** The six concrete `ParticleForceGenerator` classes. The anchored
      spring's `Vector3*` anchor is held by value. */
  datatype ForceGenerator =
    | Gravity(gravity: Vector3)
    | Drag(k1: real, k2: real)
    | Spring(other: nat, springConstant: real, restLength: real)
    | AnchoredSpring(anchor: Vector3, springConstant: real, restLength: real)
    | Bungee(other: nat, springConstant: real, restLength: real)
    | Buoyancy(maxDepth: real, volume: real, liquidHeight: real, liquidDensity: real)

  /** The particle indices a generator holds are inside an arena of `n`. */
  predicate Targets(g: ForceGenerator, n: nat) {
    match g
    case Spring(other, _, _) => other < n
    case Bungee(other, _, _) => other < n
    case _ => true
  }

  /** `ParticleGravity::update_force`: nothing for an immovable particle;
      otherwise `gravity * mass`, the force that gives the particle exactly
      the acceleration `gravity`. */
  function GravityForce(p: Particle, gravity: Vector3): (r: Option<Vector3>)
    ensures r.None? <==> !HasFiniteMass(p)
    ensures r.Some? ==> Scale(r.value, p.inverseMass) == gravity
  {
    if !HasFiniteMass(p) then
      None
    else
      var f := Scale(gravity, GetMass(p));
      GravityAcceleration(gravity, GetMass(p), p.inverseMass);
      Some(f)
  }

  lemma GravityAcceleration(g: Vector3, m: real, im: real)
    requires m * im == 1.0
    ensures Scale(Scale(g, m), im) == g
  {
    assert (g.x * m) * im == g.x * (m * im);
    assert (g.y * m) * im == g.y * (m * im);
    assert (g.z * m) * im == g.z * (m * im);
  }

  /** `ParticleDrag::update_force`: the normalized velocity scaled by
      `-(k1 |v| + k2 |v|^2)`. A particle at rest receives the zero vector. */
  function DragForce(lib: MathLib, p: Particle, k1: real, k2: real): (r: Vector3)
    ensures p.velocity == Zero ==> r == Zero
  {
    ScaleAssign(Normalize(lib, p.velocity), -DragCoefficient(k1, k2, Magnitude(lib, p.velocity)))
  }

  /** `k1 * speed + k2 * speed * speed`, the drag's magnitude. */
  function DragCoefficient(k1: real, k2: real, speed: real): real {
    k1 * speed + k2 * speed * speed
  }

  /** `ParticleSpring` and `ParticleAnchoredSpring` share one computation:
      with `d` the offset from the other end, the normalized `d` scaled by
      `-k |len - rest|`. */
  function SpringForce(lib: MathLib, position: Vector3, otherEnd: Vector3, k: real, rest: real): (r: Vector3)
    ensures position == otherEnd ==> r == Zero
  {
    var d := MinusAssign(position, otherEnd);
    ScaleAssign(Normalize(lib, d), -SpringTension(k, rest, Magnitude(lib, d)))
  }

  /** `spring_constant * real_abs(len - rest_length)`. */
  function SpringTension(k: real, rest: real, len: real): real {
    k * Abs(len - rest)
  }

  /** `ParticleBungee::update_force`: nothing while the bungee is no longer
      than its rest length; otherwise the normalized offset `d` scaled by
      `-(k (rest - len))`. */
  function BungeeForce(lib: MathLib, position: Vector3, otherEnd: Vector3, k: real, rest: real): (r: Option<Vector3>)
    ensures r.None? <==> Magnitude(lib, Minus(position, otherEnd)) <= rest
  {
    var d := MinusAssign(position, otherEnd);
    var len := Magnitude(lib, d);
    if len <= rest then
      None
    else
      Some(ScaleAssign(Normalize(lib, d), -BungeeTension(k, rest, len)))
  }

  /** `spring_constant * (rest_length - len)`, negative once stretched. */
  function BungeeTension(k: real, rest: real, len: real): real {
    k * (rest - len)
  }

  /** `ParticleBuoyancy::update_force`, with `depth` the particle's height:
      nothing at or above `liquidHeight + maxDepth`; a purely vertical force
      of `density * volume` at or below `liquidHeight - maxDepth`; in between
      the vertical force the source's expression yields as C++ parses it,
      `((density * volume * (depth - maxDepth - liquidHeight)) / 2) * maxDepth`. */
  function BuoyancyForce(p: Particle, maxDepth: real, volume: real, liquidHeight: real, density: real): (r: Option<Vector3>)
    ensures r.None? <==> p.position.y >= liquidHeight + maxDepth
    ensures r.Some? ==> r.value.x == 0.0 && r.value.z == 0.0
  {
    var depth := p.position.y;
    if depth >= liquidHeight + maxDepth then
      None
    else if depth <= liquidHeight - maxDepth then
      Some(Vector3(0.0, density * volume, 0.0))
    else
      Some(Vector3(0.0, PartialLift(maxDepth, volume, liquidHeight, density, depth), 0.0))
  }

  /** The partially submerged force as the source's expression computes it:
      `liquid_density * volume * (depth - max_depth - liquid_height) / 2 * max_depth`,
      evaluated left to right. */
  function PartialLift(maxDepth: real, volume: real, liquidHeight: real, density: real, depth: real): real {
    density * volume * (depth - maxDepth - liquidHeight) / 2.0 * maxDepth
  }

  /** The force `update_force` adds to particle `i`, or `None` when it
      returns without adding one. */
  function Force(lib: MathLib, g: ForceGenerator, ps: seq<Particle>, i: nat): (r: Option<Vector3>)
    requires i < |ps| && Targets(g, |ps|)
    ensures g.Drag? || g.Spring? || g.AnchoredSpring? ==> r.Some?
    ensures g.Gravity? ==> (r.None? <==> ps[i].inverseMass == 0.0)
    ensures g.Bungee? ==>
      (r.None? <==> Magnitude(lib, Minus(ps[i].position, ps[g.other].position)) <= g.restLength)
    ensures g.Buoyancy? ==> (r.None? <==> ps[i].position.y >= g.liquidHeight + g.maxDepth)
  {
    match g
    case Gravity(gravity) => GravityForce(ps[i], gravity)
    case Drag(k1, k2) => Some(DragForce(lib, ps[i], k1, k2))
    case Spring(other, k, rest) => Some(SpringForce(lib, ps[i].position, ps[other].position, k, rest))
    case AnchoredSpring(anchor, k, rest) => Some(SpringForce(lib, ps[i].position, anchor, k, rest))
    case Bungee(other, k, rest) => BungeeForce(lib, ps[i].position, ps[other].position, k, rest)
    case Buoyancy(maxDepth, volume, height, density) => BuoyancyForce(ps[i], maxDepth, volume, height, density)
  }

  /** `update_force(particle i)`: only particle `i`'s accumulator changes,
      and it grows by the generator's force when there is one. */
  function UpdateForce(lib: MathLib, g: ForceGenerator, ps: seq<Particle>, i: nat): (r: seq<Particle>)
    requires i < |ps| && Targets(g, |ps|)
    ensures |r| == |ps|
    ensures forall j :: 0 <= j < |ps| && j != i ==> r[j] == ps[j]
    ensures r[i].(forceAccum := ps[i].forceAccum) == ps[i]
    ensures r[i].forceAccum == Plus(ps[i].forceAccum, ForceOrZero(Force(lib, g, ps, i)))
  {
    match Force(lib, g, ps, i)
    case None => ps
    case Some(f) => ps[i := AddForce(ps[i], f)]
  }

  /** What a generator contributes to the accumulator: its force, or nothing. */
  function ForceOrZero(f: Option<Vector3>): Vector3 {
    if f.Some? then f.value else Zero
  }

  // ---------------------------------------------------------------------
  // Properties of the individual generators

  /** Gravity leaves an immovable particle alone and otherwise adds
      `gravity * mass`. */
  lemma GravityOnlyMovesFiniteMass(p: Particle, gravity: Vector3)
    ensures !HasFiniteMass(p) ==> GravityForce(p, gravity) == None
    ensures HasFiniteMass(p) ==> GravityForce(p, gravity) == Some(Scale(gravity, GetMass(p)))
  {
  }

  /** With non-negative coefficients, drag is antiparallel to the velocity:
      a non-positive multiple of it, so its scalar product with the velocity
      is never positive. */
  lemma DragOpposesVelocity(lib: MathLib, p: Particle, k1: real, k2: real)
    requires lib.SqrtLaw() && 0.0 <= k1 && 0.0 <= k2
    ensures exists t :: t <= 0.0 && DragForce(lib, p, k1, k2) == Scale(p.velocity, t)
    ensures Dot(DragForce(lib, p, k1, k2), p.velocity) <= 0.0
  {
    var speed := Magnitude(lib, p.velocity);
    var c := DragCoefficient(k1, k2, speed);
    DragCoefficientNonNegative(k1, k2, speed);
    ScaledNormalSign(lib, p.velocity, -c);
    var u := ScaledNormalDirection(lib, p.velocity, -c);
    assert DragForce(lib, p, k1, k2) == Scale(p.velocity, u);
  }

  lemma DragCoefficientNonNegative(k1: real, k2: real, speed: real)
    requires 0.0 <= k1 && 0.0 <= k2 && 0.0 <= speed
    ensures 0.0 <= DragCoefficient(k1, k2, speed)
  {
    var a := k1 * speed;
    var ks := k2 * speed;
    var b := ks * speed;
    ProductNonNegative(k1, speed, a);
    ProductNonNegative(k2, speed, ks);
    ProductNonNegative(ks, speed, b);
  }

  /** Under the square-root law, drag on a moving particle has magnitude
      `k1 |v| + k2 |v|^2`. */
  lemma DragMagnitude(lib: MathLib, p: Particle, k1: real, k2: real)
    requires lib.SqrtLaw() && p.velocity != Zero
    ensures var c := DragCoefficient(k1, k2, Magnitude(lib, p.velocity));
            SquareMagnitude(DragForce(lib, p, k1, k2)) == c * c
  {
    var c := DragCoefficient(k1, k2, Magnitude(lib, p.velocity));
    ScaledNormalMagnitude(lib, p.velocity, -c);
    assert (-c) * (-c) == c * c;
  }

  /** A spring with a non-negative constant always pulls its particle toward
      the other end, whether stretched or compressed: the force is a
      non-positive multiple of the offset `position - otherEnd`. */
  lemma SpringPullsTogether(lib: MathLib, position: Vector3, otherEnd: Vector3, k: real, rest: real)
    requires 0.0 <= k
    ensures exists t :: t <= 0.0 && SpringForce(lib, position, otherEnd, k, rest) == Scale(Minus(position, otherEnd), t)
    ensures Dot(SpringForce(lib, position, otherEnd, k, rest), Minus(position, otherEnd)) <= 0.0
  {
    var d := Minus(position, otherEnd);
    var t := SpringTension(k, rest, Magnitude(lib, d));
    ProductNonNegative(k, Abs(Magnitude(lib, d) - rest), t);
    ScaledNormalSign(lib, d, -t);
    var u := ScaledNormalDirection(lib, d, -t);
    assert SpringForce(lib, position, otherEnd, k, rest) == Scale(d, u);
  }

  /** Under the square-root law the spring force has magnitude
      `k |len - rest|` whenever the ends are apart. */
  lemma SpringMagnitude(lib: MathLib, position: Vector3, otherEnd: Vector3, k: real, rest: real)
    requires lib.SqrtLaw() && position != otherEnd
    ensures var t := SpringTension(k, rest, Magnitude(lib, Minus(position, otherEnd)));
            SquareMagnitude(SpringForce(lib, position, otherEnd, k, rest)) == t * t
  {
    var d := Minus(position, otherEnd);
    assert d != Zero;
    var t := SpringTension(k, rest, Magnitude(lib, d));
    ScaledNormalMagnitude(lib, d, -t);
    assert (-t) * (-t) == t * t;
  }

  /** As written, a stretched bungee with a non-negative constant pushes its
      particle AWAY from the other end: the factor `-(k (rest - len))` is
      non-negative once `len > rest`, so the force is a non-negative multiple
      of the offset `position - otherEnd`. */
  lemma BungeePushesApart(lib: MathLib, position: Vector3, otherEnd: Vector3, k: real, rest: real)
    requires 0.0 <= k
    ensures var f := BungeeForce(lib, position, otherEnd, k, rest);
            f.Some? ==> exists t :: 0.0 <= t && f.value == Scale(Minus(position, otherEnd), t)
    ensures var f := BungeeForce(lib, position, otherEnd, k, rest);
            f.Some? ==> 0.0 <= Dot(f.value, Minus(position, otherEnd))
  {
    var d := Minus(position, otherEnd);
    var len := Magnitude(lib, d);
    if rest < len {
      var t := BungeeTension(k, rest, len);
      ProductNonPositive(k, rest - len, t);
      ScaledNormalSign(lib, d, -t);
      var u := ScaledNormalDirection(lib, d, -t);
      assert BungeeForce(lib, position, otherEnd, k, rest).value == Scale(d, u);
    }
  }

  /** Under the square-root law a stretched bungee whose ends are apart
      exerts a force of magnitude `k (len - rest)`. */
  lemma BungeeMagnitude(lib: MathLib, position: Vector3, otherEnd: Vector3, k: real, rest: real)
    requires lib.SqrtLaw() && position != otherEnd
    ensures var len := Magnitude(lib, Minus(position, otherEnd));
            var f := BungeeForce(lib, position, otherEnd, k, rest);
            f.Some? ==> SquareMagnitude(f.value) == (k * (len - rest)) * (k * (len - rest))
  {
    var d := Minus(position, otherEnd);
    assert d != Zero;
    var len := Magnitude(lib, d);
    if rest < len {
      var t := BungeeTension(k, rest, len);
      ScaledNormalMagnitude(lib, d, -t);
      assert (-t) * (-t) == t * t;
      assert k * (len - rest) == -t;
    }
  }

  /** Fully submerged, buoyancy lifts the particle by `density * volume`. */
  lemma BuoyancySubmerged(p: Particle, maxDepth: real, volume: real, liquidHeight: real, density: real)
    requires p.position.y <= liquidHeight - maxDepth && p.position.y < liquidHeight + maxDepth
    ensures BuoyancyForce(p, maxDepth, volume, liquidHeight, density) == Some(Vector3(0.0, density * volume, 0.0))
  {
  }

  /** As written, partial submersion pulls the particle DOWN: for a positive
      density and volume, every height strictly inside the band
      `(liquidHeight - maxDepth, liquidHeight + maxDepth)` gets a negative
      vertical force, the opposite of the fully submerged lift. */
  lemma BuoyancyPartialPullsDown(p: Particle, maxDepth: real, volume: real, liquidHeight: real, density: real)
    requires 0.0 < density && 0.0 < volume
    requires liquidHeight - maxDepth < p.position.y < liquidHeight + maxDepth
    ensures var f := BuoyancyForce(p, maxDepth, volume, liquidHeight, density);
            f.Some? && f.value.y < 0.0
  {
    PartialLiftNegative(maxDepth, volume, liquidHeight, density, p.position.y);
  }

  lemma PartialLiftNegative(maxDepth: real, volume: real, liquidHeight: real, density: real, depth: real)
    requires 0.0 < density && 0.0 < volume
    requires liquidHeight - maxDepth < depth < liquidHeight + maxDepth
    ensures PartialLift(maxDepth, volume, liquidHeight, density, depth) < 0.0
  {
    var dv := density * volume;
    var e := depth - maxDepth - liquidHeight;
    var a := dv * e;
    var b := a / 2.0;
    var y := b * maxDepth;
    ProductPositive(density, volume, dv);
    ProductPositive(dv, -e, -a);
    ProductPositive(-b, maxDepth, -y);
  }

  // ---------------------------------------------------------------------
  // The registry

  /** `ParticleForceRegistration`: a particle and the generator acting on it. */
  datatype Registration = Registration(particle: nat, generator: ForceGenerator)

  type Registry = seq<Registration>

  /** Every registration names particles inside an arena of `n`. */
  predicate ValidRegistry(reg: Registry, n: nat) {
    forall k :: 0 <= k < |reg| ==> reg[k].particle < n && Targets(reg[k].generator, n)
  }

  /** `add`: one registration appended at the end. */
  function Add(reg: Registry, particle: nat, g: ForceGenerator): (r: Registry)
    ensures |r| == |reg| + 1 && r[..|reg|] == reg
    ensures r[|reg|] == Registration(particle, g)
  {
    reg + [Registration(particle, g)]
  }

  /** `update_forces`: each registration's generator runs once, in
      registration order. Only accumulators change, and a particle no
      registration names is untouched. */
  function UpdateForces(lib: MathLib, reg: Registry, ps: seq<Particle>): (r: seq<Particle>)
    requires ValidRegistry(reg, |ps|)
    ensures |r| == |ps|
    ensures forall j :: 0 <= j < |ps| ==> r[j].(forceAccum := ps[j].forceAccum) == ps[j]
    ensures forall j :: 0 <= j < |ps| && (forall k :: 0 <= k < |reg| ==> reg[k].particle != j) ==> r[j] == ps[j]
    decreases |reg|
  {
    if reg == [] then
      ps
    else
      UpdateForces(lib, reg[1..], UpdateForce(lib, reg[0].generator, ps, reg[0].particle))
  }

  /** Running a registry extended by one registration runs the original
      registry and then the new registration. */
  lemma {:induction false} UpdateForcesAppend(lib: MathLib, reg: Registry, x: Registration, ps: seq<Particle>)
    requires ValidRegistry(reg, |ps|) && x.particle < |ps| && Targets(x.generator, |ps|)
    ensures ValidRegistry(reg + [x], |ps|)
    ensures UpdateForces(lib, reg + [x], ps)
         == UpdateForce(lib, x.generator, UpdateForces(lib, reg, ps), x.particle)
    decreases |reg|
  {
    assert ValidRegistry(reg + [x], |ps|) by {
      forall k | 0 <= k < |reg + [x]| ensures (reg + [x])[k] == if k < |reg| then reg[k] else x { }
    }
    if reg == [] {
      assert reg + [x] == [x];
      assert [x][1..] == [];
    } else {
      var qs := UpdateForce(lib, reg[0].generator, ps, reg[0].particle);
      assert (reg + [x])[1..] == reg[1..] + [x];
      assert (reg + [x])[0] == reg[0];
      assert ValidRegistry(reg[1..], |qs|) by {
        forall k | 0 <= k < |reg[1..]| ensures reg[1..][k] == reg[k + 1] { }
      }
      UpdateForcesAppend(lib, reg[1..], x, qs);
    }
  }

  /** The registration `add` appends runs after every earlier one. */
  lemma AddRunsLast(lib: MathLib, reg: Registry, particle: nat, g: ForceGenerator, ps: seq<Particle>)
    requires ValidRegistry(reg, |ps|) && particle < |ps| && Targets(g, |ps|)
    ensures ValidRegistry(Add(reg, particle, g), |ps|) &&
            UpdateForces(lib, Add(reg, particle, g), ps)
         == UpdateForce(lib, g, UpdateForces(lib, reg, ps), particle)
  {
    UpdateForcesAppend(lib, reg, Registration(particle, g), ps);
  }

  /** A generator reads positions, velocities and inverse masses but never an
      accumulator, so its force is the same in any arena that differs only
      in accumulators. */
  lemma ForceIgnoresAccumulators(lib: MathLib, g: ForceGenerator, ps: seq<Particle>, qs: seq<Particle>, i: nat)
    requires |ps| == |qs| && i < |ps| && Targets(g, |ps|)
    requires forall j :: 0 <= j < |ps| ==> qs[j].(forceAccum := ps[j].forceAccum) == ps[j]
    ensures Force(lib, g, ps, i) == Force(lib, g, qs, i)
  {
    assert qs[i].(forceAccum := ps[i].forceAccum) == ps[i];
    match g
    case Spring(other, _, _) =>
      assert qs[other].(forceAccum := ps[other].forceAccum) == ps[other];
    case Bungee(other, _, _) =>
      assert qs[other].(forceAccum := ps[other].forceAccum) == ps[other];
    case _ =>
  }

  /** The total force the registrations aimed at particle `j` contribute,
      each evaluated on the arena `ps`. */
  function ForceSum(lib: MathLib, reg: Registry, ps: seq<Particle>, j: nat): Vector3
    requires ValidRegistry(reg, |ps|)
    decreases |reg|
  {
    if reg == [] then
      Zero
    else
      var last := reg[|reg| - 1];
      var init := reg[..|reg| - 1];
      assert ValidRegistry(init, |ps|) by {
        forall k | 0 <= k < |init| ensures init[k] == reg[k] { }
      }
      var f := if last.particle == j then ForceOrZero(Force(lib, last.generator, ps, last.particle)) else Zero;
      Plus(ForceSum(lib, init, ps, j), f)
  }

  /** After `update_forces` every particle's accumulator holds what it held
      before plus the sum of the forces of exactly the registrations that
      name it. */
  lemma {:induction false} UpdateForcesSum(lib: MathLib, reg: Registry, ps: seq<Particle>, j: nat)
    requires ValidRegistry(reg, |ps|) && j < |ps|
    ensures UpdateForces(lib, reg, ps)[j].forceAccum == Plus(ps[j].forceAccum, ForceSum(lib, reg, ps, j))
    decreases |reg|
  {
    if reg == [] {
    } else {
      var last := reg[|reg| - 1];
      var init := reg[..|reg| - 1];
      assert reg == init + [last];
      assert ValidRegistry(init, |ps|) by {
        forall k | 0 <= k < |init| ensures init[k] == reg[k] { }
      }
      var qs := UpdateForces(lib, init, ps);
      var f := if last.particle == j then ForceOrZero(Force(lib, last.generator, ps, last.particle)) else Zero;
      assert ForceSum(lib, reg, ps, j) == Plus(ForceSum(lib, init, ps, j), f);
      assert UpdateForces(lib, reg, ps)[j].forceAccum == Plus(qs[j].forceAccum, f) by {
        UpdateForcesAppend(lib, init, last, ps);
        ForceIgnoresAccumulators(lib, last.generator, ps, qs, last.particle);
      }
      UpdateForcesSum(lib, init, ps, j);
      PlusAssociative(ps[j].forceAccum, ForceSum(lib, init, ps, j), f);
    }
  }

  lemma PlusAssociative(a: Vector3, b: Vector3, c: Vector3)
    ensures Plus(Plus(a, b), c) == Plus(a, Plus(b, c))
  {
  }

  /** The registry loop of `update_forces`, one registration per pass; it
      computes exactly `UpdateForces`. */
  method ApplyRegistry(lib: MathLib, reg: Registry, ps: seq<Particle>) returns (qs: seq<Particle>)
    requires ValidRegistry(reg, |ps|)
    ensures |qs| == |ps|
    ensures forall j :: 0 <= j < |ps| ==> qs[j].forceAccum == Plus(ps[j].forceAccum, ForceSum(lib, reg, ps, j))
    ensures forall j :: 0 <= j < |ps| ==> qs[j].(forceAccum := ps[j].forceAccum) == ps[j]
  {
    qs := ps;
    var k := 0;
    while k < |reg|
      invariant 0 <= k <= |reg|
      invariant ValidRegistry(reg[..k], |ps|)
      invariant qs == UpdateForces(lib, reg[..k], ps)
    {
      assert reg[..k + 1] == reg[..k] + [reg[k]];
      UpdateForcesAppend(lib, reg[..k], reg[k], ps);
      qs := UpdateForce(lib, reg[k].generator, qs, reg[k].particle);
      k := k + 1;
    }
    assert reg[..k] == reg;
    forall j | 0 <= j < |ps|
      ensures qs[j].forceAccum == Plus(ps[j].forceAccum, ForceSum(lib, reg, ps, j))
    {
      UpdateForcesSum(lib, reg, ps, j);
    }
  }
}

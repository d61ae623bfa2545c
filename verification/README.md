# gabbyphysics particle engine in Dafny

This project is a functional model of the gabbyphysics particle-physics
engine. It covers the engine's core:

- `Vector3` and its constants.
- `Particle` and its Euler integrator.
- The six force generators and `ParticleForceRegistry`.
- The link and constraint contact generators: cable, rod, cable constraint and rod constraint.
- `ParticleContact` and the worst-first `ParticleContactResolver`.
- `ParticleWorld` with its frame pipeline and contact buffer, and the `GroundContacts` generator.

## Modelling choices

**Particles.** Particles live in an arena (`seq<Particle>`) and are named by index. The engine's raw particle pointers become these indices. A contact's second particle is an `Option<nat>`.

**Mutation.** Every mutating member of the engine is a pure function. It returns the receiver (or the arena) as the member leaves it.

**Numbers.**
- `real` is Dafny's exact `real`. `float` rounding is not modelled.
- `unsigned` counters are `u32`. Wrap-around is written out where the code relies on it (`Wrap`).

**Library calls.** `sqrtf` and `powf` come from the C library, which this model cannot see. Operations take them as a `MathLib` value. The one law the proofs rely on, "`sqrt` of a non-negative number is its non-negative root", is the predicate `MathLib.SqrtLaw`. Lemmas that need it state it as a hypothesis.

**Generators as data.**
- Force generators and contact generators are tagged datatypes (`ForceGenerator`, `Link`, `ContactGenerator`).
- The registry is a sequence of `Registration`s.
- The world holds its generators in a sequence.

**Contact buffer.** The buffer is `seq<Option<Contact>>`:
- `Some` marks a slot written in this frame or an earlier one.
- `None` marks a slot that was never written.

This distinction matters because the resolver reads the slot just past the used contacts.

**Errors.** Two behaviours of the code are undefined in C++:
- reading a contact slot that was never written or lies past the buffer;
- writing past the end of the contact buffer.

The model turns both into `Failure` results (`ResolveError`, `GenerateError`, `StepError`), so they are visible rather than assumed away.

Modules follow the source files:

| Module | Engine files |
|---|---|
| `Precision` | precision.h |
| `Core` | core.h, core.cpp |
| `Particles` | particle.cpp |
| `ForceGenerators` | pfgen.cpp |
| `Contacts` | pcontacts.cpp |
| `Links` | plinks.cpp |
| `World` | pworld.cpp |

`Wrappers` holds `Option` and `Result`.

## Behaviour of the code as written

Each of these is stated as a lemma about the model, which follows the code:

- **Swapped axis constants.** `Vector3::X` is (0,1,0) and `Vector3::Y` is (1,0,0), so `X == UP` and `Y == RIGHT` (`Core.AxisConstantsSwapped`).
- **Rods never emit a contact.** `ParticleRod::current_length` returns the rod's own `length`, so `ParticleRod::add_contact` never writes anything (`Links.RodNeverEmits`).
- **The bungee pushes apart.** A stretched bungee pushes its particle away from the other end (`ForceGenerators.BungeePushesApart`).
- **Partial buoyancy pulls down.** In the partially submerged band, buoyancy as parsed by C++ is a downward force (`ForceGenerators.BuoyancyPartialPullsDown`).
- **The interpenetration sign is reversed.** Both particles of a pair move the same way. Two particles of equal inverse mass keep their relative position (`Contacts.EqualMassesKeepSeparation`).
- **The floor pushes deeper.** A particle below the floor is moved further down: its height doubles (`World.FloorPushesDeeper`).
- **The ceiling does not hold.** A particle rising above the ceiling is not stopped (`World.CeilingDoesNotHold`).
- **The resolver has no early exit.** When nothing approaches, a pass resolves the slot after the used contacts:
  - it re-resolves a contact left over from an earlier frame if the slot holds one;
  - it fails if the slot was never written (`Contacts.NoEarlyExit`);
  - so a world with a fixed budget that generates no contacts in its first frame fails (`World.FixedBudgetNeedsContacts`).
- **`GroundContacts` can exceed its limit.** It checks the limit only after each particle, so it can write `limit + 1` contacts, or 2 when the limit is 0 (`World.GroundExceedsLimit`, `World.GroundAddContact`).
- **The buffer can overrun.** `limit -= used` wraps when a generator overruns, so the `limit <= 0` test does not stop the loop (`World.LimitAfterUse`). With an empty buffer, the first taut cable already writes past the end (`World.EmptyBufferOverrun`).
- **`run_physics` has no guard on `dt`.** A zero step is not skipped. Integration does not move the particles, but forces are still accumulated. With no contact generators and an automatic budget, that accumulation is the whole effect (`World.ZeroStepStillAccumulates`). With generators, resolution can still move particles, because `resolve_interpenetration` ignores the duration and `resolve_velocity` still applies restitution.
- **A full buffer ends generation silently.** When a generator fills the buffer exactly, `limit` becomes 0 and the loop stops without any error; later generators do not run (`World.FullBufferStops`).
- **`run_physics` does not clear accumulators** (`World.StepKeepsAccumulators`).
- **Automatic budget.** The comment at include/gabbyphysics/pworld.h:26 promises `2*max_contacts` iterations. The code sets `2*used_contacts` (`World.Budget`).

## Model

| member | source | states |
|---|---|---|
| Precision.Wrap | src/pworld.cpp:38 | Unsigned 32-bit wrap-around: the result differs from the exact value by a multiple of `2^32`; identity on `[0, 2^32)`, adds `2^32` to a negative result down to `-2^32` |
| Precision.Abs | include/gabbyphysics/precision.h:13 | `real_abs` is non-negative and equals `x` or `-x` |
| Core.Dot | include/gabbyphysics/core.h:58-61 | `operator*(Vector3)`, the scalar product; its laws are stated by `DotSymmetric` and `DotLinear` |
| Core.DotSymmetric | include/gabbyphysics/core.h:58-61 | The scalar product is symmetric and is 0 against the zero vector |
| Core.Plus | include/gabbyphysics/core.h:63-66 | `operator+`; its laws are stated by `PlusLaws`, and `Minus` is its inverse |
| Core.PlusLaws | include/gabbyphysics/core.h:63-66 | Addition is commutative and the zero vector is an identity on either side |
| Core.Scale | include/gabbyphysics/core.h:73-76 | `operator*(real)`; its laws are stated by `ScaleLaws`, `ScaleProduct` and `DotLinear` |
| Core.ScaleLaws | include/gabbyphysics/core.h:73-76 | Scaling by 1 keeps a vector; scaling by 0, or scaling the zero vector, gives the zero vector |
| Core.ScaleProduct | include/gabbyphysics/core.h:73-76 | Scaling twice is scaling once by the product of the factors |
| Core.Minus | include/gabbyphysics/core.h:68-71 | `operator-` is undone by `operator+`: `(a - b) + b == a` |
| Core.Cross | include/gabbyphysics/core.h:78-83 | `operator%` is orthogonal to both operands |
| Core.PlusAssign | include/gabbyphysics/core.h:31-36 | `+=` leaves the receiver equal to `operator+` of the old receiver and the argument |
| Core.MinusAssign | include/gabbyphysics/core.h:38-43 | `-=` leaves the receiver equal to `operator-` |
| Core.ScaleAssign | include/gabbyphysics/core.h:45-50 | `*=` leaves the receiver equal to `operator*(real)` |
| Core.CrossAssign | include/gabbyphysics/core.h:53-56 | `%=` leaves the receiver equal to `operator%` |
| Core.ComponentProduct | include/gabbyphysics/core.h:92-96 | The all-ones vector is an identity, and a zero operand gives the zero vector |
| Core.ComponentProductUpdate | include/gabbyphysics/core.h:85-96 | `component_product_update` leaves the receiver equal to `component_product` |
| Core.DotProduct | include/gabbyphysics/core.h:98-101 | `dot_product` agrees with `operator*(Vector3)` and is symmetric |
| Core.VectorProduct | include/gabbyphysics/core.h:103-108 | `vector_product` agrees with `operator%` and negates when its operands swap |
| Core.AddScaledVector | include/gabbyphysics/core.h:110-115 | The receiver becomes `old + v * s`, i.e. it grows by exactly `v * s` |
| Core.SquareMagnitude | include/gabbyphysics/core.h:122-125 | `sqare_magnitude` is the scalar product of the vector with itself |
| Core.SquareMagnitudeSign | include/gabbyphysics/core.h:122-125 | The squared magnitude is `>= 0`, and `> 0` for every non-zero vector |
| Core.Magnitude | include/gabbyphysics/core.h:117-120 | Under the square-root law, `magnitude` is non-negative and its square is `sqare_magnitude` |
| Core.MagnitudePositive | include/gabbyphysics/core.h:117-120 | Under the square-root law, a non-zero vector has positive magnitude |
| Core.Normalize | include/gabbyphysics/core.h:127-134 | `normalize` leaves the zero vector unchanged; the result is always a positive multiple of the input |
| Core.NormalizeUnit | include/gabbyphysics/core.h:127-134 | Under the square-root law, a normalized non-zero vector times its magnitude is the original, and it has squared magnitude 1 |
| Core.ScaledNormalSign | include/gabbyphysics/core.h:127-134 | `normalize(d) * s` has a scalar product with `d` of the same sign as `s` |
| Core.ScaledNormalDirection | include/gabbyphysics/core.h:127-134 | `normalize(d) * s` is `d` scaled by a factor of the same sign as `s` |
| Core.ScaledNormalMagnitude | include/gabbyphysics/core.h:127-134 | Under the square-root law, `normalize(d) * s` has squared magnitude `s*s` |
| Core.Invert | include/gabbyphysics/core.h:136-141 | `invert` is scaling by -1 and gives the additive inverse |
| Core.InvertInvolution | include/gabbyphysics/core.h:136-141 | Inverting twice is the identity |
| Core.DotInvert | include/gabbyphysics/core.h:136-141 | Inverting either operand negates the scalar product |
| Core.DotLinear | include/gabbyphysics/core.h:58-76 | The scalar product distributes over `+` and `-` and pulls out scalars |
| Core.Clear | include/gabbyphysics/core.h:143-146 | `clear` yields the additive identity |
| Core.CrossAntiCommutative | include/gabbyphysics/core.h:103-108 | `a×b == invert(b×a)` and `a×a` is zero |
| Core.UpRightOrthonormal | src/core.cpp:7-8 | `UP` = (0,1,0) and `RIGHT` = (1,0,0) are orthogonal unit vectors |
| Core.GravityInvertsNegativeGravity | src/core.cpp:5-6 | `GRAVITY` is the inversion of `NEGATIVE_GRAVITY` |
| Core.AxisConstantsSwapped | src/core.cpp:7-10 | As initialised, `X == UP` and `Y == RIGHT`: neither names its own axis |
| Core.AxisZUnitOrthogonal | src/core.cpp:7-11 | `Z` = (0,0,1) is a unit vector orthogonal to `UP` and `RIGHT` |
| Core.AxisZCompletesFrame | src/core.cpp:7-11 | `RIGHT × UP == Z` |
| Particles.Integrate | src/particle.cpp:7-21 | A zero step changes nothing. Otherwise the position advances by the pre-step velocity times `dt`, and the velocity becomes `(v + (a + f*im)*dt) * pow(damping, dt)`. Acceleration, accumulator, damping and inverse mass never change |
| Particles.InfiniteMassIgnoresForce | src/particle.cpp:15-18 | With inverse mass 0, the accumulated force has no effect on the step; the acceleration still applies |
| Particles.SetPosition | src/particle.cpp:23-26 | Only the position changes, to the value given |
| Particles.GetPosition | src/particle.cpp:28-31 | Storing back what `get_position` returns leaves the particle unchanged |
| Particles.SetVelocity | src/particle.cpp:33-36 | Only the velocity changes, to the value given |
| Particles.SetVelocityComponents | src/particle.cpp:38-43 | `set_velocity(x,y,z)` is `set_velocity(Vector3(x,y,z))` |
| Particles.GetVelocity | src/particle.cpp:45-48 | Storing back what `get_velocity` returns leaves the particle unchanged |
| Particles.SetAcceleration | src/particle.cpp:50-53 | Only the acceleration changes, to the value given |
| Particles.GetAcceleration | src/particle.cpp:55-58 | Storing back what `get_acceleration` returns leaves the particle unchanged |
| Particles.SetDamping | src/particle.cpp:60-63 | Only the damping changes, to the value given |
| Particles.SetMass | src/particle.cpp:70-74 | The inverse mass becomes the reciprocal of the non-zero mass; nothing else changes |
| Particles.GetDamping | src/particle.cpp:65-68 | Storing back what `get_damping` returns leaves the particle unchanged |
| Particles.GetMass | src/particle.cpp:76-82 | Inverse mass 0 reads back as `REAL_MAX`; any other inverse mass reads back as its reciprocal |
| Particles.SetInverseMass | src/particle.cpp:84-87 | Only the inverse mass changes, to the value given |
| Particles.GetInverseMass | src/particle.cpp:89-92 | Storing back what `get_inverse_mass` returns leaves the particle unchanged |
| Particles.SetterGetterRoundTrip | src/particle.cpp:23-92 | Each getter returns what its setter stored, and setting a field to its current value is a no-op |
| Particles.SetMassGetMass | src/particle.cpp:70-82 | `set_mass(m)` followed by `get_mass()` returns `m` for `m != 0`, and the particle then has finite mass |
| Particles.ClearAccumulator | src/particle.cpp:94-97 | The accumulator becomes the additive identity; nothing else changes |
| Particles.AddForce | src/particle.cpp:99-102 | The accumulator grows by exactly `force`; nothing else changes |
| Particles.AccumulatorSums | src/particle.cpp:94-102 | After clearing, the accumulator holds the forces added since, summed in order; two `add_force` calls equal one call with their sum |
| ForceGenerators.GravityForce | src/pfgen.cpp:26-32 | No force exactly for an immovable particle; otherwise a force that, times the inverse mass, is exactly `gravity` |
| ForceGenerators.GravityOnlyMovesFiniteMass | src/pfgen.cpp:26-32 | Gravity does nothing to infinite mass and adds `gravity * mass` otherwise |
| ForceGenerators.DragForce | src/pfgen.cpp:36-47 | A particle at rest receives the zero vector |
| ForceGenerators.DragOpposesVelocity | src/pfgen.cpp:36-47 | With non-negative `k1`, `k2`, the drag force is a non-positive multiple of the velocity (antiparallel to it, or zero) and has no positive component along the velocity |
| ForceGenerators.DragMagnitude | src/pfgen.cpp:36-47 | Under the square-root law, drag on a moving particle has magnitude `k1*abs(v) + k2*abs(v)^2` |
| ForceGenerators.SpringForce | src/pfgen.cpp:54-87 | Coincident ends give the zero force (one computation serves the spring and the anchored spring) |
| ForceGenerators.SpringPullsTogether | src/pfgen.cpp:54-87 | With `k >= 0`, the force is a non-positive multiple of `position - other_end`: it points toward the other end or anchor, stretched or compressed, and has no component away from it |
| ForceGenerators.SpringMagnitude | src/pfgen.cpp:54-87 | Under the square-root law, the force has magnitude `k*abs(len - rest)` |
| ForceGenerators.BungeeForce | src/pfgen.cpp:94-109 | No force exactly when the distance is at most the rest length |
| ForceGenerators.BungeePushesApart | src/pfgen.cpp:104-108 | As written, a stretched bungee with `k >= 0` applies a non-negative multiple of `position - other_end`: it pushes its particle away from the other end |
| ForceGenerators.BungeeMagnitude | src/pfgen.cpp:104-108 | When a force is applied, its squared magnitude is `(k * (length - rest_length))^2` |
| ForceGenerators.BuoyancyForce | src/pfgen.cpp:116-134 | No force exactly at or above `liquidHeight + maxDepth`; any force is purely vertical |
| ForceGenerators.BuoyancySubmerged | src/pfgen.cpp:124-129 | Fully submerged, the force is `(0, density*volume, 0)` |
| ForceGenerators.BuoyancyPartialPullsDown | src/pfgen.cpp:132 | As parsed, for positive density and volume, every height inside the band gets a downward force |
| ForceGenerators.Force | src/pfgen.cpp:26-134 | The force each generator's `update_force` adds. Drag and both springs always add one. Gravity adds none exactly for an immovable particle. A bungee adds none exactly when the distance is at most the rest length. Buoyancy adds none exactly at or above `liquid_height + max_depth` |
| ForceGenerators.UpdateForce | src/pfgen.cpp:26-134 | Only the target particle's accumulator changes, and it grows by the generator's force (or by nothing) |
| ForceGenerators.Add | src/pfgen.cpp:14-20 | `add` appends exactly one registration at the end and keeps the earlier ones |
| ForceGenerators.UpdateForces | src/pfgen.cpp:5-12 | Only accumulators change, and a particle no registration names is untouched |
| ForceGenerators.UpdateForcesAppend | src/pfgen.cpp:5-12 | Running a registry extended by one registration runs the original registry, then the new one |
| ForceGenerators.AddRunsLast | src/pfgen.cpp:5-20 | The registration `add` appends runs after every earlier one |
| ForceGenerators.ForceIgnoresAccumulators | src/pfgen.cpp:26-134 | No generator reads an accumulator: its force is the same in arenas that differ only in accumulators |
| ForceGenerators.UpdateForcesSum | src/pfgen.cpp:5-12 | Each particle's accumulator ends as its old value plus the sum of the forces of exactly the registrations naming it |
| ForceGenerators.ApplyRegistry | src/pfgen.cpp:5-12 | The registry loop yields those accumulators and changes no other field |
| Contacts.SeparatingVelocity | src/pcontacts.cpp:33-39 | `(v0 - v1)·n`, with `v1` dropped when the second particle is absent |
| Contacts.TotalInverseMass | src/pcontacts.cpp:68-70 | With non-negative inverse masses the total is non-negative, and it is zero exactly when every particle present is immovable |
| Contacts.AccelerationSeparation | src/pcontacts.cpp:53-56 | The separating velocity that the accelerations alone build up over `duration`: `(a0 - a1)·n * duration`, with `a1` dropped when there is no second particle, and 0 for a zero step |
| Contacts.TargetSeparatingVelocity | src/pcontacts.cpp:50-64 | Non-negative when restitution is `>= 0` and the contact is approaching; clamped at 0 in the resting-contact branch |
| Contacts.ResolveVelocity | src/pcontacts.cpp:41-84 | Only the velocities of the contact's particles change; nothing changes when separating or when total inverse mass is `<= 0` |
| Contacts.VelocityChanges | src/pcontacts.cpp:43-83 | Each particle's velocity changes by the contact normal times `delta_velocity / total_inverse_mass` times its own inverse mass, with opposite signs for the two particles; no change when separating, when total is `<= 0`, or when both slots name the same particle |
| Contacts.ResolveVelocityKeepsTangent | src/pcontacts.cpp:75-83 | The velocity component along any direction perpendicular to the contact normal is unchanged |
| Contacts.ResolveVelocityReachesTarget | src/pcontacts.cpp:66-83 | With a unit normal and positive total inverse mass, the separating velocity afterwards equals the target, for every contact the engine can hold, including one naming the same particle twice |
| Contacts.ImmovableKeepsVelocity | src/pcontacts.cpp:79-83 | An inverse-mass-0 particle's velocity is never changed |
| Contacts.MomentumConserved | src/pcontacts.cpp:75-83 | For two distinct finite masses, `m0*dv0 + m1*dv1 == 0` |
| Contacts.ResolveInterpenetration | src/pcontacts.cpp:11-31 | Only the positions of the contact's particles change; nothing changes without penetration or with total inverse mass `<= 0` |
| Contacts.PositionChanges | src/pcontacts.cpp:13-30 | Each particle's position changes by the contact normal times `-penetration / total_inverse_mass` times its own inverse mass, the same direction for both particles (twice over when both slots name the same particle); no change without penetration or when total is `<= 0` |
| Contacts.LoneParticleMovesOut | src/pcontacts.cpp:24-26 | A penetrating lone movable particle moves by exactly `-penetration * n` |
| Contacts.EqualMassesKeepSeparation | src/pcontacts.cpp:24-30 | As written, both particles move the same way, so equal inverse masses keep their relative position |
| Contacts.Resolve | src/pcontacts.cpp:5-9 | Only positions and velocities of the contact's particles change |
| Contacts.NewResolver | src/pcontacts.cpp:86-88 | The constructor stores the iteration budget |
| Contacts.SetIterations | src/pcontacts.cpp:113-116 | Only the budget changes |
| Contacts.Scan | src/pcontacts.cpp:96-106 | The scan returns `num_contacts` exactly when nothing approaches; otherwise it returns the first index with the strictly smallest negative separating velocity |
| Contacts.SelectWorst | src/pcontacts.cpp:96-106 | The same selection, started as the engine starts it (`max = 0`, `max_idx = num_contacts`) |
| Contacts.WorstUnique | src/pcontacts.cpp:96-106 | At most one index satisfies the worst-contact description |
| Contacts.FindWorst | src/pcontacts.cpp:96-106 | The loop as written computes that index (loop invariants) |
| Contacts.ResolveStep | src/pcontacts.cpp:5-9 | Resolving one contact changes only positions and velocities |
| Contacts.Passes | src/pcontacts.cpp:92-110 | The loop makes exactly `n` passes, each starting with the worst contact. It fails only when a pass finds nothing approaching and the slot after the contacts is unwritten; a failure in the first pass means no contact approaches. Only positions and velocities change |
| Contacts.PassesReplay | src/pcontacts.cpp:92-110 | The final particles equal the picked contacts resolved one after another |
| Contacts.PassesPicksWorst | src/pcontacts.cpp:92-110 | The order of a successful run satisfies the reference `PicksWorst`: each pick is the worst contact, or the slot past the contacts when none approaches, of the particles the earlier picks left |
| Contacts.PassesPickWorst | src/pcontacts.cpp:92-110 | Pass `i` picks the worst contact of the particles as the earlier passes left them |
| Contacts.ResolveContacts | src/pcontacts.cpp:90-111 | `iterations_used` ends equal to the budget, exactly that many passes run, and only positions and velocities change; a failure in the first pass means no contact approaches |
| Contacts.NoEarlyExit | src/pcontacts.cpp:92-110 | With nothing approaching, the first pass still resolves slot `num_contacts`, failing when it is empty |
| Contacts.ZeroBudgetResolvesNothing | src/pcontacts.cpp:92-93 | A zero budget leaves the particles unchanged and resolves nothing |
| Links.LinkLength | src/plinks.cpp:6-11 | Under the square-root law, the distance between the particles is non-negative |
| Links.ConstraintLength | src/plinks.cpp:72-76 | Under the square-root law, the distance to the anchor is non-negative |
| Links.LengthViolation | src/plinks.cpp:100-129 | A length-violation contact has zero restitution and penetration `abs(current - length)`; its normal is kept when stretched and flipped when compressed |
| Links.AddContact | src/plinks.cpp:14-129 | Every link writes at most one contact, and it names particles in the arena |
| Links.CableContact | src/plinks.cpp:14-34 | A cable writes nothing iff slack. Otherwise it writes one contact with both particles, its restitution, the normal toward the second particle and penetration `length - max >= 0` |
| Links.RodCurrentLength | src/plinks.cpp:36-39 | As written, a rod's current length is its own `length`, whatever the positions of its particles |
| Links.RodLengthIgnoresDistance | src/plinks.cpp:36-39 | Two coincident particles are at distance 0, yet a rod of non-zero length between them reports that length |
| Links.RodNeverEmits | src/plinks.cpp:36-47 | As written, a rod never writes a contact |
| Links.CableConstraintContact | src/plinks.cpp:78-98 | Nothing iff slack; otherwise one contact for the particle alone, with the normal toward the anchor and penetration `length - max` |
| Links.RodConstraintContact | src/plinks.cpp:100-129 | Nothing iff the distance equals the length. Otherwise one contact for the particle alone with restitution 0 and positive penetration. Its normal points toward the anchor when stretched and away when compressed |
| World.OutsideY | src/pworld.cpp:103 | The height test: y below 0 or above `world_y` |
| World.OutsideX | src/pworld.cpp:114 | The width test: x below 0 or above `world_x` |
| World.ParticleGroundContacts | src/pworld.cpp:102-123 | Exactly one contact per axis on which the particle is out of range, none for a particle inside the world, each for the particle alone with restitution 0.2. There is an `UP` contact (penetration `-y`) iff y is outside `[0, world_y]`, and a `RIGHT` contact (penetration `-x`) iff x is outside `[0, world_x]` |
| World.GroundScan | src/pworld.cpp:97-128 | The output is a prefix of the unlimited contacts: all of them unless the limit was reached, and at most one past the limit (two past a zero limit) |
| World.GroundAddContact | src/pworld.cpp:95-129 | The same bounds, and all contacts are written when they number fewer than the limit |
| World.GroundExceedsLimit | src/pworld.cpp:125-126 | With limit 1, a particle below both bounds yields two contacts |
| World.CeilingDoesNotHold | src/pworld.cpp:103-111 | A rising particle above the ceiling gets a negative-penetration contact whose resolution changes nothing |
| World.FloorPushesDeeper | src/pworld.cpp:103-111 | A movable particle below the floor is moved down again by its depth: its height doubles |
| World.GeneratorContacts | src/pworld.cpp:37 | A link writes at most one contact; the ground writes within its bound |
| World.LimitAfterUse | src/pworld.cpp:38-42 | `limit -= used` is exact when the generator kept to the limit. It wraps above the old limit, never to 0, exactly when the generator overran |
| World.Generate | src/pworld.cpp:30-45 | Slots outside the used range are untouched, used slots hold valid contacts, and a failure names the generator that overran and the room it was given, which its contacts exceed |
| World.GenerateContacts | src/pworld.cpp:28-46 | The buffer stays valid. The first `used` slots are written and the rest keep what they held. A failure names a generator whose contacts exceeded the room it was given |
| World.FixedOutputsFill | src/pworld.cpp:33-45 | Generators whose output ignores the limit, given room, write their outputs in order from the cursor, and `used` is their total |
| World.AtMostOneNeverOverruns | src/pworld.cpp:33-43 | Generators that write at most one contact never overrun a buffer with a free slot |
| World.LinksFillBuffer | src/pworld.cpp:28-46 | Links alone, with room, fill the buffer with every link's contact in order |
| World.LinksNeverOverrun | src/pworld.cpp:28-46 | Links alone never overrun a non-empty buffer |
| World.EmptyBufferOverrun | src/pworld.cpp:30-38 | With `max_contacts == 0`, a taut cable as first generator writes past the end |
| World.FullBufferStops | src/pworld.cpp:38-42 | When a generator fills the buffer exactly, generation ends successfully with every slot used, and no later generator's contacts matter |
| World.NewWorld | src/pworld.cpp:6-11 | `max_contacts` unwritten slots, the stored budget, and automatic budgeting iff iterations is 0 |
| World.ClearAll | src/pworld.cpp:18-26 | Every listed particle's accumulator is cleared and the others are untouched |
| World.StartFrame | src/pworld.cpp:18-26 | Only the accumulators of registered particles change, and they become zero |
| World.IntegrateAll | src/pworld.cpp:48-56 | A particle listed once takes exactly one step and unlisted particles are untouched. Accumulators are kept, and a zero step changes nothing |
| World.Budget | src/pworld.cpp:66-69 | Automatic budgeting sets `2*used` wrapped to 32 bits; otherwise the resolver is kept |
| World.RunPhysics | src/pworld.cpp:58-71 | The world stays valid; its particle list, registry, generators and mode are kept; `iterations_used` ends equal to the budget, which is kept when fixed |
| World.RunPhysicsPipeline | src/pworld.cpp:58-71 | A step fails exactly when generation or resolution fails; a successful step's arena is what the resolver makes of the integrated particles and generated contacts, its buffer is the generated one, and an automatic budget is `2 * used` (32-bit) |
| World.StepKeepsAccumulators | src/pworld.cpp:58-71 | After a step, every accumulator holds exactly what `update_forces` left |
| World.ZeroStepStillAccumulates | src/pworld.cpp:58-71 | `dt = 0` is not skipped: forces are still accumulated |
| World.FixedBudgetNeedsContacts | src/pworld.cpp:64-70 | A fixed positive budget with no contacts in a fresh buffer fails at pass 0 |
| World.AutoBudgetWithoutContacts | src/pworld.cpp:64-70 | Automatic budgeting with no contacts gives budget 0 and a step that succeeds with forces and integration only |

## Left out

**Floating point and library calls.**
- Float semantics: `float` rounding, NaN and infinity are not modelled. `real` is exact, and the constants `0.2f` and `9.81` are taken as exact reals.
- `sqrtf`/`powf`: treated as opaque functions handed in as a `MathLib`. Only the square-root law is assumed, and only where a lemma says so. No law of `powf` is stated.
- Damping frame-rate independence: integrating `2*dt` once versus `dt` twice would need laws of `powf` that the engine does not guarantee. It is not stated.

**Declared but never defined in the engine.**
- `ParticleForceRegistry::remove`/`clear` (include/gabbyphysics/pfgen.h:32-34) have no definition.
- `Particle::has_finite_mass` has no definition. `HasFiniteMass` gives it the meaning its caller relies on: a non-zero inverse mass.
- The `get_position(Vector3*)`/`get_velocity(Vector3*)` overloads (include/gabbyphysics/particle.h:27, 31) have no definition. The callers' effect, a copy, is what the model uses.
- `Vector3::reflect`, `helper.h` and the web demos are not part of this model.

**Object lifetime and plumbing.**
- Destructors, `new[]`/`delete[]` and pointer ownership are not modelled. The world's `get_particles`/`get_contact_generators`/`get_force_registry` return references to fields, and the model reads those fields directly.
- Unused parameters: the `duration` argument that force generators ignore and the `limit` argument that links ignore are dropped.
- `GroundContacts::init` stores a pointer to the world's particle list. The model's `GroundContacts` holds its own index list instead.

**Member-specific simplifications.**
- Contacts.NewResolver: `iterations_used` is left uninitialised by the C++ constructor. The model starts it at 0 and states nothing about it.
- Particles.SetMass: requires `mass != 0`. The C++ would store an infinite inverse mass, which exact reals cannot represent.
- World.GroundScan: `count` is unbounded. The engine's unsigned `count` could wrap only after 2^32 - 1 contacts.
- Contacts.ResolveStep: a contact naming particles outside the arena, which the engine never builds, is treated as a no-op.
- Contacts.Passes: a pass reading the unwritten slot past the contacts, or a slot past the end of the buffer, is undefined behaviour in C++. It is reported as `NoContactAtSlot` rather than modelled.
- World.Generate: a generator writing past the end of the buffer is undefined behaviour in C++. It is reported as `BufferOverrun` rather than modelled past that point.
- Contacts.ResolveContacts: the contract states how many passes run, that each pass picks the worst contact, and that only positions and velocities change. These are given through `Passes`, `PassesReplay` and `PassesPickWorst` for any step function; it does not restate them for `resolve`.
- Default arguments: `ParticleBuoyancy`'s `liquid_density = 1000.0f` (include/gabbyphysics/pfgen.h:106) and `ParticleWorld`'s `iterations = 0` (include/gabbyphysics/pworld.h:27) are C++ call syntax. Every model constructor takes all its arguments; the value 0 for `iterations` selects the automatic budget as in the code.
- ForceGenerators.DragForce, ForceGenerators.SpringForce: the function contracts state only the zero case. Direction (a non-positive multiple of the velocity or of `position - other_end`) and magnitude are proved for all inputs in `DragOpposesVelocity`/`DragMagnitude` and `SpringPullsTogether`/`SpringMagnitude`.
- ForceGenerators.BungeeForce: the function contract states only when no force is applied. Direction and magnitude are proved in `BungeePushesApart` and `BungeeMagnitude`.
- Contacts.ResolveVelocity, Contacts.ResolveInterpenetration: the function contracts state which fields change; the amounts are proved in `VelocityChanges`, `ResolveVelocityKeepsTangent` and `PositionChanges`.
- World.RunPhysics: the function contract states what the step keeps; how its result follows from generation and resolution, and the automatic budget, are proved in `RunPhysicsPipeline`.

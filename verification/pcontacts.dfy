/** Contacts and the iterative contact resolver
    (include/gabbyphysics/pcontacts.h, src/pcontacts.cpp). A contact names
    its particles by arena index; the second particle is absent for a contact
    with the scenery. Resolution returns the updated arena. */
module Contacts {
  import opened Wrappers
  import opened Precision
  import opened Core
  import opened Particles

  /** `ParticleContact`: `particle[0]`, the optional `particle[1]`, the
      restitution, the contact normal and the penetration depth. */
  datatype Contact = Contact(p0: nat, p1: Option<nat>, restitution: real, normal: Vector3, penetration: real)

  /** The particles a contact names are inside an arena of `n`. */
  predicate ValidContact(c: Contact, n: nat) {
    c.p0 < n && (c.p1.Some? ==> c.p1.value < n)
  }

  /** Every contact of `cs` is valid for an arena of `n`. */
  predicate ValidContacts(cs: seq<Contact>, n: nat) {
    forall k :: 0 <= k < |cs| ==> ValidContact(cs[k], n)
  }

  /** Particle `j` is one of the contact's particles. */
  predicate Involves(c: Contact, j: nat) {
    j == c.p0 || c.p1 == Some(j)
  }

  /** `calculate_separating_velocity`: the relative velocity of the first
      particle with respect to the second (or to the fixed scenery) along the
      normal; negative when the particles approach. */
  function SeparatingVelocity(ps: seq<Particle>, c: Contact): (r: real)
    requires ValidContact(c, |ps|)
    ensures c.p1.None? ==> r == Dot(ps[c.p0].velocity, c.normal)
    ensures c.p1.Some? ==> r == Dot(ps[c.p0].velocity, c.normal) - Dot(ps[c.p1.value].velocity, c.normal)
  {
    var relative := ps[c.p0].velocity;
    var relative := if c.p1.Some? then MinusAssign(relative, ps[c.p1.value].velocity) else relative;
    DotLinear(ps[c.p0].velocity, if c.p1.Some? then ps[c.p1.value].velocity else Zero, c.normal, 1.0);
    Dot(relative, c.normal)
  }

  /** The sum of the inverse masses of the particles in contact. When those
      inverse masses are non-negative, it is non-negative and zero exactly
      when every particle in contact is immovable, which is when both
      resolution steps leave the contact alone. */
  function TotalInverseMass(ps: seq<Particle>, c: Contact): (r: real)
    requires ValidContact(c, |ps|)
    ensures c.p1.None? ==> r == ps[c.p0].inverseMass
    ensures c.p1.Some? ==> r == ps[c.p0].inverseMass + ps[c.p1.value].inverseMass
    ensures 0.0 <= ps[c.p0].inverseMass && (c.p1.Some? ==> 0.0 <= ps[c.p1.value].inverseMass) ==>
      0.0 <= r
      && (r == 0.0 <==> ps[c.p0].inverseMass == 0.0 && (c.p1.Some? ==> ps[c.p1.value].inverseMass == 0.0))
  {
    var total := GetInverseMass(ps[c.p0]);
    if c.p1.Some? then total + GetInverseMass(ps[c.p1.value]) else total
  }

  /** The separating velocity change due to acceleration alone over `dt`. */
  function AccelerationSeparation(ps: seq<Particle>, c: Contact, dt: real): (r: real)
    requires ValidContact(c, |ps|)
    ensures c.p1.None? ==> r == Dot(ps[c.p0].acceleration, c.normal) * dt
    ensures c.p1.Some? ==>
      r == (Dot(ps[c.p0].acceleration, c.normal) - Dot(ps[c.p1.value].acceleration, c.normal)) * dt
    ensures dt == 0.0 ==> r == 0.0
  {
    DotLinear(ps[c.p0].acceleration, if c.p1.Some? then ps[c.p1.value].acceleration else Zero, c.normal, 1.0);
    var accel := ps[c.p0].acceleration;
    var accel := if c.p1.Some? then MinusAssign(accel, ps[c.p1.value].acceleration) else accel;
    Dot(accel, c.normal) * dt
  }

  /** The separating velocity `resolve_velocity` aims for: the closing speed
      reflected with the restitution; when acceleration alone is closing the
      contact (a resting contact), the velocity that acceleration built up is
      discounted and the result clamped at zero. For a non-negative
      restitution and an approaching contact the target is never negative. */
  function TargetSeparatingVelocity(ps: seq<Particle>, c: Contact, dt: real): (r: real)
    requires ValidContact(c, |ps|)
    ensures 0.0 <= c.restitution && SeparatingVelocity(ps, c) <= 0.0 ==> 0.0 <= r
    ensures AccelerationSeparation(ps, c, dt) < 0.0 ==> 0.0 <= r
  {
    var separating := SeparatingVelocity(ps, c);
    var reflected := -separating * c.restitution;
    var accelSeparating := AccelerationSeparation(ps, c, dt);
    if accelSeparating < 0.0 then
      var target := reflected + c.restitution * accelSeparating;
      if target < 0.0 then 0.0 else target
    else
      if 0.0 <= c.restitution && separating <= 0.0 then
        ProductNonNegative(-separating, c.restitution, reflected);
        reflected
      else
        reflected
  }

  /** `resolve_velocity`: nothing when the contact is separating or both
      particles are immovable; otherwise an impulse along the normal, shared
      in proportion to inverse mass, brings the separating velocity to its
      target. Only the velocities of the contact's particles change. */
  function ResolveVelocity(ps: seq<Particle>, c: Contact, dt: real): (r: seq<Particle>)
    requires ValidContact(c, |ps|)
    ensures |r| == |ps|
    ensures forall j :: 0 <= j < |ps| && !Involves(c, j) ==> r[j] == ps[j]
    ensures forall j :: 0 <= j < |ps| ==> r[j].(velocity := ps[j].velocity) == ps[j]
    ensures SeparatingVelocity(ps, c) > 0.0 || TotalInverseMass(ps, c) <= 0.0 ==> r == ps
  {
    var separating := SeparatingVelocity(ps, c);
    if separating > 0.0 then
      ps
    else
      var delta := TargetSeparatingVelocity(ps, c, dt) - separating;
      var total := TotalInverseMass(ps, c);
      if total <= 0.0 then
        ps
      else
        var impulsePerInverseMass := Scale(c.normal, delta / total);
        var q0 := ps[c.p0];
        var ps1 := ps[c.p0 := SetVelocity(q0, Plus(GetVelocity(q0), Scale(impulsePerInverseMass, GetInverseMass(q0))))];
        if c.p1.Some? then
          var q1 := ps1[c.p1.value];
          ps1[c.p1.value := SetVelocity(q1, Plus(GetVelocity(q1), Scale(impulsePerInverseMass, -GetInverseMass(q1))))]
        else
          ps1
  }

  /** `resolve_interpenetration`: nothing without penetration or when both
      particles are immovable; otherwise each particle is moved along the
      normal by `-penetration * inverse_mass / total`. Only the positions of
      the contact's particles change. */
  function ResolveInterpenetration(ps: seq<Particle>, c: Contact): (r: seq<Particle>)
    requires ValidContact(c, |ps|)
    ensures |r| == |ps|
    ensures forall j :: 0 <= j < |ps| && !Involves(c, j) ==> r[j] == ps[j]
    ensures forall j :: 0 <= j < |ps| ==> r[j].(position := ps[j].position) == ps[j]
    ensures c.penetration <= 0.0 || TotalInverseMass(ps, c) <= 0.0 ==> r == ps
  {
    if c.penetration <= 0.0 then
      ps
    else
      var total := TotalInverseMass(ps, c);
      if total <= 0.0 then
        ps
      else
        var movePerInverseMass := Scale(c.normal, -c.penetration / total);
        var q0 := ps[c.p0];
        var ps1 := ps[c.p0 := SetPosition(q0, Plus(GetPosition(q0), Scale(movePerInverseMass, GetInverseMass(q0))))];
        if c.p1.Some? then
          var q1 := ps1[c.p1.value];
          ps1[c.p1.value := SetPosition(q1, Plus(GetPosition(q1), Scale(movePerInverseMass, GetInverseMass(q1))))]
        else
          ps1
  }

  /** `resolve`: velocity first, then interpenetration. Only positions and
      velocities of the contact's particles change. */
  function Resolve(ps: seq<Particle>, c: Contact, dt: real): (r: seq<Particle>)
    requires ValidContact(c, |ps|)
    ensures |r| == |ps|
    ensures forall j :: 0 <= j < |ps| && !Involves(c, j) ==> r[j] == ps[j]
    ensures forall j :: 0 <= j < |ps| ==> r[j].(position := ps[j].position, velocity := ps[j].velocity) == ps[j]
  {
    ResolveInterpenetration(ResolveVelocity(ps, c, dt), c)
  }

  // ---------------------------------------------------------------------
  // Properties of a single resolution

  /** The velocity change `resolve_velocity` gives particle `j`. */
  function VelocityChange(ps: seq<Particle>, c: Contact, dt: real, j: nat): Vector3
    requires ValidContact(c, |ps|) && j < |ps|
  {
    Minus(ResolveVelocity(ps, c, dt)[j].velocity, ps[j].velocity)
  }

  /** The velocity change `resolve_velocity` gives each particle of the
      contact: none when the contact is separating or nothing can move;
      otherwise `normal * impulse` weighted by the first particle's inverse
      mass and by the negated inverse mass of the second (which cancel when
      a contact names the same particle twice). */
  lemma VelocityChanges(ps: seq<Particle>, c: Contact, dt: real)
    requires ValidContact(c, |ps|)
    ensures var separating := SeparatingVelocity(ps, c);
            var total := TotalInverseMass(ps, c);
            if separating > 0.0 || total <= 0.0 then
              VelocityChange(ps, c, dt, c.p0) == Zero
              && (c.p1.Some? ==> VelocityChange(ps, c, dt, c.p1.value) == Zero)
            else
              var step := Scale(c.normal, (TargetSeparatingVelocity(ps, c, dt) - separating) / total);
              if c.p1 == Some(c.p0) then
                VelocityChange(ps, c, dt, c.p0) == Zero
              else
                VelocityChange(ps, c, dt, c.p0) == Scale(step, ps[c.p0].inverseMass)
                && (c.p1.Some? ==> VelocityChange(ps, c, dt, c.p1.value) == Scale(step, -ps[c.p1.value].inverseMass))
  {
  }

  /** `resolve_velocity` changes velocities only along the normal: the
      component along any direction orthogonal to the normal is kept, for
      every particle. */
  lemma ResolveVelocityKeepsTangent(ps: seq<Particle>, c: Contact, dt: real, w: Vector3, j: nat)
    requires ValidContact(c, |ps|) && j < |ps| && Dot(c.normal, w) == 0.0
    ensures Dot(ResolveVelocity(ps, c, dt)[j].velocity, w) == Dot(ps[j].velocity, w)
  {
    var separating := SeparatingVelocity(ps, c);
    var total := TotalInverseMass(ps, c);
    var r := ResolveVelocity(ps, c, dt);
    if Involves(c, j) && separating <= 0.0 && 0.0 < total {
      VelocityChanges(ps, c, dt);
      var step := Scale(c.normal, (TargetSeparatingVelocity(ps, c, dt) - separating) / total);
      var change := Minus(r[j].velocity, ps[j].velocity);
      assert Dot(change, w) == 0.0 by {
        if c.p1 == Some(c.p0) {
        } else if j == c.p0 {
          NormalStepOrthogonal(c.normal, (TargetSeparatingVelocity(ps, c, dt) - separating) / total, ps[j].inverseMass, w);
        } else {
          NormalStepOrthogonal(c.normal, (TargetSeparatingVelocity(ps, c, dt) - separating) / total, -ps[j].inverseMass, w);
        }
      }
      DotLinear(r[j].velocity, ps[j].velocity, w, 1.0);
    }
  }

  /** A multiple of the normal is orthogonal to whatever the normal is. */
  lemma NormalStepOrthogonal(n: Vector3, a: real, m: real, w: Vector3)
    requires Dot(n, w) == 0.0
    ensures Dot(Scale(Scale(n, a), m), w) == 0.0
  {
    DotScale(n, w, a);
    DotScale(Scale(n, a), w, m);
  }

  /** The position change `resolve_interpenetration` gives particle `j`. */
  function PositionChange(ps: seq<Particle>, c: Contact, j: nat): Vector3
    requires ValidContact(c, |ps|) && j < |ps|
  {
    Minus(ResolveInterpenetration(ps, c)[j].position, ps[j].position)
  }

  /** The move `resolve_interpenetration` gives each particle of the
      contact: none without penetration or when nothing can move;
      otherwise `normal * (-penetration / total)` weighted by each
      particle's own inverse mass, with the same sign for both. */
  lemma PositionChanges(ps: seq<Particle>, c: Contact)
    requires ValidContact(c, |ps|)
    ensures var total := TotalInverseMass(ps, c);
            if c.penetration <= 0.0 || total <= 0.0 then
              PositionChange(ps, c, c.p0) == Zero
              && (c.p1.Some? ==> PositionChange(ps, c, c.p1.value) == Zero)
            else
              var step := Scale(c.normal, -c.penetration / total);
              if c.p1 == Some(c.p0) then
                PositionChange(ps, c, c.p0) == Plus(Scale(step, ps[c.p0].inverseMass), Scale(step, ps[c.p0].inverseMass))
              else
                PositionChange(ps, c, c.p0) == Scale(step, ps[c.p0].inverseMass)
                && (c.p1.Some? ==> PositionChange(ps, c, c.p1.value) == Scale(step, ps[c.p1.value].inverseMass))
  {
  }

  /** With a unit normal, two distinct particles (or one) and some inverse
      mass to share the impulse, an approaching contact leaves
      `resolve_velocity` with exactly the target separating velocity. */
  lemma ResolveVelocityReachesTarget(ps: seq<Particle>, c: Contact, dt: real)
    requires ValidContact(c, |ps|)
    requires Dot(c.normal, c.normal) == 1.0
    requires SeparatingVelocity(ps, c) <= 0.0 && 0.0 < TotalInverseMass(ps, c)
    ensures SeparatingVelocity(ResolveVelocity(ps, c, dt), c) == TargetSeparatingVelocity(ps, c, dt)
  {
    if c.p1 == Some(c.p0) {
      // Both slots name one particle: nothing separates, the target is 0,
      // and the two opposite impulses cancel.
      VelocityChanges(ps, c, dt);
      assert ResolveVelocity(ps, c, dt)[c.p0].velocity == ps[c.p0].velocity;
      assert AccelerationSeparation(ps, c, dt) == 0.0;
      return;
    }
    var separating := SeparatingVelocity(ps, c);
    var delta := TargetSeparatingVelocity(ps, c, dt) - separating;
    var total := TotalInverseMass(ps, c);
    var impulse := delta / total;
    var n := c.normal;
    var step := Scale(n, impulse);
    var r := ResolveVelocity(ps, c, dt);
    var im0 := ps[c.p0].inverseMass;
    assert r[c.p0].velocity == Plus(ps[c.p0].velocity, Scale(step, im0));
    var gain0 := impulse * im0;
    assert Dot(r[c.p0].velocity, n) == Dot(ps[c.p0].velocity, n) + gain0 by {
      DotLinear(ps[c.p0].velocity, Scale(step, im0), n, 1.0);
      ImpulseAlongNormal(n, impulse, im0);
    }
    if c.p1.Some? {
      var j := c.p1.value;
      var im1 := ps[j].inverseMass;
      assert r[j].velocity == Plus(ps[j].velocity, Scale(step, -im1));
      var gain1 := impulse * -im1;
      assert Dot(r[j].velocity, n) == Dot(ps[j].velocity, n) + gain1 by {
        DotLinear(ps[j].velocity, Scale(step, -im1), n, 1.0);
        ImpulseAlongNormal(n, impulse, -im1);
      }
      ImpulseShares(delta, total, im0, im1, impulse, gain0, gain1);
    } else {
      ImpulseShares(delta, total, im0, 0.0, impulse, gain0, impulse * -0.0);
    }
  }

  /** With a unit normal, scaling the step `n * impulse` by `m` moves the
      velocity along the normal by `impulse * m`. */
  lemma ImpulseAlongNormal(n: Vector3, impulse: real, m: real)
    requires Dot(n, n) == 1.0
    ensures Dot(Scale(Scale(n, impulse), m), n) == impulse * m
  {
    var a := Dot(Scale(n, impulse), n);
    assert a == impulse by {
      DotScale(n, n, impulse);
    }
    assert Dot(Scale(Scale(n, impulse), m), n) == m * a by {
      DotScale(Scale(n, impulse), n, m);
    }
  }

  /** The impulse `delta / total`, shared in proportion to the inverse masses
      that make up `total`, adds up to `delta`. */
  lemma ImpulseShares(delta: real, total: real, im0: real, im1: real, impulse: real, gain0: real, gain1: real)
    requires total != 0.0 && total == im0 + im1 && impulse == delta / total
    requires gain0 == impulse * im0 && gain1 == impulse * -im1
    ensures gain0 - gain1 == delta
  {
    assert impulse * total == delta;
    assert impulse * im0 + impulse * im1 == impulse * total;
  }

  /** An immovable particle's velocity is never changed by `resolve_velocity`. */
  lemma ImmovableKeepsVelocity(ps: seq<Particle>, c: Contact, dt: real, j: nat)
    requires ValidContact(c, |ps|) && j < |ps| && ps[j].inverseMass == 0.0
    ensures ResolveVelocity(ps, c, dt)[j].velocity == ps[j].velocity
  {
  }

  /** For two distinct particles of finite mass, the velocity changes carry
      equal and opposite momentum: `m0 * dv0 + m1 * dv1 == 0`. */
  lemma MomentumConserved(ps: seq<Particle>, c: Contact, dt: real)
    requires ValidContact(c, |ps|) && c.p1.Some? && c.p1.value != c.p0
    requires HasFiniteMass(ps[c.p0]) && HasFiniteMass(ps[c.p1.value])
    ensures Plus(Scale(VelocityChange(ps, c, dt, c.p0), GetMass(ps[c.p0])),
                 Scale(VelocityChange(ps, c, dt, c.p1.value), GetMass(ps[c.p1.value]))) == Zero
  {
    var j := c.p1.value;
    var separating := SeparatingVelocity(ps, c);
    var total := TotalInverseMass(ps, c);
    if separating > 0.0 || total <= 0.0 {
      assert VelocityChange(ps, c, dt, c.p0) == Zero;
      assert VelocityChange(ps, c, dt, j) == Zero;
    } else {
      var delta := TargetSeparatingVelocity(ps, c, dt) - separating;
      var step := Scale(c.normal, delta / total);
      var im0 := ps[c.p0].inverseMass;
      var im1 := ps[j].inverseMass;
      assert VelocityChange(ps, c, dt, c.p0) == Scale(step, im0);
      assert VelocityChange(ps, c, dt, j) == Scale(step, -im1);
      ScaleInverse(step, im0, GetMass(ps[c.p0]));
      ScaleInverse(step, -im1, GetMass(ps[j]));
    }
  }

  /** Scaling by the inverse mass and then by the mass is the identity;
      `ScaleInverse(v, -im, m)` gives the negation. */
  lemma ScaleInverse(v: Vector3, im: real, m: real)
    requires m * im == 1.0 || m * im == -1.0
    ensures m * im == 1.0 ==> Scale(Scale(v, im), m) == v
    ensures m * im == -1.0 ==> Scale(Scale(v, im), m) == Invert(v)
  {
    assert (v.x * im) * m == v.x * (m * im);
    assert (v.y * im) * m == v.y * (m * im);
    assert (v.z * im) * m == v.z * (m * im);
  }

  /** A particle in contact with the scenery alone, once penetrating, is
      moved out by exactly `penetration` against the normal. */
  lemma LoneParticleMovesOut(ps: seq<Particle>, c: Contact)
    requires ValidContact(c, |ps|) && c.p1.None?
    requires 0.0 < c.penetration && 0.0 < ps[c.p0].inverseMass
    ensures ResolveInterpenetration(ps, c)[c.p0].position == Plus(ps[c.p0].position, Scale(c.normal, -c.penetration))
  {
    var im := ps[c.p0].inverseMass;
    var k := -c.penetration / im;
    assert ResolveInterpenetration(ps, c)[c.p0].position == Plus(ps[c.p0].position, Scale(Scale(c.normal, k), im));
    assert k * im == -c.penetration;
    ScaleProduct(c.normal, k, im);
  }

  /** As written, both particles of a penetrating pair are moved the SAME way
      along the normal, so two particles of equal inverse mass keep their
      relative position: interpenetration between them is never reduced. */
  lemma EqualMassesKeepSeparation(ps: seq<Particle>, c: Contact)
    requires ValidContact(c, |ps|) && c.p1.Some? && c.p1.value != c.p0
    requires ps[c.p0].inverseMass == ps[c.p1.value].inverseMass
    ensures var r := ResolveInterpenetration(ps, c);
            Minus(r[c.p0].position, r[c.p1.value].position)
              == Minus(ps[c.p0].position, ps[c.p1.value].position)
  {
  }

  // ---------------------------------------------------------------------
  // The resolver

  /** `ParticleContactResolver`: the iteration budget and the number of
      passes made by the last `resolve_contacts`. */
  datatype ContactResolver = ContactResolver(iterations: u32, iterationsUsed: u32)

  /** The constructor: the budget is stored; the pass counter starts at 0. */
  function NewResolver(iterations: u32): (r: ContactResolver)
    ensures r.iterations == iterations
  {
    ContactResolver(iterations, 0)
  }

  /** `set_iterations`: only the budget changes. */
  function SetIterations(res: ContactResolver, iterations: u32): (r: ContactResolver)
    ensures r.iterations == iterations && r.iterationsUsed == res.iterationsUsed
  {
    res.(iterations := iterations)
  }

  /** Contact `k` is the one a pass of `resolve_contacts` picks: it is
      approaching, none is approaching faster, and every earlier contact is
      strictly slower (the scan keeps the first of equals). */
  ghost predicate IsWorst(ps: seq<Particle>, cs: seq<Contact>, k: nat)
    requires ValidContacts(cs, |ps|)
  {
    k < |cs|
    && SeparatingVelocity(ps, cs[k]) < 0.0
    && (forall j :: 0 <= j < |cs| ==> SeparatingVelocity(ps, cs[k]) <= SeparatingVelocity(ps, cs[j]))
    && (forall j :: 0 <= j < k ==> SeparatingVelocity(ps, cs[k]) < SeparatingVelocity(ps, cs[j]))
  }

  /** No contact is approaching. */
  ghost predicate NoneApproaching(ps: seq<Particle>, cs: seq<Contact>)
    requires ValidContacts(cs, |ps|)
  {
    forall j :: 0 <= j < |cs| ==> 0.0 <= SeparatingVelocity(ps, cs[j])
  }

  /** The inner `for` loop of `resolve_contacts` from index `i`, holding the
      smallest separating velocity seen so far (`best`, starting at 0) and
      its index (`bestIdx`, starting at `num_contacts`). */
  function Scan(ps: seq<Particle>, cs: seq<Contact>, i: nat, best: real, bestIdx: nat): (r: nat)
    requires ValidContacts(cs, |ps|) && i <= |cs|
    requires bestIdx == |cs| ==> best == 0.0 && forall j :: 0 <= j < i ==> 0.0 <= SeparatingVelocity(ps, cs[j])
    requires bestIdx < |cs| ==> bestIdx < i && best == SeparatingVelocity(ps, cs[bestIdx]) < 0.0
    requires bestIdx < |cs| ==> forall j :: 0 <= j < i ==> best <= SeparatingVelocity(ps, cs[j])
    requires bestIdx < |cs| ==> forall j :: 0 <= j < bestIdx ==> best < SeparatingVelocity(ps, cs[j])
    requires bestIdx <= |cs|
    ensures r <= |cs|
    ensures r == |cs| <==> NoneApproaching(ps, cs)
    ensures r < |cs| ==> IsWorst(ps, cs, r)
    decreases |cs| - i
  {
    if i == |cs| then
      bestIdx
    else
      var separating := SeparatingVelocity(ps, cs[i]);
      if separating < best then Scan(ps, cs, i + 1, separating, i) else Scan(ps, cs, i + 1, best, bestIdx)
  }

  /** The index one pass resolves: the worst approaching contact, or
      `|cs|` (one past the contacts) when none approaches. */
  function SelectWorst(ps: seq<Particle>, cs: seq<Contact>): (r: nat)
    requires ValidContacts(cs, |ps|)
    ensures r <= |cs|
    ensures r == |cs| <==> NoneApproaching(ps, cs)
    ensures r < |cs| ==> IsWorst(ps, cs, r)
  {
    Scan(ps, cs, 0, 0.0, |cs|)
  }

  /** The worst contact is unique. */
  lemma WorstUnique(ps: seq<Particle>, cs: seq<Contact>, a: nat, b: nat)
    requires ValidContacts(cs, |ps|) && IsWorst(ps, cs, a) && IsWorst(ps, cs, b)
    ensures a == b
  {
  }

  /** The inner loop of `resolve_contacts` as the engine writes it. */
  method FindWorst(ps: seq<Particle>, cs: seq<Contact>) returns (maxIdx: nat)
    requires ValidContacts(cs, |ps|)
    ensures maxIdx <= |cs|
    ensures maxIdx == |cs| <==> NoneApproaching(ps, cs)
    ensures maxIdx < |cs| ==> IsWorst(ps, cs, maxIdx)
  {
    var max := 0.0;
    maxIdx := |cs|;
    var i := 0;
    while i < |cs|
      invariant 0 <= i <= |cs| && maxIdx <= |cs|
      invariant maxIdx == |cs| ==> max == 0.0 && forall j :: 0 <= j < i ==> 0.0 <= SeparatingVelocity(ps, cs[j])
      invariant maxIdx < |cs| ==> maxIdx < i && max == SeparatingVelocity(ps, cs[maxIdx]) < 0.0
      invariant maxIdx < |cs| ==> forall j :: 0 <= j < i ==> max <= SeparatingVelocity(ps, cs[j])
      invariant maxIdx < |cs| ==> forall j :: 0 <= j < maxIdx ==> max < SeparatingVelocity(ps, cs[j])
    {
      var separating := SeparatingVelocity(ps, cs[i]);
      if separating < max {
        max := separating;
        maxIdx := i;
      }
      i := i + 1;
    }
  }

  /** Why `resolve_contacts` stopped short: in pass `iteration` no contact
      was approaching, and the slot it then resolves (the one after the
      contacts) holds no contact. */
  datatype ResolveError = NoContactAtSlot(iteration: nat)

  /** The particles after resolution and, per pass, the index resolved. */
  datatype Resolution = Resolution(particles: seq<Particle>, order: seq<nat>)

  /** Nothing but positions and velocities changed from `ps` to `r`. */
  predicate MovesOnly(ps: seq<Particle>, r: seq<Particle>) {
    |r| == |ps|
    && forall j :: 0 <= j < |ps| ==> r[j].(position := ps[j].position, velocity := ps[j].velocity) == ps[j]
  }

  /** The resolution of one contact, as the passes of the resolver see it. */
  type Step = (seq<Particle>, Contact) -> seq<Particle>

  /** `resolve(duration)` as a step; a contact naming particles outside the
      arena (which the engine never builds) is left alone. */
  function ResolveStep(dt: real): (step: Step)
    ensures forall ps, c :: MovesOnly(ps, step(ps, c))
  {
    (ps: seq<Particle>, c: Contact) => if ValidContact(c, |ps|) then Resolve(ps, c, dt) else ps
  }

  /** The contact a pass resolves at index `k`: one of the contacts, or the
      one held in the slot just past them. */
  function Pick(cs: seq<Contact>, stale: Option<Contact>, k: nat): Contact
    requires k < |cs| || (k == |cs| && stale.Some?)
  {
    if k < |cs| then cs[k] else stale.value
  }

  /** Indices a pass can resolve. */
  predicate Pickable(cs: seq<Contact>, stale: Option<Contact>, order: seq<nat>) {
    forall k :: 0 <= k < |order| ==> order[k] < |cs| || (order[k] == |cs| && stale.Some?)
  }

  /** Reference: the particles after resolving the contacts at `order`, one
      after the other. */
  function Replay(step: Step, ps: seq<Particle>, cs: seq<Contact>, stale: Option<Contact>, order: seq<nat>): seq<Particle>
    requires Pickable(cs, stale, order)
    decreases |order|
  {
    if order == [] then ps else Replay(step, step(ps, Pick(cs, stale, order[0])), cs, stale, order[1..])
  }

  /** `n` passes of `resolve_contacts` over the used contacts `cs`, each
      resolving with `step`. `stale` is what the buffer holds just past the
      contacts: a contact left from an earlier frame, or `None` when the
      slot was never written or lies beyond the buffer. Every pass runs; one
      in which no contact approaches resolves the slot past the contacts. */
  function Passes(step: Step, ps: seq<Particle>, cs: seq<Contact>, stale: Option<Contact>, n: nat, first: nat):
    (r: Result<Resolution, ResolveError>)
    requires forall q, c :: MovesOnly(q, step(q, c))
    requires ValidContacts(cs, |ps|)
    ensures r.Success? ==> MovesOnly(ps, r.value.particles) && |r.value.order| == n
    ensures r.Success? ==> Pickable(cs, stale, r.value.order)
    ensures r.Failure? ==> stale.None? && first <= r.error.iteration < first + n
    ensures r.Failure? && r.error.iteration == first ==> SelectWorst(ps, cs) == |cs|
    ensures n == 0 ==> r == Success(Resolution(ps, []))
    ensures r.Success? && 0 < n ==> r.value.order[0] == SelectWorst(ps, cs)
    decreases n
  {
    if n == 0 then
      Success(Resolution(ps, []))
    else
      var k := SelectWorst(ps, cs);
      if k < |cs| || stale.Some? then
        var rest := Passes(step, step(ps, Pick(cs, stale, k)), cs, stale, n - 1, first + 1);
        if rest.Failure? then rest else Success(Resolution(rest.value.particles, [k] + rest.value.order))
      else
        Failure(NoContactAtSlot(first))
  }

  /** The passes replay their own order: the particles they leave are the
      contacts they picked, resolved one after the other. */
  lemma {:induction false} PassesReplay(step: Step, ps: seq<Particle>, cs: seq<Contact>, stale: Option<Contact>, n: nat, first: nat)
    requires forall q, c :: MovesOnly(q, step(q, c))
    requires ValidContacts(cs, |ps|)
    requires Passes(step, ps, cs, stale, n, first).Success?
    ensures var res := Passes(step, ps, cs, stale, n, first).value;
            res.particles == Replay(step, ps, cs, stale, res.order)
    decreases n
  {
    if n > 0 {
      var k := SelectWorst(ps, cs);
      var next := step(ps, Pick(cs, stale, k));
      PassesReplay(step, next, cs, stale, n - 1, first + 1);
      var rest := Passes(step, next, cs, stale, n - 1, first + 1).value;
      assert Passes(step, ps, cs, stale, n, first).value == Resolution(rest.particles, [k] + rest.order);
      assert ([k] + rest.order)[1..] == rest.order;
    }
  }

  /** Replaying a prefix of an order that starts with `k` is resolving
      `k` and then replaying the rest of the prefix. */
  lemma ReplayPrefix(step: Step, ps: seq<Particle>, cs: seq<Contact>, stale: Option<Contact>, k: nat, rest: seq<nat>, i: nat)
    requires k < |cs| || (k == |cs| && stale.Some?)
    requires Pickable(cs, stale, rest) && 0 < i <= |rest| + 1
    ensures Pickable(cs, stale, [k] + rest)
    ensures Replay(step, ps, cs, stale, ([k] + rest)[..i])
         == Replay(step, step(ps, Pick(cs, stale, k)), cs, stale, rest[..i - 1])
  {
    assert ([k] + rest)[..i][1..] == rest[..i - 1];
  }

  /** Replaying keeps the number of particles. */
  lemma {:induction false} ReplayLength(step: Step, ps: seq<Particle>, cs: seq<Contact>, stale: Option<Contact>, order: seq<nat>)
    requires forall q, c :: MovesOnly(q, step(q, c))
    requires Pickable(cs, stale, order)
    ensures |Replay(step, ps, cs, stale, order)| == |ps|
    decreases |order|
  {
    if order != [] {
      ReplayLength(step, step(ps, Pick(cs, stale, order[0])), cs, stale, order[1..]);
    }
  }

  /** A successful run of `n > 0` passes is its first pick followed by a
      successful run of the remaining passes from where that pick left the
      particles. */
  lemma PassesCons(step: Step, ps: seq<Particle>, cs: seq<Contact>, stale: Option<Contact>, n: nat, first: nat)
    requires forall q, c :: MovesOnly(q, step(q, c))
    requires ValidContacts(cs, |ps|)
    requires Passes(step, ps, cs, stale, n, first).Success? && 0 < n
    ensures var next := step(ps, Pick(cs, stale, SelectWorst(ps, cs)));
            var rest := Passes(step, next, cs, stale, n - 1, first + 1);
            rest.Success?
            && Passes(step, ps, cs, stale, n, first).value.order == [SelectWorst(ps, cs)] + rest.value.order
  {
  }

  /** Reference: every index of `order` is the worst contact of the
      particles as the indices before it left them. */
  ghost predicate PicksWorst(step: Step, ps: seq<Particle>, cs: seq<Contact>, stale: Option<Contact>, order: seq<nat>)
    requires forall q, c :: MovesOnly(q, step(q, c))
    requires ValidContacts(cs, |ps|)
    decreases |order|
  {
    order == []
    || (order[0] == SelectWorst(ps, cs)
        && (order[0] < |cs| || stale.Some?)
        && PicksWorst(step, step(ps, Pick(cs, stale, order[0])), cs, stale, order[1..]))
  }

  /** The passes pick as the reference says. */
  lemma {:induction false} PassesPicksWorst(step: Step, ps: seq<Particle>, cs: seq<Contact>, stale: Option<Contact>, n: nat, first: nat)
    requires forall q, c :: MovesOnly(q, step(q, c))
    requires ValidContacts(cs, |ps|)
    requires Passes(step, ps, cs, stale, n, first).Success?
    ensures PicksWorst(step, ps, cs, stale, Passes(step, ps, cs, stale, n, first).value.order)
    decreases n
  {
    if 0 < n {
      var k := SelectWorst(ps, cs);
      var next := step(ps, Pick(cs, stale, k));
      PassesCons(step, ps, cs, stale, n, first);
      PassesPicksWorst(step, next, cs, stale, n - 1, first + 1);
      var rest := Passes(step, next, cs, stale, n - 1, first + 1).value.order;
      assert ([k] + rest)[1..] == rest;
    }
  }

  /** Under the reference, the pick at `i` is the worst contact after the
      first `i` picks have been replayed. */
  lemma {:induction false} PicksWorstAt(step: Step, ps: seq<Particle>, cs: seq<Contact>, stale: Option<Contact>, order: seq<nat>, i: nat)
    requires forall q, c :: MovesOnly(q, step(q, c))
    requires ValidContacts(cs, |ps|)
    requires PicksWorst(step, ps, cs, stale, order) && i < |order|
    ensures Pickable(cs, stale, order[..i])
    ensures var prior := Replay(step, ps, cs, stale, order[..i]);
            |prior| == |ps| && order[i] == SelectWorst(prior, cs)
    decreases i
  {
    if 0 < i {
      var next := step(ps, Pick(cs, stale, order[0]));
      PicksWorstAt(step, next, cs, stale, order[1..], i - 1);
      assert order[..i][1..] == order[1..][..i - 1];
    }
  }

  /** Every pass picks the worst contact of the particles as the earlier
      passes left them. */
  lemma PassesPickWorst(step: Step, ps: seq<Particle>, cs: seq<Contact>, stale: Option<Contact>, n: nat, first: nat, i: nat)
    requires forall q, c :: MovesOnly(q, step(q, c))
    requires ValidContacts(cs, |ps|)
    requires Passes(step, ps, cs, stale, n, first).Success? && i < n
    ensures var order := Passes(step, ps, cs, stale, n, first).value.order;
            |Replay(step, ps, cs, stale, order[..i])| == |ps|
            && order[i] == SelectWorst(Replay(step, ps, cs, stale, order[..i]), cs)
  {
    PassesPicksWorst(step, ps, cs, stale, n, first);
    PicksWorstAt(step, ps, cs, stale, Passes(step, ps, cs, stale, n, first).value.order, i);
  }

  /** `resolve_contacts`: exactly `iterations` passes, after which
      `iterations_used` equals the budget; only positions and velocities
      change. */
  function ResolveContacts(res: ContactResolver, cs: seq<Contact>, stale: Option<Contact>, ps: seq<Particle>, dt: real):
    (r: Result<(ContactResolver, Resolution), ResolveError>)
    requires ValidContacts(cs, |ps|) && (stale.Some? ==> ValidContact(stale.value, |ps|))
    ensures r.Success? ==> r.value.0 == ContactResolver(res.iterations, res.iterations)
    ensures r.Success? ==> |r.value.1.order| == res.iterations && |r.value.1.particles| == |ps|
    ensures r.Success? ==> forall j :: 0 <= j < |ps| ==>
      r.value.1.particles[j].(position := ps[j].position, velocity := ps[j].velocity) == ps[j]
    ensures r.Failure? ==> stale.None? && r.error.iteration < res.iterations
    ensures r.Failure? && r.error.iteration == 0 ==> SelectWorst(ps, cs) == |cs|
  {
    var passes := Passes(ResolveStep(dt), ps, cs, stale, res.iterations, 0);
    if passes.Failure? then
      Failure(passes.error)
    else
      Success((res.(iterationsUsed := res.iterations), passes.value))
  }

  /** As written there is no early exit: with a positive budget and no
      approaching contact, the first pass still resolves the slot past the
      contacts, and fails when that slot holds nothing. */
  lemma NoEarlyExit(res: ContactResolver, cs: seq<Contact>, stale: Option<Contact>, ps: seq<Particle>, dt: real)
    requires ValidContacts(cs, |ps|) && (stale.Some? ==> ValidContact(stale.value, |ps|))
    requires 0 < res.iterations && NoneApproaching(ps, cs)
    ensures var r := ResolveContacts(res, cs, stale, ps, dt);
            (stale.None? ==> r == Failure(NoContactAtSlot(0)))
            && (r.Success? ==> r.value.1.order[0] == |cs|)
  {
  }

  /** With a zero budget nothing is resolved. */
  lemma ZeroBudgetResolvesNothing(res: ContactResolver, cs: seq<Contact>, stale: Option<Contact>, ps: seq<Particle>, dt: real)
    requires ValidContacts(cs, |ps|) && (stale.Some? ==> ValidContact(stale.value, |ps|))
    requires res.iterations == 0
    ensures ResolveContacts(res, cs, stale, ps, dt) == Success((ContactResolver(0, 0), Resolution(ps, [])))
  {
  }
}

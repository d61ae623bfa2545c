/** Links and constraints as contact generators (include/gabbyphysics/plinks.h,
    src/plinks.cpp). A link joins two particles, a constraint joins one
    particle to a fixed anchor. `add_contact` writes at most one contact; the
    model returns the contacts written (none or one). No link reads the
    `limit` it is given, so the model does not take one. */
module Links {
  import opened Wrappers
  import opened Precision
  import opened Core
  import opened Particles
  import opened Contacts

  /** The four concrete link classes. */
  datatype Link =
    | Cable(p0: nat, p1: nat, maxLength: real, restitution: real)
    | Rod(p0: nat, p1: nat, length: real)
    | CableConstraint(particle: nat, anchor: Vector3, maxLength: real, restitution: real)
    | RodConstraint(particle: nat, anchor: Vector3, length: real)

  /** The particles a link names are inside an arena of `n`. */
  predicate ValidLink(l: Link, n: nat) {
    match l
    case Cable(p0, p1, _, _) => p0 < n && p1 < n
    case Rod(p0, p1, _) => p0 < n && p1 < n
    case CableConstraint(p, _, _, _) => p < n
    case RodConstraint(p, _, _) => p < n
  }

  /** `ParticleLink::current_length`: the distance between the two particles. */
  function LinkLength(lib: MathLib, ps: seq<Particle>, p0: nat, p1: nat): (r: real)
    requires p0 < |ps| && p1 < |ps|
    ensures lib.SqrtLaw() ==> 0.0 <= r
  {
    Magnitude(lib, Minus(ps[p0].position, ps[p1].position))
  }

  /** `ParticleRod::current_length`, which hides the inherited one: it returns
      the rod's own `length`, not the distance between its particles. */
  function RodCurrentLength(ps: seq<Particle>, p0: nat, p1: nat, length: real): (r: real)
    requires p0 < |ps| && p1 < |ps|
    ensures r == length
  {
    length
  }

  /** As written a rod's length is not the distance between its particles:
      two coincident particles are at distance 0, yet a rod of non-zero
      length between them reports its own length. */
  lemma RodLengthIgnoresDistance(lib: MathLib, ps: seq<Particle>, p0: nat, p1: nat, length: real)
    requires lib.SqrtLaw() && p0 < |ps| && p1 < |ps|
    requires ps[p0].position == ps[p1].position && length != 0.0
    ensures LinkLength(lib, ps, p0, p1) == 0.0
    ensures RodCurrentLength(ps, p0, p1, length) != LinkLength(lib, ps, p0, p1)
  {
    var d := Minus(ps[p0].position, ps[p1].position);
    assert d == Zero;
    SqrtUnique(Magnitude(lib, d), 0.0);
  }

  /** `ParticleConstraint::current_length`: the distance from the particle to
      the anchor. */
  function ConstraintLength(lib: MathLib, ps: seq<Particle>, p: nat, anchor: Vector3): (r: real)
    requires p < |ps|
    ensures lib.SqrtLaw() ==> 0.0 <= r
  {
    Magnitude(lib, Minus(ps[p].position, anchor))
  }

  /** The contact a rod or rod constraint writes when its current length
      differs from `length`: along `normal` when stretched, against it when
      compressed, with the absolute difference as penetration and no
      restitution. */
  function LengthViolation(p0: nat, p1: Option<nat>, normal: Vector3, current: real, length: real): (r: Contact)
    ensures r.p0 == p0 && r.p1 == p1 && r.restitution == 0.0
    ensures r.penetration == Abs(current - length)
    ensures current > length ==> r.normal == normal
    ensures current <= length ==> r.normal == Scale(normal, -1.0)
  {
    if current > length then
      Contact(p0, p1, 0.0, normal, current - length)
    else
      Contact(p0, p1, 0.0, ScaleAssign(normal, -1.0), length - current)
  }

  /** `add_contact` of each link: the contacts written, none or one. */
  function AddContact(lib: MathLib, l: Link, ps: seq<Particle>): (r: seq<Contact>)
    requires ValidLink(l, |ps|)
    ensures |r| <= 1
    ensures forall k :: 0 <= k < |r| ==> ValidContact(r[k], |ps|)
  {
    match l
    case Cable(p0, p1, maxLength, restitution) =>
      var length := LinkLength(lib, ps, p0, p1);
      if length < maxLength then
        []
      else
        var normal := Normalize(lib, Minus(ps[p1].position, ps[p0].position));
        [Contact(p0, Some(p1), restitution, normal, length - maxLength)]
    case Rod(p0, p1, length) =>
      var current := RodCurrentLength(ps, p0, p1, length);
      var normal := Normalize(lib, Minus(ps[p1].position, ps[p0].position));
      if current == length then [] else [LengthViolation(p0, Some(p1), normal, current, length)]
    case CableConstraint(p, anchor, maxLength, restitution) =>
      var length := ConstraintLength(lib, ps, p, anchor);
      if length < maxLength then
        []
      else
        var normal := Normalize(lib, Minus(anchor, ps[p].position));
        [Contact(p, None, restitution, normal, length - maxLength)]
    case RodConstraint(p, anchor, length) =>
      var current := ConstraintLength(lib, ps, p, anchor);
      var normal := Normalize(lib, Minus(anchor, ps[p].position));
      if current == length then [] else [LengthViolation(p, None, normal, current, length)]
  }

  /** A cable writes nothing exactly while it is slack (shorter than its
      maximum); a taut cable writes one contact joining its two particles,
      with its restitution, the normal from the first particle toward the
      second and the excess length as penetration. */
  lemma CableContact(lib: MathLib, l: Link, ps: seq<Particle>)
    requires l.Cable? && ValidLink(l, |ps|)
    ensures var length := LinkLength(lib, ps, l.p0, l.p1);
            (AddContact(lib, l, ps) == [] <==> length < l.maxLength)
            && (l.maxLength <= length ==>
                  AddContact(lib, l, ps)
                    == [Contact(l.p0, Some(l.p1), l.restitution,
                                Normalize(lib, Minus(ps[l.p1].position, ps[l.p0].position)),
                                length - l.maxLength)]
                  && 0.0 <= AddContact(lib, l, ps)[0].penetration)
  {
  }

  /** As written a rod never writes a contact: its `current_length` is its
      own `length`, so the equality guard always holds, whatever the
      particles' positions. */
  lemma RodNeverEmits(lib: MathLib, l: Link, ps: seq<Particle>)
    requires l.Rod? && ValidLink(l, |ps|)
    ensures AddContact(lib, l, ps) == []
  {
  }

  /** A cable constraint writes nothing exactly while slack; otherwise one
      contact for its particle alone, with the normal toward the anchor and
      the excess length as penetration. */
  lemma CableConstraintContact(lib: MathLib, l: Link, ps: seq<Particle>)
    requires l.CableConstraint? && ValidLink(l, |ps|)
    ensures var length := ConstraintLength(lib, ps, l.particle, l.anchor);
            (AddContact(lib, l, ps) == [] <==> length < l.maxLength)
            && (l.maxLength <= length ==>
                  AddContact(lib, l, ps)
                    == [Contact(l.particle, None, l.restitution,
                                Normalize(lib, Minus(l.anchor, ps[l.particle].position)),
                                length - l.maxLength)])
  {
  }

  /** A rod constraint writes nothing exactly when the distance equals its
      length; otherwise one contact for its particle alone, with no
      restitution, a positive penetration, and the normal toward the anchor
      when stretched and away from it when compressed. */
  lemma RodConstraintContact(lib: MathLib, l: Link, ps: seq<Particle>)
    requires l.RodConstraint? && ValidLink(l, |ps|)
    ensures var current := ConstraintLength(lib, ps, l.particle, l.anchor);
            var normal := Normalize(lib, Minus(l.anchor, ps[l.particle].position));
            var r := AddContact(lib, l, ps);
            (r == [] <==> current == l.length)
            && (current != l.length ==>
                  |r| == 1 && r[0].p0 == l.particle && r[0].p1 == None && r[0].restitution == 0.0
                  && 0.0 < r[0].penetration
                  && (current > l.length ==> r[0].normal == normal)
                  && (current < l.length ==> r[0].normal == Invert(normal)))
  {
  }
}

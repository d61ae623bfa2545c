/** The particle world and the ground contact generator
    (include/gabbyphysics/pworld.h, src/pworld.cpp). The world owns the
    contact buffer, the force registry, the resolver and the contact
    generators; particles live in an arena and the world's particle list
    holds indices into it. */
module World {
  import opened Wrappers
  import opened Precision
  import opened Core
  import opened Particles
  import opened ForceGenerators
  import opened Contacts
  import opened Links

  // ---------------------------------------------------------------------
  // GroundContacts

  /** The restitution of every ground contact (`0.2f`, taken as exact). */
  const GROUND_RESTITUTION: real := 0.2

  /** `GroundContacts`: the particles it watches and the extent of the box
      `[0, worldX] x [0, worldY]` they must stay in. */
  datatype GroundContacts = GroundContacts(particles: seq<nat>, worldX: real, worldY: real)

  predicate ValidGround(g: GroundContacts, n: nat) {
    forall k :: 0 <= k < |g.particles| ==> g.particles[k] < n
  }

  /** The y bound is violated. */
  predicate OutsideY(p: Vector3, worldY: real) {
    p.y < 0.0 || p.y > worldY
  }

  /** The x bound is violated. */
  predicate OutsideX(p: Vector3, worldX: real) {
    p.x < 0.0 || p.x > worldX
  }

  /** The contacts written for one particle, the y check first: an `Up`
      contact with penetration `-y` exactly when y is outside `[0, worldY]`,
      then a `Right` contact with penetration `-x` exactly when x is outside
      `[0, worldX]`, both for the particle alone with restitution 0.2. */
  function ParticleGroundContacts(ps: seq<Particle>, i: nat, worldX: real, worldY: real): (r: seq<Contact>)
    requires i < |ps|
    ensures |r| == (if OutsideY(ps[i].position, worldY) then 1 else 0) + (if OutsideX(ps[i].position, worldX) then 1 else 0)
    ensures forall k :: 0 <= k < |r| ==>
      r[k].p0 == i && r[k].p1 == None && r[k].restitution == GROUND_RESTITUTION
      && ((r[k].normal == Up && r[k].penetration == -ps[i].position.y)
          || (r[k].normal == Right && r[k].penetration == -ps[i].position.x))
    ensures OutsideY(ps[i].position, worldY) <==> 0 < |r| && r[0].normal == Up
    ensures OutsideX(ps[i].position, worldX) <==> 0 < |r| && r[|r| - 1].normal == Right
  {
    var pos := GetPosition(ps[i]);
    var vertical := Contact(i, None, GROUND_RESTITUTION, Up, -pos.y);
    var horizontal := Contact(i, None, GROUND_RESTITUTION, Right, -pos.x);
    assert Up != Right;
    if OutsideY(pos, worldY) && OutsideX(pos, worldX) then [vertical, horizontal]
    else if OutsideY(pos, worldY) then [vertical]
    else if OutsideX(pos, worldX) then [horizontal]
    else []
  }

  /** Reference: every ground contact of the watched particles from the
      `k`-th on, with no limit. */
  function GroundAll(g: GroundContacts, ps: seq<Particle>, k: nat): seq<Contact>
    requires ValidGround(g, |ps|) && k <= |g.particles|
    decreases |g.particles| - k
  {
    if k == |g.particles| then []
    else ParticleGroundContacts(ps, g.particles[k], g.worldX, g.worldY) + GroundAll(g, ps, k + 1)
  }

  /** The loop of `GroundContacts::add_contact` from the `k`-th particle
      with `count` contacts written so far: after each particle it returns
      once `count >= limit`. The contacts written are a prefix of the
      unlimited ones, all of them unless the limit was reached, and the
      limit is checked only between particles, so one particle can carry
      the count one past it (two past a zero limit). */
  function GroundScan(g: GroundContacts, ps: seq<Particle>, k: nat, count: nat, limit: u32): (r: seq<Contact>)
    requires ValidGround(g, |ps|) && k <= |g.particles|
    requires count < limit || count == 0
    ensures count + |r| <= if limit == 0 then 2 else limit + 1
    ensures r <= GroundAll(g, ps, k)
    ensures r == GroundAll(g, ps, k) || limit <= count + |r|
    ensures forall j :: 0 <= j < |r| ==> ValidContact(r[j], |ps|)
    decreases |g.particles| - k
  {
    if k == |g.particles| then
      []
    else
      var cs := ParticleGroundContacts(ps, g.particles[k], g.worldX, g.worldY);
      if count + |cs| >= limit then
        cs
      else
        cs + GroundScan(g, ps, k + 1, count + |cs|, limit)
  }

  /** `GroundContacts::add_contact`. */
  function GroundAddContact(g: GroundContacts, ps: seq<Particle>, limit: u32): (r: seq<Contact>)
    requires ValidGround(g, |ps|)
    ensures |r| <= if limit == 0 then 2 else limit + 1
    ensures r <= GroundAll(g, ps, 0)
    ensures r == GroundAll(g, ps, 0) || limit <= |r|
    ensures |GroundAll(g, ps, 0)| < limit ==> r == GroundAll(g, ps, 0)
    ensures forall j :: 0 <= j < |r| ==> ValidContact(r[j], |ps|)
  {
    GroundScan(g, ps, 0, 0, limit)
  }

  /** A particle past both lower bounds yields two contacts, so with a limit
      of 1 the generator writes one contact more than it was allowed. */
  lemma GroundExceedsLimit()
    ensures var p := Particle(Vector3(-1.0, -1.0, 0.0), Zero, Zero, Zero, 1.0, 1.0);
            var r := GroundAddContact(GroundContacts([0], 10.0, 10.0), [p], 1);
            r == [Contact(0, None, GROUND_RESTITUTION, Up, 1.0), Contact(0, None, GROUND_RESTITUTION, Right, 1.0)]
            && |r| > 1
  {
    var p := Particle(Vector3(-1.0, -1.0, 0.0), Zero, Zero, Zero, 1.0, 1.0);
    var g := GroundContacts([0], 10.0, 10.0);
    assert ParticleGroundContacts([p], 0, 10.0, 10.0)
        == [Contact(0, None, GROUND_RESTITUTION, Up, 1.0), Contact(0, None, GROUND_RESTITUTION, Right, 1.0)];
  }

  /** A particle above the ceiling gets an `Up` contact whose penetration is
      negative; if it is rising, resolving that contact changes nothing, so
      the ceiling does not stop it. */
  lemma CeilingDoesNotHold(ps: seq<Particle>, i: nat, worldX: real, worldY: real, dt: real)
    requires i < |ps| && 0.0 <= worldY < ps[i].position.y
    requires !OutsideX(ps[i].position, worldX)
    requires 0.0 < ps[i].velocity.y
    ensures var cs := ParticleGroundContacts(ps, i, worldX, worldY);
            cs == [Contact(i, None, GROUND_RESTITUTION, Up, -ps[i].position.y)]
            && cs[0].penetration < 0.0
            && Resolve(ps, cs[0], dt) == ps
  {
    var c := Contact(i, None, GROUND_RESTITUTION, Up, -ps[i].position.y);
    assert SeparatingVelocity(ps, c) == ps[i].velocity.y;
  }

  /** A movable particle below the floor gets an `Up` contact with its depth
      as penetration, and resolving the interpenetration moves it down by
      that depth again: its height doubles. */
  lemma FloorPushesDeeper(ps: seq<Particle>, i: nat, worldX: real, worldY: real)
    requires i < |ps| && ps[i].position.y < 0.0 && 0.0 < ps[i].inverseMass
    requires !OutsideX(ps[i].position, worldX)
    ensures var cs := ParticleGroundContacts(ps, i, worldX, worldY);
            cs == [Contact(i, None, GROUND_RESTITUTION, Up, -ps[i].position.y)]
            && ResolveInterpenetration(ps, cs[0])[i].position.y == 2.0 * ps[i].position.y
  {
    var c := Contact(i, None, GROUND_RESTITUTION, Up, -ps[i].position.y);
    LoneParticleMovesOut(ps, c);
  }

  // ---------------------------------------------------------------------
  // Contact generators and the contact buffer

  /** The contact generators a world can hold. */
  datatype ContactGenerator = LinkGenerator(link: Link) | GroundGenerator(ground: GroundContacts)

  predicate ValidGenerator(gen: ContactGenerator, n: nat) {
    match gen
    case LinkGenerator(l) => ValidLink(l, n)
    case GroundGenerator(g) => ValidGround(g, n)
  }

  /** `add_contact` of a generator given `limit` free slots. Links ignore
      the limit and write at most one contact. */
  function GeneratorContacts(lib: MathLib, gen: ContactGenerator, ps: seq<Particle>, limit: u32): (r: seq<Contact>)
    requires ValidGenerator(gen, |ps|)
    ensures gen.LinkGenerator? ==> |r| <= 1
    ensures gen.GroundGenerator? ==> |r| <= if limit == 0 then 2 else limit + 1
    ensures forall j :: 0 <= j < |r| ==> ValidContact(r[j], |ps|)
  {
    match gen
    case LinkGenerator(l) => AddContact(lib, l, ps)
    case GroundGenerator(g) => GroundAddContact(g, ps, limit)
  }

  /** The contact buffer: `Some` where a contact has been written in this or
      an earlier frame, `None` where none ever was. */
  type Buffer = seq<Option<Contact>>

  predicate ValidBuffer(buffer: Buffer, n: nat) {
    |buffer| < U32_MODULUS
    && forall k :: 0 <= k < |buffer| && buffer[k].Some? ==> ValidContact(buffer[k].value, n)
  }

  /** `cs` written into the buffer from slot `at`; every other slot keeps
      what it held. */
  function Write(buffer: Buffer, at: nat, cs: seq<Contact>): (r: Buffer)
    requires at + |cs| <= |buffer|
    ensures |r| == |buffer|
    ensures forall k :: 0 <= k < |cs| ==> r[at + k] == Some(cs[k])
    ensures forall k :: 0 <= k < |buffer| && !(at <= k < at + |cs|) ==> r[k] == buffer[k]
  {
    buffer[..at] + seq(|cs|, k requires 0 <= k < |cs| => Some(cs[k])) + buffer[at + |cs|..]
  }

  /** The contacts held in the first `n` slots, all of which are written. */
  function Written(buffer: Buffer, n: nat): (r: seq<Contact>)
    requires n <= |buffer| && forall k :: 0 <= k < n ==> buffer[k].Some?
    ensures |r| == n && forall k :: 0 <= k < n ==> buffer[k] == Some(r[k])
  {
    seq(n, k requires 0 <= k < n && forall j :: 0 <= j < n ==> buffer[j].Some? => buffer[k].value)
  }

  /** Why `generate_contacts` went wrong: generator `generator`, given
      `room` free slots, wrote past the end of the buffer. */
  datatype GenerateError = BufferOverrun(generator: nat, room: u32)

  /** The engine's `limit -= used` on unsigned integers: it stays within
      the old limit while the generator kept to it, and wraps to a value
      above the old limit, never 0, exactly when it wrote past it, so the
      `limit <= 0` test does not stop the loop after an overrun. */
  lemma LimitAfterUse(limit: u32, used: nat)
    requires used < U32_MODULUS
    ensures used <= limit ==> Wrap(limit - used) == limit - used
    ensures used > limit <==> Wrap(limit - used) > limit
    ensures used > limit ==> Wrap(limit - used) != 0
  {
  }

  /** The virtual `add_contact` of the world's generators: the contacts
      generator `k` writes when given `limit` free slots. */
  type Dispatch = (nat, u32) -> seq<Contact>

  /** The dispatch of a world's generator list over the particles `ps`. */
  function Dispatcher(lib: MathLib, gens: seq<ContactGenerator>, ps: seq<Particle>): (d: Dispatch)
    requires forall k :: 0 <= k < |gens| ==> ValidGenerator(gens[k], |ps|)
    ensures forall k: nat, limit: u32 :: ValidContacts(d(k, limit), |ps|)
    ensures forall k: nat, limit: u32 :: k < |gens| ==> d(k, limit) == GeneratorContacts(lib, gens[k], ps, limit)
  {
    (k: nat, limit: u32) => if k < |gens| then GeneratorContacts(lib, gens[k], ps, limit) else []
  }

  /** The loop of `generate_contacts` over `count` generators from
      generator `g`, with `cursor` slots used and so a limit of
      `|buffer| - cursor`. On success it gives the buffer and the number of
      slots used: the slots before `cursor` and from the new cursor on are
      untouched, the ones between hold valid contacts. It stops once the
      limit reaches 0 and fails at the first generator that writes past the
      end. */
  function Generate(out: Dispatch, count: nat, n: nat, buffer: Buffer, g: nat, cursor: nat):
    (r: Result<(Buffer, nat), GenerateError>)
    requires ValidBuffer(buffer, n) && cursor <= |buffer| && g <= count
    requires forall k: nat, limit: u32 :: ValidContacts(out(k, limit), n)
    ensures r.Success? ==> |r.value.0| == |buffer| && cursor <= r.value.1 <= |buffer|
    ensures r.Success? ==> forall k :: 0 <= k < |buffer| && !(cursor <= k < r.value.1) ==> r.value.0[k] == buffer[k]
    ensures r.Success? ==> forall k :: cursor <= k < r.value.1 ==> r.value.0[k].Some? && ValidContact(r.value.0[k].value, n)
    ensures r.Failure? ==> g <= r.error.generator < count
    ensures r.Failure? ==> r.error.room < |out(r.error.generator, r.error.room)|
    decreases count - g
  {
    if g == count then
      Success((buffer, cursor))
    else
      var limit: u32 := |buffer| - cursor;
      var written := out(g, limit);
      if cursor + |written| > |buffer| then
        Failure(BufferOverrun(g, limit))
      else
        assert ValidContacts(written, n);
        var next := Write(buffer, cursor, written);
        var nextCursor := cursor + |written|;
        assert ValidBuffer(next, n) by {
          forall k | 0 <= k < |next| && next[k].Some?
            ensures ValidContact(next[k].value, n)
          {
            if cursor <= k < nextCursor {
              assert next[cursor + (k - cursor)] == Some(written[k - cursor]);
            }
          }
        }
        if |buffer| - nextCursor == 0 then
          Success((next, nextCursor))
        else
          Generate(out, count, n, next, g + 1, nextCursor)
  }

  /** `generate_contacts`: the buffer after generation and the number of
      contacts used, which is what the engine returns as
      `max_contacts - limit`. The buffer stays valid, the used slots are
      written and the rest keep what they held. */
  function GenerateContacts(lib: MathLib, gens: seq<ContactGenerator>, ps: seq<Particle>, buffer: Buffer):
    (r: Result<(Buffer, nat), GenerateError>)
    requires ValidBuffer(buffer, |ps|)
    requires forall k :: 0 <= k < |gens| ==> ValidGenerator(gens[k], |ps|)
    ensures r.Success? ==> |r.value.0| == |buffer| && r.value.1 <= |buffer| && ValidBuffer(r.value.0, |ps|)
    ensures r.Success? ==> forall k :: 0 <= k < r.value.1 ==> r.value.0[k].Some?
    ensures r.Success? ==> forall k :: r.value.1 <= k < |buffer| ==> r.value.0[k] == buffer[k]
    ensures r.Failure? ==> r.error.generator < |gens|
                           && r.error.room < |GeneratorContacts(lib, gens[r.error.generator], ps, r.error.room)|
  {
    Generate(Dispatcher(lib, gens, ps), |gens|, |ps|, buffer, 0, 0)
  }

  /** The generators' outputs joined in order. */
  function Flatten(outs: seq<seq<Contact>>): seq<Contact> {
    if outs == [] then [] else outs[0] + Flatten(outs[1..])
  }

  /** Generators from `g` on whose output does not depend on the limit
      (`outs[k]` for generator `g + k`), in a buffer with room for all of
      it: generation succeeds and writes exactly their outputs, in order,
      from the cursor. */
  lemma {:induction false} FixedOutputsFill(out: Dispatch, outs: seq<seq<Contact>>, count: nat, n: nat,
                                            buffer: Buffer, g: nat, cursor: nat)
    requires ValidBuffer(buffer, n) && cursor <= |buffer| && g <= count
    requires forall k: nat, limit: u32 :: ValidContacts(out(k, limit), n)
    requires |outs| == count - g
    requires forall k: nat, limit: u32 :: g <= k < g + |outs| ==> out(k, limit) == outs[k - g]
    requires cursor + |Flatten(outs)| <= |buffer|
    ensures var r := Generate(out, count, n, buffer, g, cursor);
            r.Success? && r.value.1 == cursor + |Flatten(outs)|
            && forall k :: 0 <= k < |Flatten(outs)| ==> r.value.0[cursor + k] == Some(Flatten(outs)[k])
    decreases count - g
  {
    if g < count {
      var limit: u32 := |buffer| - cursor;
      var written := out(g, limit);
      assert written == outs[0];
      var rest := Flatten(outs[1..]);
      assert Flatten(outs) == written + rest;
      var next := Write(buffer, cursor, written);
      var nextCursor := cursor + |written|;
      GenerateStep(out, count, n, buffer, g, cursor);
      if |buffer| - nextCursor != 0 {
        assert forall k: nat, limit': u32 :: g + 1 <= k < g + 1 + |outs[1..]| ==> out(k, limit') == outs[1..][k - (g + 1)] by {
          forall k: nat, limit': u32 | g + 1 <= k < g + 1 + |outs[1..]|
            ensures out(k, limit') == outs[1..][k - (g + 1)]
          {
            assert out(k, limit') == outs[k - g];
          }
        }
        FixedOutputsFill(out, outs[1..], count, n, next, g + 1, nextCursor);
        var final := Generate(out, count, n, next, g + 1, nextCursor).value.0;
        assert forall k :: 0 <= k < nextCursor ==> final[k] == next[k];
        Splice(next, final, cursor, nextCursor, written, rest);
      }
    }
  }

  /** One turn of the loop of `generate_contacts` when the generator keeps
      within the buffer. */
  lemma GenerateStep(out: Dispatch, count: nat, n: nat, buffer: Buffer, g: nat, cursor: nat)
    requires ValidBuffer(buffer, n) && cursor <= |buffer| && g < count
    requires forall k: nat, limit: u32 :: ValidContacts(out(k, limit), n)
    requires cursor + |out(g, |buffer| - cursor)| <= |buffer|
    ensures var written := out(g, |buffer| - cursor);
            var next := Write(buffer, cursor, written);
            var nextCursor := cursor + |written|;
            ValidBuffer(next, n)
            && Generate(out, count, n, buffer, g, cursor)
               == if |buffer| - nextCursor == 0 then Success((next, nextCursor))
                  else Generate(out, count, n, next, g + 1, nextCursor)
  {
    var written := out(g, |buffer| - cursor);
    assert ValidContacts(written, n);
    var next := Write(buffer, cursor, written);
    forall k | 0 <= k < |next| && next[k].Some?
      ensures ValidContact(next[k].value, n)
    {
      if cursor <= k < cursor + |written| {
        assert next[cursor + (k - cursor)] == Some(written[k - cursor]);
      }
    }
  }

  /** Once a generator fills the buffer exactly, the loop stops: the
      result is the buffer with that generator's contacts written, every
      slot used, and no later generator runs, whatever it would write. */
  lemma FullBufferStops(out: Dispatch, count: nat, n: nat, buffer: Buffer, g: nat, cursor: nat)
    requires ValidBuffer(buffer, n) && cursor <= |buffer| && g < count
    requires forall k: nat, limit: u32 :: ValidContacts(out(k, limit), n)
    requires cursor + |out(g, |buffer| - cursor)| == |buffer|
    ensures Generate(out, count, n, buffer, g, cursor)
         == Success((Write(buffer, cursor, out(g, |buffer| - cursor)), |buffer|))
    ensures forall other: Dispatch | (forall k: nat, limit: u32 :: ValidContacts(other(k, limit), n))
                                     && other(g, |buffer| - cursor) == out(g, |buffer| - cursor) ::
              Generate(other, count, n, buffer, g, cursor) == Generate(out, count, n, buffer, g, cursor)
  {
    GenerateStep(out, count, n, buffer, g, cursor);
    forall other: Dispatch | (forall k: nat, limit: u32 :: ValidContacts(other(k, limit), n))
                             && other(g, |buffer| - cursor) == out(g, |buffer| - cursor)
      ensures Generate(other, count, n, buffer, g, cursor) == Generate(out, count, n, buffer, g, cursor)
    {
      GenerateStep(other, count, n, buffer, g, cursor);
    }
  }

  /** Contacts `written` at `cursor`, then `rest` right after them, leaving
      the first batch in place: the buffer holds both, in order. */
  lemma Splice(next: Buffer, final: Buffer, cursor: nat, nextCursor: nat, written: seq<Contact>, rest: seq<Contact>)
    requires nextCursor == cursor + |written| && nextCursor + |rest| <= |next| == |final|
    requires forall k :: 0 <= k < |written| ==> next[cursor + k] == Some(written[k])
    requires forall k :: 0 <= k < nextCursor ==> final[k] == next[k]
    requires forall k :: 0 <= k < |rest| ==> final[nextCursor + k] == Some(rest[k])
    ensures forall k :: 0 <= k < |written + rest| ==> final[cursor + k] == Some((written + rest)[k])
  {
    forall k | 0 <= k < |written + rest|
      ensures final[cursor + k] == Some((written + rest)[k])
    {
      if k < |written| {
        assert final[cursor + k] == next[cursor + k];
      } else {
        assert final[nextCursor + (k - |written|)] == Some(rest[k - |written|]);
      }
    }
  }

  /** Generators from `g` on that each write at most one contact never
      overrun a buffer with a free slot: the loop stops as soon as the
      buffer is full. */
  lemma {:induction false} AtMostOneNeverOverruns(out: Dispatch, count: nat, n: nat, buffer: Buffer, g: nat, cursor: nat)
    requires ValidBuffer(buffer, n) && cursor < |buffer| && g <= count
    requires forall k: nat, limit: u32 :: ValidContacts(out(k, limit), n)
    requires forall k: nat, limit: u32 :: g <= k ==> |out(k, limit)| <= 1
    ensures Generate(out, count, n, buffer, g, cursor).Success?
    decreases count - g
  {
    if g < count {
      var limit: u32 := |buffer| - cursor;
      var written := out(g, limit);
      var nextCursor := cursor + |written|;
      if |buffer| - nextCursor != 0 {
        AtMostOneNeverOverruns(out, count, n, Write(buffer, cursor, written), g + 1, nextCursor);
      }
    }
  }

  /** A world of links alone. */
  function LinkGenerators(links: seq<Link>): (r: seq<ContactGenerator>)
    ensures |r| == |links| && forall k :: 0 <= k < |links| ==> r[k] == LinkGenerator(links[k])
  {
    seq(|links|, k requires 0 <= k < |links| => LinkGenerator(links[k]))
  }

  /** What each link writes. */
  function LinkOutputs(lib: MathLib, links: seq<Link>, ps: seq<Particle>): (r: seq<seq<Contact>>)
    requires forall k :: 0 <= k < |links| ==> ValidLink(links[k], |ps|)
    ensures |r| == |links| && forall k :: 0 <= k < |links| ==> r[k] == AddContact(lib, links[k], ps)
  {
    seq(|links|, k requires 0 <= k < |links| => AddContact(lib, links[k], ps))
  }

  /** Links alone, with room for all they write: generation succeeds and the
      buffer starts with every link's contact, in link order. */
  lemma LinksFillBuffer(lib: MathLib, links: seq<Link>, ps: seq<Particle>, buffer: Buffer)
    requires ValidBuffer(buffer, |ps|)
    requires forall k :: 0 <= k < |links| ==> ValidLink(links[k], |ps|)
    requires |Flatten(LinkOutputs(lib, links, ps))| <= |buffer|
    ensures var r := GenerateContacts(lib, LinkGenerators(links), ps, buffer);
            var cs := Flatten(LinkOutputs(lib, links, ps));
            r.Success? && r.value.1 == |cs|
            && forall k :: 0 <= k < |cs| ==> r.value.0[k] == Some(cs[k])
  {
    var gens := LinkGenerators(links);
    var d := Dispatcher(lib, gens, ps);
    var outs := LinkOutputs(lib, links, ps);
    forall k: nat, limit: u32 | 0 <= k < 0 + |outs|
      ensures d(k, limit) == outs[k - 0]
    {
      assert d(k, limit) == GeneratorContacts(lib, gens[k], ps, limit);
    }
    FixedOutputsFill(d, outs, |gens|, |ps|, buffer, 0, 0);
  }

  /** Links alone never overrun a non-empty buffer. */
  lemma LinksNeverOverrun(lib: MathLib, links: seq<Link>, ps: seq<Particle>, buffer: Buffer)
    requires ValidBuffer(buffer, |ps|) && 0 < |buffer|
    requires forall k :: 0 <= k < |links| ==> ValidLink(links[k], |ps|)
    ensures GenerateContacts(lib, LinkGenerators(links), ps, buffer).Success?
  {
    var gens := LinkGenerators(links);
    var d := Dispatcher(lib, gens, ps);
    forall k: nat, limit: u32
      ensures |d(k, limit)| <= 1
    {
      if k < |gens| {
        assert d(k, limit) == GeneratorContacts(lib, gens[k], ps, limit);
      }
    }
    AtMostOneNeverOverruns(d, |gens|, |ps|, buffer, 0, 0);
  }

  /** With no buffer at all the first generator still runs, and a taut
      cable writes past the end. */
  lemma EmptyBufferOverrun(lib: MathLib, l: Link, gens: seq<ContactGenerator>, ps: seq<Particle>)
    requires l.Cable? && ValidLink(l, |ps|) && l.maxLength <= LinkLength(lib, ps, l.p0, l.p1)
    requires 0 < |gens| && gens[0] == LinkGenerator(l)
    requires forall k :: 0 <= k < |gens| ==> ValidGenerator(gens[k], |ps|)
    ensures GenerateContacts(lib, gens, ps, []) == Failure(BufferOverrun(0, 0))
  {
    CableContact(lib, l, ps);
    var d := Dispatcher(lib, gens, ps);
    assert d(0, 0) == AddContact(lib, l, ps);
  }

  // ---------------------------------------------------------------------
  // The world

  /** `ParticleWorld`. `maxContacts` is the length of `contacts`. */
  datatype ParticleWorld = ParticleWorld(
    arena: seq<Particle>,
    particles: seq<nat>,
    calculateIterations: bool,
    registry: Registry,
    resolver: ContactResolver,
    generators: seq<ContactGenerator>,
    contacts: Buffer)

  /** Every index names an arena particle and every buffered contact is
      valid. */
  predicate ValidWorld(w: ParticleWorld) {
    (forall k :: 0 <= k < |w.particles| ==> w.particles[k] < |w.arena|)
    && ValidRegistry(w.registry, |w.arena|)
    && (forall k :: 0 <= k < |w.generators| ==> ValidGenerator(w.generators[k], |w.arena|))
    && ValidBuffer(w.contacts, |w.arena|)
  }

  /** The constructor: a buffer of `maxContacts` unwritten slots, the
      resolver's budget, and automatic budgeting exactly when that budget
      is 0. */
  function NewWorld(maxContacts: u32, iterations: u32): (r: ParticleWorld)
    ensures ValidWorld(r)
    ensures |r.contacts| == maxContacts && forall k :: 0 <= k < maxContacts ==> r.contacts[k] == None
    ensures r.calculateIterations <==> iterations == 0
    ensures r.resolver.iterations == iterations
    ensures r.arena == [] && r.particles == [] && r.registry == [] && r.generators == []
  {
    ParticleWorld([], [], iterations == 0, [], NewResolver(iterations), [], seq(maxContacts, k => None))
  }

  /** `start_frame`: the accumulator of every listed particle is cleared. */
  function ClearAll(ps: seq<Particle>, list: seq<nat>): (r: seq<Particle>)
    requires forall k :: 0 <= k < |list| ==> list[k] < |ps|
    ensures |r| == |ps|
    ensures forall j :: 0 <= j < |ps| && j in list ==> r[j] == ClearAccumulator(ps[j])
    ensures forall j :: 0 <= j < |ps| && j !in list ==> r[j] == ps[j]
    decreases |list|
  {
    if list == [] then ps
    else
      var cleared := ps[list[0] := ClearAccumulator(ps[list[0]])];
      ClearAll(cleared, list[1..])
  }

  function StartFrame(w: ParticleWorld): (r: ParticleWorld)
    requires ValidWorld(w)
    ensures ValidWorld(r) && r.(arena := w.arena) == w && |r.arena| == |w.arena|
    ensures forall j :: 0 <= j < |w.arena| && j in w.particles ==> r.arena[j].forceAccum == Zero
    ensures forall j :: 0 <= j < |w.arena| ==> r.arena[j].(forceAccum := w.arena[j].forceAccum) == w.arena[j]
    ensures forall j :: 0 <= j < |w.arena| && j !in w.particles ==> r.arena[j] == w.arena[j]
  {
    w.(arena := ClearAll(w.arena, w.particles))
  }

  /** `integrate`: each listed particle in turn takes one step; the rest
      stay as they are. A particle listed once takes exactly one step. */
  function IntegrateAll(lib: MathLib, ps: seq<Particle>, list: seq<nat>, dt: real): (r: seq<Particle>)
    requires forall k :: 0 <= k < |list| ==> list[k] < |ps|
    ensures |r| == |ps|
    ensures forall j :: 0 <= j < |ps| && j !in list ==> r[j] == ps[j]
    ensures forall j :: 0 <= j < |ps| ==> r[j].forceAccum == ps[j].forceAccum
    ensures forall j :: 0 <= j < |ps| && multiset(list)[j] == 1 ==> r[j] == Integrate(lib, ps[j], dt)
    ensures dt == 0.0 ==> r == ps
    decreases |list|
  {
    if list == [] then ps
    else
      var i := list[0];
      assert list == [i] + list[1..];
      IntegrateAll(lib, ps[i := Integrate(lib, ps[i], dt)], list[1..], dt)
  }

  /** Why a step of the world went wrong. */
  datatype StepError = Overrun(generate: GenerateError) | Unresolved(resolve: ResolveError)

  /** The budget `run_physics` hands the resolver: twice the contacts used,
      on unsigned integers, when automatic; the stored one otherwise. */
  function Budget(w: ParticleWorld, used: nat): (r: ContactResolver)
    ensures w.calculateIterations ==> r.iterations == Wrap(2 * used)
    ensures !w.calculateIterations ==> r == w.resolver
    ensures r.iterationsUsed == w.resolver.iterationsUsed
  {
    if w.calculateIterations then SetIterations(w.resolver, Wrap(2 * used)) else w.resolver
  }

  /** `run_physics`: forces from the registry, one integration step, contact
      generation, then resolution of the contacts used (the slot after them
      is what a pass with nothing approaching resolves). The accumulators
      are not cleared. */
  function RunPhysics(lib: MathLib, w: ParticleWorld, dt: real): (r: Result<ParticleWorld, StepError>)
    requires ValidWorld(w)
    ensures r.Success? ==> ValidWorld(r.value) && |r.value.arena| == |w.arena|
    ensures r.Success? ==> r.value.particles == w.particles && r.value.registry == w.registry
                           && r.value.generators == w.generators
                           && r.value.calculateIterations == w.calculateIterations
    ensures r.Success? ==> |r.value.contacts| == |w.contacts|
    ensures r.Success? ==> r.value.resolver.iterationsUsed == r.value.resolver.iterations
    ensures r.Success? && !w.calculateIterations ==> r.value.resolver == w.resolver.(iterationsUsed := w.resolver.iterations)
  {
    var forced := UpdateForces(lib, w.registry, w.arena);
    var moved := IntegrateAll(lib, forced, w.particles, dt);
    var generated := GenerateContacts(lib, w.generators, moved, w.contacts);
    if generated.Failure? then
      Failure(Overrun(generated.error))
    else
      var buffer := generated.value.0;
      var used := generated.value.1;
      var resolver := Budget(w, used);
      var stale := if used < |buffer| then buffer[used] else None;
      var resolved := ResolveContacts(resolver, Written(buffer, used), stale, moved, dt);
      if resolved.Failure? then
        Failure(Unresolved(resolved.error))
      else
        Success(w.(arena := resolved.value.1.particles, resolver := resolved.value.0, contacts := buffer))
  }

  /** `run_physics` is the pipeline forces, integration, generation, budget,
      resolution: a step fails exactly when generation or resolution does,
      and a successful one leaves the arena the resolver produced from the
      integrated particles, the generated buffer, and a budget of twice the
      contacts used (32-bit) when automatic. */
  lemma RunPhysicsPipeline(lib: MathLib, w: ParticleWorld, dt: real)
    requires ValidWorld(w)
    ensures var moved := IntegrateAll(lib, UpdateForces(lib, w.registry, w.arena), w.particles, dt);
            var generated := GenerateContacts(lib, w.generators, moved, w.contacts);
            var r := RunPhysics(lib, w, dt);
            (generated.Failure? ==> r == Failure(Overrun(generated.error)))
            && (generated.Success? ==>
                  var buffer := generated.value.0;
                  var used := generated.value.1;
                  var stale := if used < |buffer| then buffer[used] else None;
                  var resolved := ResolveContacts(Budget(w, used), Written(buffer, used), stale, moved, dt);
                  (resolved.Failure? ==> r == Failure(Unresolved(resolved.error)))
                  && (resolved.Success? ==>
                        r.Success? && r.value.arena == resolved.value.1.particles
                        && r.value.contacts == buffer
                        && (w.calculateIterations ==> r.value.resolver.iterations == Wrap(2 * used))))
  {
  }

  /** A step leaves the accumulators holding the forces the registry just
      added: nothing clears them, so without `start_frame` they carry over
      to the next step. */
  lemma StepKeepsAccumulators(lib: MathLib, w: ParticleWorld, dt: real)
    requires ValidWorld(w) && RunPhysics(lib, w, dt).Success?
    ensures forall j :: 0 <= j < |w.arena| ==>
      RunPhysics(lib, w, dt).value.arena[j].forceAccum == UpdateForces(lib, w.registry, w.arena)[j].forceAccum
  {
  }

  /** A zero time step is not skipped: integration does not move the
      particles, but forces are still accumulated into them. With no contact
      generators and an automatic budget nothing else happens; with
      generators, contact resolution can still move particles, since
      `resolve_interpenetration` ignores the duration. */
  lemma ZeroStepStillAccumulates(lib: MathLib, w: ParticleWorld)
    requires ValidWorld(w) && RunPhysics(lib, w, 0.0).Success?
    requires w.generators == [] && w.calculateIterations
    ensures RunPhysics(lib, w, 0.0).value.arena == UpdateForces(lib, w.registry, w.arena)
  {
  }

  /** With a fixed budget, a world that generates no contacts in its first
      frame fails: the first pass finds nothing approaching and resolves
      the first slot of the buffer, which was never written. */
  lemma FixedBudgetNeedsContacts(lib: MathLib, w: ParticleWorld, dt: real)
    requires ValidWorld(w) && !w.calculateIterations && 0 < w.resolver.iterations
    requires w.generators == [] && forall k :: 0 <= k < |w.contacts| ==> w.contacts[k] == None
    ensures RunPhysics(lib, w, dt) == Failure(Unresolved(NoContactAtSlot(0)))
  {
    var forced := UpdateForces(lib, w.registry, w.arena);
    var moved := IntegrateAll(lib, forced, w.particles, dt);
    NoEarlyExit(w.resolver, [], None, moved, dt);
  }

  /** With automatic budgeting and no contacts generated the budget is 0:
      nothing is resolved and the step succeeds. */
  lemma AutoBudgetWithoutContacts(lib: MathLib, w: ParticleWorld, dt: real)
    requires ValidWorld(w) && w.calculateIterations && w.generators == []
    ensures RunPhysics(lib, w, dt).Success?
    ensures RunPhysics(lib, w, dt).value.arena
         == IntegrateAll(lib, UpdateForces(lib, w.registry, w.arena), w.particles, dt)
    ensures RunPhysics(lib, w, dt).value.resolver == ContactResolver(0, 0)
  {
  }
}

/** `Vector3` and its named constants (include/gabbyphysics/core.h,
    src/core.cpp). The engine's class mutates its receiver in the compound
    operators; here each operation returns the new value of the receiver. */
module Core {
  import opened Precision

  /** A 3-component vector; the class's private `pad` member is never read. */
  datatype Vector3 = Vector3(x: real, y: real, z: real)

  /** `Vector3()`: the default constructor yields the zero vector. */
  const Zero: Vector3 := Vector3(0.0, 0.0, 0.0)

  // The named constants of src/core.cpp, exactly as initialised there.
  const Gravity: Vector3 := Vector3(0.0, -9.81, 0.0)
  const NegativeGravity: Vector3 := Vector3(0.0, 9.81, 0.0)
  const Up: Vector3 := Vector3(0.0, 1.0, 0.0)
  const Right: Vector3 := Vector3(1.0, 0.0, 0.0)
  /** `Vector3::X` is initialised to (0,1,0), the y axis. */
  const AxisX: Vector3 := Vector3(0.0, 1.0, 0.0)
  /** `Vector3::Y` is initialised to (1,0,0), the x axis. */
  const AxisY: Vector3 := Vector3(1.0, 0.0, 0.0)
  const AxisZ: Vector3 := Vector3(0.0, 0.0, 1.0)

  /** `operator+`. */
  function Plus(a: Vector3, b: Vector3): Vector3 {
    Vector3(a.x + b.x, a.y + b.y, a.z + b.z)
  }

  /** `operator-`: subtraction undoes addition. */
  function Minus(a: Vector3, b: Vector3): (r: Vector3)
    ensures Plus(r, b) == a
  {
    Vector3(a.x - b.x, a.y - b.y, a.z - b.z)
  }

  /** `operator*(real)`. */
  function Scale(v: Vector3, s: real): Vector3 {
    Vector3(v.x * s, v.y * s, v.z * s)
  }

  /** `operator*(Vector3)`: the scalar product. */
  function Dot(a: Vector3, b: Vector3): real {
    a.x * b.x + a.y * b.y + a.z * b.z
  }

  /** `operator%`: the cross product is orthogonal to both operands. */
  function Cross(a: Vector3, b: Vector3): (r: Vector3)
    ensures Dot(a, r) == 0.0 && Dot(b, r) == 0.0
  {
    Vector3(a.y * b.z - a.z * b.y,
            a.z * b.x - a.x * b.z,
            a.x * b.y - a.y * b.x)
  }

  /** `operator+=`: the receiver becomes the sum. */
  function PlusAssign(receiver: Vector3, v: Vector3): (r: Vector3)
    ensures r == Plus(receiver, v)
  {
    Vector3(receiver.x + v.x, receiver.y + v.y, receiver.z + v.z)
  }

  /** `operator-=`: the receiver becomes the difference. */
  function MinusAssign(receiver: Vector3, v: Vector3): (r: Vector3)
    ensures r == Minus(receiver, v)
  {
    Vector3(receiver.x - v.x, receiver.y - v.y, receiver.z - v.z)
  }

  /** `operator*=(real)`: the receiver becomes the scaled vector. */
  function ScaleAssign(receiver: Vector3, s: real): (r: Vector3)
    ensures r == Scale(receiver, s)
  {
    Vector3(receiver.x * s, receiver.y * s, receiver.z * s)
  }

  /** `component_product`: [a,b,c][x,y,z] = [ax,by,cz]. The all-ones vector
      is an identity and the zero vector absorbs. */
  function ComponentProduct(a: Vector3, b: Vector3): (r: Vector3)
    ensures b == Vector3(1.0, 1.0, 1.0) ==> r == a
    ensures a == Zero || b == Zero ==> r == Zero
  {
    Vector3(a.x * b.x, a.y * b.y, a.z * b.z)
  }

  /** `component_product_update`: the receiver becomes the component product. */
  function ComponentProductUpdate(receiver: Vector3, v: Vector3): (r: Vector3)
    ensures r == ComponentProduct(receiver, v)
  {
    Vector3(receiver.x * v.x, receiver.y * v.y, receiver.z * v.z)
  }

  /** `dot_product` agrees with `operator*` and is symmetric. */
  function DotProduct(a: Vector3, b: Vector3): (r: real)
    ensures r == Dot(a, b) && r == Dot(b, a)
  {
    a.x * b.x + a.y * b.y + a.z * b.z
  }

  /** `vector_product` agrees with `operator%`, and reversing its operands
      negates it. */
  function VectorProduct(a: Vector3, b: Vector3): (r: Vector3)
    ensures r == Cross(a, b)
    ensures r == Scale(Cross(b, a), -1.0)
  {
    var r := Vector3(a.y * b.z - a.z * b.y,
                     a.z * b.x - a.x * b.z,
                     a.x * b.y - a.y * b.x);
    assert r == Cross(a, b);
    CrossAntiCommutative(a, b);
    r
  }

  /** `operator%=`: the receiver becomes its cross product with `v`. */
  function CrossAssign(receiver: Vector3, v: Vector3): (r: Vector3)
    ensures r == Cross(receiver, v)
  {
    VectorProduct(receiver, v)
  }

  /** `add_scaled_vector`: the receiver gains `v * s`; `v` itself is a value
      and is unchanged. */
  function AddScaledVector(receiver: Vector3, v: Vector3, s: real): (r: Vector3)
    ensures r == Plus(receiver, Scale(v, s))
    ensures Minus(r, receiver) == Scale(v, s)
  {
    Vector3(receiver.x + v.x * s, receiver.y + v.y * s, receiver.z + v.z * s)
  }

  /** `sqare_magnitude`: the scalar product of a vector with itself. */
  function SquareMagnitude(v: Vector3): (r: real)
    ensures r == Dot(v, v)
  {
    v.x * v.x + v.y * v.y + v.z * v.z
  }

  /** `sqare_magnitude` is never negative and is zero only at the origin. */
  lemma SquareMagnitudeSign(v: Vector3)
    ensures 0.0 <= SquareMagnitude(v)
    ensures v != Zero ==> 0.0 < SquareMagnitude(v)
  {
    var xx, yy, zz := v.x * v.x, v.y * v.y, v.z * v.z;
    SquareNonNegative(v.x, xx);
    SquareNonNegative(v.y, yy);
    SquareNonNegative(v.z, zz);
    if v.x != 0.0 {
      SquarePositive(v.x, xx);
    } else if v.y != 0.0 {
      SquarePositive(v.y, yy);
    } else if v.z != 0.0 {
      SquarePositive(v.z, zz);
    }
  }

  /** `magnitude`: `real_sqrt` of the squared magnitude; under the square-root
      law it is the non-negative root of `SquareMagnitude`. */
  function Magnitude(lib: MathLib, v: Vector3): (r: real)
    ensures lib.SqrtLaw() ==> 0.0 <= r && r * r == SquareMagnitude(v)
  {
    var q := v.x * v.x + v.y * v.y + v.z * v.z;
    SquareMagnitudeSign(v);
    assert q == SquareMagnitude(v);
    lib.sqrt(q)
  }

  /** Under the square-root law only the zero vector has zero magnitude. */
  lemma MagnitudePositive(lib: MathLib, v: Vector3)
    requires lib.SqrtLaw() && v != Zero
    ensures 0.0 < Magnitude(lib, v)
  {
    SquareMagnitudeSign(v);
    PositiveRoot(Magnitude(lib, v), SquareMagnitude(v));
  }

  /** `normalize`: a no-op unless the magnitude is positive; the result
      always points the same way as the input (a positive multiple of it), and
      the zero vector is left as it is. */
  function Normalize(lib: MathLib, v: Vector3): (r: Vector3)
    ensures v == Zero ==> r == Zero
    ensures exists s: real :: 0.0 < s && r == Scale(v, s)
  {
    var l := Magnitude(lib, v);
    if l > 0.0 then
      var r := ScaleAssign(v, 1.0 / l);
      assert 0.0 < 1.0 / l && r == Scale(v, 1.0 / l);
      r
    else
      assert v == Scale(v, 1.0);
      v
  }

  /** Under the square-root law `normalize` divides a non-zero vector by its
      magnitude: scaling the result back by the magnitude recovers the input,
      and the result has squared magnitude 1. */
  lemma NormalizeUnit(lib: MathLib, v: Vector3)
    requires lib.SqrtLaw() && v != Zero
    ensures Scale(Normalize(lib, v), Magnitude(lib, v)) == v
    ensures SquareMagnitude(Normalize(lib, v)) == 1.0
  {
    var l := Magnitude(lib, v);
    MagnitudePositive(lib, v);
    assert Normalize(lib, v) == Scale(v, 1.0 / l);
    ReciprocalCancels(v.x, l);
    ReciprocalCancels(v.y, l);
    ReciprocalCancels(v.z, l);
    UnitAfterScaling(v, l);
  }

  /** Scaling the normalized form of `d` by `s` gives a vector whose scalar
      product with `d` has the sign of `s`: a positive factor points along
      `d`, a negative one against it. No law of `sqrtf` is needed. */
  lemma ScaledNormalSign(lib: MathLib, d: Vector3, s: real)
    ensures 0.0 <= s ==> 0.0 <= Dot(Scale(Normalize(lib, d), s), d)
    ensures s <= 0.0 ==> Dot(Scale(Normalize(lib, d), s), d) <= 0.0
  {
    var n := Normalize(lib, d);
    assert exists t: real :: 0.0 < t && n == Scale(d, t);
    var t :| 0.0 < t && n == Scale(d, t);
    ScaledDirectionSign(d, t, s);
  }

  lemma ScaledDirectionSign(d: Vector3, t: real, s: real)
    requires 0.0 < t
    ensures 0.0 <= s ==> 0.0 <= Dot(Scale(Scale(d, t), s), d)
    ensures s <= 0.0 ==> Dot(Scale(Scale(d, t), s), d) <= 0.0
  {
    var dd := Dot(d, d);
    var td := Dot(Scale(d, t), d);
    var q := Dot(Scale(Scale(d, t), s), d);
    assert 0.0 <= dd by {
      SquareMagnitudeSign(d);
    }
    assert td == t * dd by {
      DotScale(d, d, t);
    }
    assert q == s * td by {
      DotScale(Scale(d, t), d, s);
    }
    ProductNonNegative(t, dd, td);
    if 0.0 <= s {
      ProductNonNegative(s, td, q);
    } else {
      ProductNonPositive(td, s, q);
    }
  }

  /** The positive factor by which `normalize` scales its argument. */
  lemma NormalizeFactor(lib: MathLib, v: Vector3) returns (t: real)
    ensures 0.0 < t && Normalize(lib, v) == Scale(v, t)
  {
    var n := Normalize(lib, v);
    assert exists s: real :: 0.0 < s && n == Scale(v, s);
    t :| 0.0 < t && n == Scale(v, t);
  }

  /** Scaling twice is scaling by the product. */
  lemma ScaleProduct(v: Vector3, a: real, b: real)
    ensures Scale(Scale(v, a), b) == Scale(v, a * b)
  {
    assert (v.x * a) * b == v.x * (a * b);
    assert (v.y * a) * b == v.y * (a * b);
    assert (v.z * a) * b == v.z * (a * b);
  }

  /** Scaling the normalized form of `d` by `s` scales `d` itself by a
      factor `u` of the same sign as `s`. */
  lemma ScaledNormalDirection(lib: MathLib, d: Vector3, s: real) returns (u: real)
    ensures Scale(Normalize(lib, d), s) == Scale(d, u)
    ensures 0.0 <= s ==> 0.0 <= u
    ensures s <= 0.0 ==> u <= 0.0
  {
    var t := NormalizeFactor(lib, d);
    ScaleProduct(d, t, s);
    u := t * s;
    if 0.0 <= s {
      ProductNonNegative(t, s, u);
    }
    if s <= 0.0 {
      ProductNonPositive(t, s, u);
    }
  }

  /** Addition is commutative, with the zero vector as identity. */
  lemma PlusLaws(a: Vector3, b: Vector3)
    ensures Plus(a, b) == Plus(b, a)
    ensures Plus(a, Zero) == a && Plus(Zero, a) == a
  {
  }

  /** Scaling by 1 keeps a vector; scaling by 0, or the zero vector, gives
      the zero vector. */
  lemma ScaleLaws(v: Vector3, s: real)
    ensures Scale(v, 1.0) == v
    ensures Scale(v, 0.0) == Zero && Scale(Zero, s) == Zero
  {
  }

  /** The scalar product is symmetric and vanishes against the zero vector. */
  lemma DotSymmetric(a: Vector3, b: Vector3)
    ensures Dot(a, b) == Dot(b, a)
    ensures Dot(a, Zero) == 0.0 && Dot(Zero, a) == 0.0
  {
  }

  /** A scalar factor moves out of the scalar product. */
  lemma DotScale(a: Vector3, c: Vector3, s: real)
    ensures Dot(Scale(a, s), c) == s * Dot(a, c)
  {
  }

  /** Under the square-root law, scaling the normalized form of a non-zero
      vector by `s` gives squared magnitude `s * s`. */
  lemma ScaledNormalMagnitude(lib: MathLib, d: Vector3, s: real)
    requires lib.SqrtLaw() && d != Zero
    ensures SquareMagnitude(Scale(Normalize(lib, d), s)) == s * s
  {
    NormalizeUnit(lib, d);
    SquareMagnitudeScale(Normalize(lib, d), s);
  }

  /** `invert`: negates every component; it is scaling by -1 and an additive
      inverse. */
  function Invert(v: Vector3): (r: Vector3)
    ensures r == Scale(v, -1.0)
    ensures Plus(v, r) == Zero
  {
    Vector3(-v.x, -v.y, -v.z)
  }

  /** `clear`: the result is the additive identity. */
  function Clear(v: Vector3): (r: Vector3)
    ensures forall w :: Plus(r, w) == w
  {
    Vector3(0.0, 0.0, 0.0)
  }

  // ---------------------------------------------------------------------
  // Helper facts

  /** A non-negative root of a positive number is positive. */
  lemma PositiveRoot(r: real, q: real)
    requires 0.0 <= r && r * r == q && 0.0 < q
    ensures 0.0 < r
  {
    assert r == 0.0 ==> r * r == 0.0;
  }

  /** Scaling multiplies the squared magnitude by the square of the factor. */
  lemma SquareMagnitudeScale(v: Vector3, s: real)
    ensures SquareMagnitude(Scale(v, s)) == s * s * SquareMagnitude(v)
  {
    var w := Scale(v, s);
    calc {
      SquareMagnitude(w);
      (v.x * s) * (v.x * s) + (v.y * s) * (v.y * s) + (v.z * s) * (v.z * s);
      s * s * (v.x * v.x + v.y * v.y + v.z * v.z);
    }
  }

  lemma ReciprocalCancels(a: real, l: real)
    requires l != 0.0
    ensures (a * (1.0 / l)) * l == a
  {
  }

  lemma UnitAfterScaling(v: Vector3, l: real)
    requires 0.0 < l && l * l == SquareMagnitude(v)
    ensures SquareMagnitude(Scale(v, 1.0 / l)) == 1.0
  {
    SquareMagnitudeScale(v, 1.0 / l);
    assert (1.0 / l) * (1.0 / l) * (l * l) == 1.0;
  }

  // ---------------------------------------------------------------------
  // Algebraic laws of the operators

  /** The cross product is anti-commutative and vanishes on equal operands. */
  lemma CrossAntiCommutative(a: Vector3, b: Vector3)
    ensures Cross(a, b) == Invert(Cross(b, a))
    ensures Cross(a, a) == Zero
  {
  }

  /** Inverting twice is the identity. */
  lemma InvertInvolution(v: Vector3)
    ensures Invert(Invert(v)) == v
  {
  }

  /** `invert` moves through the scalar product. */
  lemma DotInvert(a: Vector3, b: Vector3)
    ensures Dot(Invert(a), b) == -Dot(a, b)
    ensures Dot(a, Invert(b)) == -Dot(a, b)
  {
  }

  /** The scalar product distributes over subtraction and pulls out scalars. */
  lemma DotLinear(a: Vector3, b: Vector3, c: Vector3, s: real)
    ensures Dot(Minus(a, b), c) == Dot(a, c) - Dot(b, c)
    ensures Dot(Plus(a, b), c) == Dot(a, c) + Dot(b, c)
    ensures Dot(Scale(a, s), c) == s * Dot(a, c)
  {
  }

  // ---------------------------------------------------------------------
  // The constants of src/core.cpp

  /** `UP` and `RIGHT` are orthogonal unit vectors. */
  lemma UpRightOrthonormal()
    ensures Up == Vector3(0.0, 1.0, 0.0) && Right == Vector3(1.0, 0.0, 0.0)
    ensures SquareMagnitude(Up) == 1.0 && SquareMagnitude(Right) == 1.0
    ensures Dot(Up, Right) == 0.0
  {
  }

  /** `GRAVITY` is the inversion of `NEGATIVE_GRAVITY`. */
  lemma GravityInvertsNegativeGravity()
    ensures Gravity == Invert(NegativeGravity)
  {
  }

  /** As initialised, `X` is the y axis and `Y` the x axis: they coincide with
      `UP` and `RIGHT` rather than naming their own axes. */
  lemma AxisConstantsSwapped()
    ensures AxisX == Up && AxisY == Right
    ensures AxisX != Vector3(1.0, 0.0, 0.0) && AxisY != Vector3(0.0, 1.0, 0.0)
  {
  }

  /** `Z` is a unit vector orthogonal to `UP` and `RIGHT`. */
  lemma AxisZUnitOrthogonal()
    ensures AxisZ == Vector3(0.0, 0.0, 1.0)
    ensures SquareMagnitude(AxisZ) == 1.0
    ensures Dot(AxisZ, Up) == 0.0 && Dot(AxisZ, Right) == 0.0
  {
    assert SquareMagnitude(AxisZ) == 0.0 * 0.0 + 0.0 * 0.0 + 1.0 * 1.0;
  }

  /** `Z` is the cross product `RIGHT × UP`. */
  lemma AxisZCompletesFrame()
    ensures Cross(Right, Up) == AxisZ
  {
  }
}

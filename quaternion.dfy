/**
 * Quaternion arithmetic used to compose frame poses: the Hamilton product in
 * (w, x, y, z) order and the rotation of a 3-vector by the sandwich product
 * q * (0, v) * conj(q). Components are exact reals; the code never normalises
 * a quaternion, so no lemma here assumes unit norm unless it says so.
 */
module Quaternion {

  datatype Quat = Quat(w: real, x: real, y: real, z: real)

  datatype Vec3 = Vec3(x: real, y: real, z: real)

  /** The identity rotation (1, 0, 0, 0). */
  const Identity: Quat := Quat(1.0, 0.0, 0.0, 0.0)

  const Zero: Vec3 := Vec3(0.0, 0.0, 0.0)

  function Conjugate(q: Quat): Quat
  {
    Quat(q.w, -q.x, -q.y, -q.z)
  }

  /** The pure quaternion (0, v). */
  function Pure(v: Vec3): Quat
  {
    Quat(0.0, v.x, v.y, v.z)
  }

  function Add(a: Vec3, b: Vec3): Vec3
  {
    Vec3(a.x + b.x, a.y + b.y, a.z + b.z)
  }

  function NormSquared(q: Quat): real
  {
    q.w * q.w + q.x * q.x + q.y * q.y + q.z * q.z
  }

  /** Hamilton product q1 * q2. */
  function Multiply(q1: Quat, q2: Quat): Quat
  {
    Quat(q1.w * q2.w - q1.x * q2.x - q1.y * q2.y - q1.z * q2.z,
         q1.w * q2.x + q1.x * q2.w + q1.y * q2.z - q1.z * q2.y,
         q1.w * q2.y - q1.x * q2.z + q1.y * q2.w + q1.z * q2.x,
         q1.w * q2.z + q1.x * q2.y - q1.y * q2.x + q1.z * q2.w)
  }

  /** The vector part of q * (0, v) * conj(q). */
  function RotateVector(q: Quat, v: Vec3): Vec3
  {
    var r := Multiply(Multiply(q, Pure(v)), Conjugate(q));
    Vec3(r.x, r.y, r.z)
  }

  lemma MultiplyIdentity(q: Quat)
    ensures Multiply(Identity, q) == q
    ensures Multiply(q, Identity) == q
  {
  }

  lemma RotateByIdentity(v: Vec3)
    ensures RotateVector(Identity, v) == v
  {
    var p := Multiply(Identity, Pure(v));
    assert p == Pure(v) by { MultiplyIdentity(Pure(v)); }
    assert Multiply(p, Conjugate(Identity)) == Pure(v) by { ConjugateIdentity(); MultiplyIdentity(Pure(v)); }
  }

  lemma ConjugateIdentity()
    ensures Conjugate(Identity) == Identity
  {
  }

  lemma RotateZero(q: Quat)
    ensures RotateVector(q, Zero) == Zero
  {
  }

  /** The product is not commutative: i * j = k but j * i = -k. */
  lemma MultiplyNotCommutative()
    ensures Multiply(Quat(0.0, 1.0, 0.0, 0.0), Quat(0.0, 0.0, 1.0, 0.0)) == Quat(0.0, 0.0, 0.0, 1.0)
    ensures Multiply(Quat(0.0, 0.0, 1.0, 0.0), Quat(0.0, 1.0, 0.0, 0.0)) == Quat(0.0, 0.0, 0.0, -1.0)
  {
    ProductIJ();
    ProductJI();
  }

  lemma ProductIJ()
    ensures Multiply(Quat(0.0, 1.0, 0.0, 0.0), Quat(0.0, 0.0, 1.0, 0.0)) == Quat(0.0, 0.0, 0.0, 1.0)
  {
  }

  lemma ProductJI()
    ensures Multiply(Quat(0.0, 0.0, 1.0, 0.0), Quat(0.0, 1.0, 0.0, 0.0)) == Quat(0.0, 0.0, 0.0, -1.0)
  {
  }

  /** The sandwich of a pure quaternion is pure, whatever the norm of q. */
  lemma SandwichIsPure(q: Quat, v: Vec3)
    ensures Multiply(Multiply(q, Pure(v)), Conjugate(q)) == Pure(RotateVector(q, v))
  {
  }

  /** Rotation is linear in the vector. */
  lemma RotateAdditive(q: Quat, a: Vec3, b: Vec3)
    ensures RotateVector(q, Add(a, b)) == Add(RotateVector(q, a), RotateVector(q, b))
  {
  }

  /** The norm is multiplicative (Euler's four-square identity). */
  lemma NormOfProduct(a: Quat, b: Quat)
    ensures NormSquared(Multiply(a, b)) == NormSquared(a) * NormSquared(b)
  {
    var m := Multiply(a, b);
    FourSquare(m.w, m.x, m.y, m.z, a.w, a.x, a.y, a.z, b.w, b.x, b.y, b.z);
  }

  lemma FourSquare(mw: real, mx: real, my: real, mz: real,
                   pw: real, px: real, py: real, pz: real,
                   qw: real, qx: real, qy: real, qz: real)
    requires mw == pw * qw - px * qx - py * qy - pz * qz
    requires mx == pw * qx + px * qw + py * qz - pz * qy
    requires my == pw * qy - px * qz + py * qw + pz * qx
    requires mz == pw * qz + px * qy - py * qx + pz * qw
    ensures mw * mw + mx * mx + my * my + mz * mz
         == (pw * pw + px * px + py * py + pz * pz) * (qw * qw + qx * qx + qy * qy + qz * qz)
  {
  }

  /** A rotation by a unit quaternion preserves length. */
  lemma RotatePreservesLength(q: Quat, v: Vec3)
    requires NormSquared(q) == 1.0
    ensures NormSquared(Pure(RotateVector(q, v))) == NormSquared(Pure(v))
  {
    calc {
      NormSquared(Pure(RotateVector(q, v)));
    ==  { SandwichIsPure(q, v); }
      NormSquared(Multiply(Multiply(q, Pure(v)), Conjugate(q)));
    ==  { NormOfProduct(Multiply(q, Pure(v)), Conjugate(q)); NormOfProduct(q, Pure(v)); }
      NormSquared(q) * NormSquared(Pure(v)) * NormSquared(Conjugate(q));
    ==  { assert NormSquared(Conjugate(q)) == NormSquared(q); }
      NormSquared(Pure(v));
    }
  }
}

/** Exact 3x3 linear algebra over `real`: the part of numpy the reduction uses. */
module LinAlg {

  datatype Vec3 = Vec3(x: real, y: real, z: real)

  /** A 3x3 matrix given by its rows. */
  datatype Mat3 = Mat3(r0: Vec3, r1: Vec3, r2: Vec3)

  function Dot(a: Vec3, b: Vec3): real
  {
    a.x * b.x + a.y * b.y + a.z * b.z
  }

  function Add(a: Vec3, b: Vec3): Vec3
  {
    Vec3(a.x + b.x, a.y + b.y, a.z + b.z)
  }

  function Scale(k: real, a: Vec3): Vec3
  {
    Vec3(k * a.x, k * a.y, k * a.z)
  }

  function Col0(m: Mat3): Vec3 { Vec3(m.r0.x, m.r1.x, m.r2.x) }
  function Col1(m: Mat3): Vec3 { Vec3(m.r0.y, m.r1.y, m.r2.y) }
  function Col2(m: Mat3): Vec3 { Vec3(m.r0.z, m.r1.z, m.r2.z) }

  /** The transpose swaps rows and columns. */
  function Transpose(m: Mat3): (t: Mat3)
    ensures t.r0 == Col0(m) && t.r1 == Col1(m) && t.r2 == Col2(m)
    ensures Col0(t) == m.r0 && Col1(t) == m.r1 && Col2(t) == m.r2
  {
    Mat3(Col0(m), Col1(m), Col2(m))
  }

  /** Matrix-vector product m . v (numpy's dot of a matrix and a column). */
  function MulVec(m: Mat3, v: Vec3): Vec3
  {
    Vec3(Dot(m.r0, v), Dot(m.r1, v), Dot(m.r2, v))
  }

  /** Matrix product a . b. */
  function Mul(a: Mat3, b: Mat3): Mat3
  {
    Mat3(Vec3(Dot(a.r0, Col0(b)), Dot(a.r0, Col1(b)), Dot(a.r0, Col2(b))),
         Vec3(Dot(a.r1, Col0(b)), Dot(a.r1, Col1(b)), Dot(a.r1, Col2(b))),
         Vec3(Dot(a.r2, Col0(b)), Dot(a.r2, Col1(b)), Dot(a.r2, Col2(b))))
  }

  const Identity: Mat3 := Mat3(Vec3(1.0, 0.0, 0.0), Vec3(0.0, 1.0, 0.0), Vec3(0.0, 0.0, 1.0))

  /** Determinant by cofactor expansion along the first row. */
  function Det(m: Mat3): real
  {
    m.r0.x * (m.r1.y * m.r2.z - m.r1.z * m.r2.y)
    - m.r0.y * (m.r1.x * m.r2.z - m.r1.z * m.r2.x)
    + m.r0.z * (m.r1.x * m.r2.y - m.r1.y * m.r2.x)
  }

  /** The Cartesian point of fractional coordinates `f` in a lattice whose rows
      are the basis vectors: f.x * a + f.y * b + f.z * c. */
  function Cartesian(lattice: Mat3, f: Vec3): (p: Vec3)
    ensures p == MulVec(Transpose(lattice), f)
  {
    Add(Add(Scale(f.x, lattice.r0), Scale(f.y, lattice.r1)), Scale(f.z, lattice.r2))
  }

  lemma TransposeInvolution(m: Mat3)
    ensures Transpose(Transpose(m)) == m
  {
  }

  lemma IdentityNeutral(m: Mat3, v: Vec3)
    ensures Mul(Identity, m) == m && Mul(m, Identity) == m
    ensures MulVec(Identity, v) == v
  {
  }

  /** (a . b) . v == a . (b . v) */
  lemma MulVecAssoc(a: Mat3, b: Mat3, v: Vec3)
    ensures MulVec(Mul(a, b), v) == MulVec(a, MulVec(b, v))
  {
  }

  /** The columns of a . b are a applied to the columns of b. */
  lemma MulColumns(a: Mat3, b: Mat3)
    ensures Col0(Mul(a, b)) == MulVec(a, Col0(b))
    ensures Col1(Mul(a, b)) == MulVec(a, Col1(b))
    ensures Col2(Mul(a, b)) == MulVec(a, Col2(b))
  {
  }

  /** (a . b) . c == a . (b . c) */
  lemma MulAssoc(a: Mat3, b: Mat3, c: Mat3)
    ensures Mul(Mul(a, b), c) == Mul(a, Mul(b, c))
  {
    var l, r := Mul(Mul(a, b), c), Mul(a, Mul(b, c));
    MulColumns(Mul(a, b), c);
    MulColumns(a, Mul(b, c));
    MulColumns(b, c);
    MulVecAssoc(a, b, Col0(c));
    MulVecAssoc(a, b, Col1(c));
    MulVecAssoc(a, b, Col2(c));
    assert Col0(l) == Col0(r) && Col1(l) == Col1(r) && Col2(l) == Col2(r);
    TransposeInvolution(l);
    TransposeInvolution(r);
  }

  /** (a . b)^T == b^T . a^T */
  lemma TransposeMul(a: Mat3, b: Mat3)
    ensures Transpose(Mul(a, b)) == Mul(Transpose(b), Transpose(a))
  {
  }

  lemma DetTranspose(m: Mat3)
    ensures Det(Transpose(m)) == Det(m)
  {
  }
}
